/**
 * The coordinator of main.py, `crack_password`: partition the keyspace into
 * one chunk per core, search every chunk, and keep the first truthy result
 * in chunk order.  The process pool's `starmap` is modelled as the
 * in-order map it is relied on to be.
 */
module Coordinator {
  import opened Optional
  import opened Digest
  import opened Candidates
  import opened Partition
  import opened Search

  /** Python truthiness of an `Optional[str]`: a string that is not empty. */
  predicate Truthy(r: Option<string>)
  {
    r.Some? && r.value != ""
  }

  /** `next((r for r in results if r), None)`: the first truthy result, else `None`. */
  function FirstTruthy(results: seq<Option<string>>): (r: Option<string>)
    ensures r.None? || Truthy(r)
  {
    if results == [] then None
    else if Truthy(results[0]) then results[0]
    else FirstTruthy(results[1..])
  }

  /**
   * The reduction answers `None` exactly when no result is truthy, and
   * otherwise the first truthy result.
   */
  lemma {:induction false} FirstTruthySpec(results: seq<Option<string>>)
    ensures FirstTruthy(results).None? <==> forall k :: 0 <= k < |results| ==> !Truthy(results[k])
    ensures FirstTruthy(results).Some? ==>
              exists k :: 0 <= k < |results| && results[k] == FirstTruthy(results) && Truthy(results[k]) &&
                forall j :: 0 <= j < k ==> !Truthy(results[j])
  {
    if results != [] && !Truthy(results[0]) {
      var rest := results[1..];
      FirstTruthySpec(rest);
      if FirstTruthy(rest).Some? {
        var k :| 0 <= k < |rest| && rest[k] == FirstTruthy(rest) && Truthy(rest[k]) &&
                 forall j :: 0 <= j < k ==> !Truthy(rest[j]);
        assert results[k + 1] == rest[k];
        forall j | 0 <= j < k + 1
          ensures !Truthy(results[j])
        {
          if j > 0 {
            assert results[j] == rest[j - 1];
          }
        }
      } else {
        forall k | 0 <= k < |results|
          ensures !Truthy(results[k])
        {
          if k > 0 {
            assert results[k] == rest[k - 1];
          }
        }
      }
    }
  }

  /** The list `pool.starmap(crack_chunk, ...)` returns: one search result per chunk, in chunk order. */
  function ChunkResults(hash: HashFn, cryptoHash: string, length: nat, chunks: seq<ChunkRange>): (results: seq<Option<string>>)
    ensures |results| == |chunks|
  {
    seq(|chunks|, j requires 0 <= j < |chunks| => ChunkSearch(hash, cryptoHash, length, chunks[j].start, chunks[j].end))
  }

  /** The answer `crack_password` reaches with `numCores` workers. */
  function Crack(hash: HashFn, cryptoHash: string, length: nat, numCores: int): Option<string>
    requires numCores >= 1
  {
    FirstTruthy(ChunkResults(hash, cryptoHash, length, Chunks(numCores, length)))
  }

  /** The reference answer: the first match of one search over the whole keyspace. */
  function KeyspaceSearch(hash: HashFn, cryptoHash: string, length: nat): Option<string>
  {
    ChunkSearch(hash, cryptoHash, length, 0, MaxNumber(length))
  }

  /**
   * `crack_password` without its printing and timing: one `crack_chunk`
   * per range of `get_chunks(num_cores, length)`, in order, then the first
   * truthy result.  The answer is that of a single search of the keyspace.
   */
  method CrackPassword(hash: HashFn, cryptoHash: string, length: nat, numCores: int)
    returns (result: Option<string>)
    requires numCores >= 1
    ensures result == Crack(hash, cryptoHash, length, numCores)
    ensures result == KeyspaceSearch(hash, cryptoHash, length)
  {
    var chunks := GetChunks(numCores, length);
    var results: seq<Option<string>> := [];
    for k := 0 to |chunks|
      invariant |results| == k
      invariant forall j :: 0 <= j < k ==> results[j] == ChunkSearch(hash, cryptoHash, length, chunks[j].start, chunks[j].end)
    {
      var r := CrackChunk(hash, cryptoHash, length, chunks[k].start, chunks[k].end);
      results := results + [r];
    }
    assert results == ChunkResults(hash, cryptoHash, length, chunks) by {
      var expected := ChunkResults(hash, cryptoHash, length, chunks);
      assert |expected| == |results|;
      forall j | 0 <= j < |results|
        ensures results[j] == expected[j]
      {
      }
    }
    result := FirstTruthy(results);
    CrackIsKeyspaceSearch(hash, cryptoHash, length, numCores);
  }

  // ---------------------------------------------------------------------
  // The reduction

  /**
   * Over contiguous chunks, the first truthy chunk result is the first match
   * of one search from the first chunk's start to the last chunk's end.
   */
  lemma {:induction false} ReduceContiguous(hash: HashFn, cryptoHash: string, length: nat, cs: seq<ChunkRange>)
    requires |cs| >= 1 && Contiguous(cs) && NoNegativeSizes(cs)
    ensures FirstTruthy(ChunkResults(hash, cryptoHash, length, cs)) ==
              ChunkSearch(hash, cryptoHash, length, cs[0].start, cs[|cs| - 1].end)
  {
    var results := ChunkResults(hash, cryptoHash, length, cs);
    ChunkResultsTail(hash, cryptoHash, length, cs);
    ChunkSearchNonEmpty(hash, cryptoHash, length, cs[0].start, cs[0].end);
    if |cs| == 1 {
      assert results[1..] == [];
    } else {
      var rest := cs[1..];
      ContiguousTail(cs);
      ReduceContiguous(hash, cryptoHash, length, rest);
      ContiguousTotalSize(rest);
      assert cs[0].end + 1 == cs[1].start;
      ChunkSearchSplit(hash, cryptoHash, length, cs[0].start, cs[0].end, cs[|cs| - 1].end);
    }
  }

  /** The first chunk's result heads the list; the others are the results of the remaining chunks. */
  lemma ChunkResultsTail(hash: HashFn, cryptoHash: string, length: nat, cs: seq<ChunkRange>)
    requires |cs| >= 1
    ensures ChunkResults(hash, cryptoHash, length, cs)[0] == ChunkSearch(hash, cryptoHash, length, cs[0].start, cs[0].end)
    ensures ChunkResults(hash, cryptoHash, length, cs)[1..] == ChunkResults(hash, cryptoHash, length, cs[1..])
  {
    var rest := cs[1..];
    var results, tail := ChunkResults(hash, cryptoHash, length, cs), ChunkResults(hash, cryptoHash, length, rest);
    assert |results[1..]| == |tail|;
    forall j | 0 <= j < |tail|
      ensures results[1..][j] == tail[j]
    {
      var c := rest[j];
      assert c == cs[j + 1];
      assert tail[j] == ChunkSearch(hash, cryptoHash, length, c.start, c.end);
      assert results[1..][j] == results[j + 1] == ChunkSearch(hash, cryptoHash, length, c.start, c.end);
    }
  }

  /**
   * The end-to-end theorem: for every worker count n >= 1 the coordinator
   * answers what a single ascending search of the keyspace answers.
   */
  lemma CrackIsKeyspaceSearch(hash: HashFn, cryptoHash: string, length: nat, numCores: int)
    requires numCores >= 1
    ensures Crack(hash, cryptoHash, length, numCores) == KeyspaceSearch(hash, cryptoHash, length)
  {
    ChunksContiguous(numCores, length);
    ReduceContiguous(hash, cryptoHash, length, Chunks(numCores, length));
  }

  /** The number of workers changes the work, never the answer. */
  lemma WorkerCountIrrelevant(hash: HashFn, cryptoHash: string, length: nat, n1: int, n2: int)
    requires n1 >= 1 && n2 >= 1
    ensures Crack(hash, cryptoHash, length, n1) == Crack(hash, cryptoHash, length, n2)
  {
    CrackIsKeyspaceSearch(hash, cryptoHash, length, n1);
    CrackIsKeyspaceSearch(hash, cryptoHash, length, n2);
  }

  /**
   * The answer is the smallest matching password of the keyspace: `None`
   * exactly when no key matches; otherwise a string of `length` digits that
   * matches and whose value is below every other matching key.
   */
  lemma KeyspaceSearchIsSmallestMatch(hash: HashFn, cryptoHash: string, length: nat)
    requires length >= 1
    ensures KeyspaceSearch(hash, cryptoHash, length).None? <==>
              forall i :: InKeyspace(length, i) ==> !CheckPassword(hash, cryptoHash, Candidate(length, i))
    ensures KeyspaceSearch(hash, cryptoHash, length).Some? ==>
              var c := KeyspaceSearch(hash, cryptoHash, length).value;
              && IsKeyspaceString(length, c)
              && CheckPassword(hash, cryptoHash, c)
              && forall j :: 0 <= j < DigitsValue(c) ==> !CheckPassword(hash, cryptoHash, Candidate(length, j))
  {
    var r := KeyspaceSearch(hash, cryptoHash, length);
    ChunkSearchIsFirstKey(hash, cryptoHash, length, 0, MaxNumber(length));
    if r.Some? {
      var i :| IsFirstKey(hash, cryptoHash, length, 0, MaxNumber(length), i) && r.value == Candidate(length, i);
      CandidateLength(length, i);
      CandidateRoundTrip(length, i);
    }
  }

  /**
   * The hash has no collisions among the passwords of the keyspace (strings
   * of `length` digits).  A fixed-width digest such as hex SHA-256 collides
   * somewhere among all strings, so only this restricted form is assumed.
   */
  ghost predicate KeyspaceCollisionFree(hash: HashFn, length: nat)
  {
    forall a, b :: IsKeyspaceString(length, a) && IsKeyspaceString(length, b) && hash(a) == hash(b) ==> a == b
  }

  /**
   * Without collisions in the keyspace, the digest of a keyspace password is
   * cracked to that very password.
   */
  lemma FoundWhenPresent(hash: HashFn, length: nat, i: int)
    requires KeyspaceCollisionFree(hash, length) && InKeyspace(length, i)
    ensures KeyspaceSearch(hash, hash(Candidate(length, i)), length) == Some(Candidate(length, i))
  {
    var target := hash(Candidate(length, i));
    ChunkSearchIsFirstKey(hash, target, length, 0, MaxNumber(length));
    var r := KeyspaceSearch(hash, target, length);
    assert CheckPassword(hash, target, Candidate(length, i));
    var k :| IsFirstKey(hash, target, length, 0, MaxNumber(length), k) && r.value == Candidate(length, k);
    if length >= 1 {
      CandidateLength(length, i);
      CandidateRoundTrip(length, i);
      CandidateLength(length, k);
      CandidateRoundTrip(length, k);
      assert hash(Candidate(length, k)) == hash(Candidate(length, i));
    }
  }

  /**
   * For `length >= 1` the search comes back empty exactly when no string of
   * `length` digits has the target digest.
   */
  lemma NotFoundIffNoPreimage(hash: HashFn, cryptoHash: string, length: nat)
    requires length >= 1
    ensures KeyspaceSearch(hash, cryptoHash, length) == None <==>
              forall s :: IsKeyspaceString(length, s) ==> hash(s) != cryptoHash
  {
    KeyspaceSearchIsSmallestMatch(hash, cryptoHash, length);
    if KeyspaceSearch(hash, cryptoHash, length) == None {
      forall s | IsKeyspaceString(length, s)
        ensures hash(s) != cryptoHash
      {
        CandidateOnto(length, s);
        assert InKeyspace(length, DigitsValue(s));
      }
    }
  }

  /** With 4 workers over 8 digits, the digest of "00000042" is cracked to "00000042". */
  lemma CrackExample(hash: HashFn)
    requires KeyspaceCollisionFree(hash, 8)
    ensures Crack(hash, hash("00000042"), 8, 4) == Some("00000042")
  {
    assert NatStr(42) == "42";
    assert Zeros(6) == "000000";
    assert Candidate(8, 42) == "00000042";
    assert Pow10(8) == 100000000;
    FoundWhenPresent(hash, 8, 42);
    CrackIsKeyspaceSearch(hash, hash("00000042"), 8, 4);
  }

  /**
   * The run in the source's entry point: the digest of "11221974" searched
   * over 8 digits is cracked to "11221974", whatever the number of cores.
   */
  lemma CrackEntryPointRun(hash: HashFn, numCores: int)
    requires KeyspaceCollisionFree(hash, 8) && numCores >= 1
    ensures Crack(hash, hash("11221974"), 8, numCores) == Some("11221974")
  {
    assert NatStr(11) == "11";
    assert NatStr(112) == "112";
    assert NatStr(1122) == "1122";
    assert NatStr(11221) == "11221";
    assert NatStr(112219) == "112219";
    assert NatStr(1122197) == "1122197";
    assert NatStr(11221974) == "11221974";
    assert Candidate(8, 11221974) == "11221974";
    assert Pow10(8) == 100000000;
    FoundWhenPresent(hash, 8, 11221974);
    CrackIsKeyspaceSearch(hash, hash("11221974"), 8, numCores);
  }
}
