/**
 * The worker search unit of main.py, `crack_chunk`: walk the candidates of
 * one chunk in ascending order and return the first whose digest is the
 * target, or `None` once the chunk is exhausted.
 */
module Search {
  import opened Optional
  import opened Digest
  import opened Candidates

  /** Candidate k of `cands` matches the digest and no earlier one does. */
  predicate IsFirstMatch(hash: HashFn, cryptoHash: string, cands: seq<string>, k: int)
  {
    && 0 <= k < |cands|
    && CheckPassword(hash, cryptoHash, cands[k])
    && forall j :: 0 <= j < k ==> !CheckPassword(hash, cryptoHash, cands[j])
  }

  /** The first candidate of a sequence that matches the digest, if any. */
  function FirstMatch(hash: HashFn, cryptoHash: string, cands: seq<string>): Option<string>
  {
    if cands == [] then None
    else if CheckPassword(hash, cryptoHash, cands[0]) then Some(cands[0])
    else FirstMatch(hash, cryptoHash, cands[1..])
  }

  /** The search of one chunk: the first match in its enumeration. */
  function ChunkSearch(hash: HashFn, cryptoHash: string, length: nat, chunkStart: int, chunkEnd: int): Option<string>
  {
    FirstMatch(hash, cryptoHash, Combinations(length, chunkStart, chunkEnd))
  }

  /** Key i of [chunkStart, chunkEnd] matches and no smaller key of the range does. */
  predicate IsFirstKey(hash: HashFn, cryptoHash: string, length: nat, chunkStart: int, chunkEnd: int, i: int)
  {
    && chunkStart <= i <= chunkEnd
    && CheckPassword(hash, cryptoHash, Candidate(length, i))
    && forall j :: chunkStart <= j < i ==> !CheckPassword(hash, cryptoHash, Candidate(length, j))
  }

  /**
   * `crack_chunk`: the loop over `get_combinations(length, chunk_start,
   * chunk_end)` with its early return.  The result is the candidate of the
   * smallest matching key of the range, or `None` when no key matches.
   */
  method CrackChunk(hash: HashFn, cryptoHash: string, length: nat, chunkStart: int, chunkEnd: int)
    returns (r: Option<string>)
    ensures r == ChunkSearch(hash, cryptoHash, length, chunkStart, chunkEnd)
    ensures r.None? <==> forall i :: chunkStart <= i <= chunkEnd ==> !CheckPassword(hash, cryptoHash, Candidate(length, i))
    ensures r.Some? ==> exists i :: IsFirstKey(hash, cryptoHash, length, chunkStart, chunkEnd, i) && r.value == Candidate(length, i)
  {
    var i := chunkStart;
    while i <= chunkEnd
      invariant i == chunkStart || chunkStart < i <= chunkEnd + 1
      invariant forall j :: chunkStart <= j < i ==> !CheckPassword(hash, cryptoHash, Candidate(length, j))
      decreases chunkEnd - i
    {
      var combination := Candidate(length, i);
      if CheckPassword(hash, cryptoHash, combination) {
        assert IsFirstKey(hash, cryptoHash, length, chunkStart, chunkEnd, i);
        ChunkSearchAtFirstKey(hash, cryptoHash, length, chunkStart, chunkEnd, i);
        return Some(combination);
      }
      i := i + 1;
    }
    ChunkSearchNoneIff(hash, cryptoHash, length, chunkStart, chunkEnd);
    return None;
  }

  // ---------------------------------------------------------------------
  // Lemmas

  /**
   * The scan answers `None` exactly when no candidate matches, and otherwise
   * a matching candidate with no match before it.
   */
  lemma {:induction false} FirstMatchSpec(hash: HashFn, cryptoHash: string, cands: seq<string>)
    ensures FirstMatch(hash, cryptoHash, cands).None? <==>
              forall k :: 0 <= k < |cands| ==> !CheckPassword(hash, cryptoHash, cands[k])
    ensures FirstMatch(hash, cryptoHash, cands).Some? ==>
              exists k :: IsFirstMatch(hash, cryptoHash, cands, k) && cands[k] == FirstMatch(hash, cryptoHash, cands).value
  {
    if cands != [] && !CheckPassword(hash, cryptoHash, cands[0]) {
      var rest := cands[1..];
      FirstMatchSpec(hash, cryptoHash, rest);
      if FirstMatch(hash, cryptoHash, rest).Some? {
        var k :| IsFirstMatch(hash, cryptoHash, rest, k) && rest[k] == FirstMatch(hash, cryptoHash, rest).value;
        assert IsFirstMatch(hash, cryptoHash, cands, k + 1) by {
          forall j | 0 <= j < k + 1
            ensures !CheckPassword(hash, cryptoHash, cands[j])
          {
            if j > 0 {
              assert cands[j] == rest[j - 1];
            }
          }
        }
      } else {
        forall k | 0 <= k < |cands|
          ensures !CheckPassword(hash, cryptoHash, cands[k])
        {
          if k > 0 {
            assert cands[k] == rest[k - 1];
          }
        }
      }
    } else if cands != [] {
      assert IsFirstMatch(hash, cryptoHash, cands, 0);
    }
  }

  /** The first matching position determines the result. */
  lemma {:induction false} FirstMatchAt(hash: HashFn, cryptoHash: string, cands: seq<string>, k: int)
    requires IsFirstMatch(hash, cryptoHash, cands, k)
    ensures FirstMatch(hash, cryptoHash, cands) == Some(cands[k])
    decreases k
  {
    if k > 0 {
      assert !CheckPassword(hash, cryptoHash, cands[0]);
      assert IsFirstMatch(hash, cryptoHash, cands[1..], k - 1) by {
        forall j | 0 <= j < k - 1
          ensures !CheckPassword(hash, cryptoHash, cands[1..][j])
        {
          assert cands[1..][j] == cands[j + 1];
        }
      }
      FirstMatchAt(hash, cryptoHash, cands[1..], k - 1);
    }
  }

  /** Searching xs + ys: the match in xs if there is one, else the match in ys. */
  lemma {:induction false} FirstMatchAppend(hash: HashFn, cryptoHash: string, xs: seq<string>, ys: seq<string>)
    ensures FirstMatch(hash, cryptoHash, xs + ys) ==
              if FirstMatch(hash, cryptoHash, xs).Some? then FirstMatch(hash, cryptoHash, xs) else FirstMatch(hash, cryptoHash, ys)
  {
    if xs == [] {
      assert xs + ys == ys;
    } else {
      assert (xs + ys)[0] == xs[0];
      assert (xs + ys)[1..] == xs[1..] + ys;
      FirstMatchAppend(hash, cryptoHash, xs[1..], ys);
    }
  }

  /** The chunk search finds nothing exactly when no key of the range matches. */
  lemma ChunkSearchNoneIff(hash: HashFn, cryptoHash: string, length: nat, chunkStart: int, chunkEnd: int)
    ensures ChunkSearch(hash, cryptoHash, length, chunkStart, chunkEnd).None? <==>
              forall i :: chunkStart <= i <= chunkEnd ==> !CheckPassword(hash, cryptoHash, Candidate(length, i))
  {
    var cands := Combinations(length, chunkStart, chunkEnd);
    FirstMatchSpec(hash, cryptoHash, cands);
    if FirstMatch(hash, cryptoHash, cands).None? {
      forall i | chunkStart <= i <= chunkEnd
        ensures !CheckPassword(hash, cryptoHash, Candidate(length, i))
      {
        assert cands[i - chunkStart] == Candidate(length, i);
      }
    }
  }

  /** When key i is the first matching key of the range, the chunk search answers its candidate. */
  lemma ChunkSearchAtFirstKey(hash: HashFn, cryptoHash: string, length: nat, chunkStart: int, chunkEnd: int, i: int)
    requires IsFirstKey(hash, cryptoHash, length, chunkStart, chunkEnd, i)
    ensures ChunkSearch(hash, cryptoHash, length, chunkStart, chunkEnd) == Some(Candidate(length, i))
  {
    var cands := Combinations(length, chunkStart, chunkEnd);
    assert IsFirstMatch(hash, cryptoHash, cands, i - chunkStart) by {
      forall j | 0 <= j < i - chunkStart
        ensures !CheckPassword(hash, cryptoHash, cands[j])
      {
        assert cands[j] == Candidate(length, chunkStart + j);
      }
    }
    FirstMatchAt(hash, cryptoHash, cands, i - chunkStart);
  }

  /** Whatever the chunk search answers is the candidate of the first matching key of the range. */
  lemma ChunkSearchFromFirstKey(hash: HashFn, cryptoHash: string, length: nat, chunkStart: int, chunkEnd: int)
    ensures ChunkSearch(hash, cryptoHash, length, chunkStart, chunkEnd).Some? ==>
              exists i :: IsFirstKey(hash, cryptoHash, length, chunkStart, chunkEnd, i) &&
                ChunkSearch(hash, cryptoHash, length, chunkStart, chunkEnd).value == Candidate(length, i)
  {
    var cands := Combinations(length, chunkStart, chunkEnd);
    var r := FirstMatch(hash, cryptoHash, cands);
    FirstMatchSpec(hash, cryptoHash, cands);
    if r.Some? {
      var k :| IsFirstMatch(hash, cryptoHash, cands, k) && cands[k] == r.value;
      assert IsFirstKey(hash, cryptoHash, length, chunkStart, chunkEnd, chunkStart + k) by {
        forall j | chunkStart <= j < chunkStart + k
          ensures !CheckPassword(hash, cryptoHash, Candidate(length, j))
        {
          assert cands[j - chunkStart] == Candidate(length, j);
        }
      }
    }
  }

  /**
   * The chunk search in terms of keys: `None` exactly when no key of the
   * range matches, and otherwise the candidate of the smallest matching key.
   */
  lemma ChunkSearchIsFirstKey(hash: HashFn, cryptoHash: string, length: nat, chunkStart: int, chunkEnd: int)
    ensures ChunkSearch(hash, cryptoHash, length, chunkStart, chunkEnd).None? <==>
              forall i :: chunkStart <= i <= chunkEnd ==> !CheckPassword(hash, cryptoHash, Candidate(length, i))
    ensures forall i :: IsFirstKey(hash, cryptoHash, length, chunkStart, chunkEnd, i) ==>
              ChunkSearch(hash, cryptoHash, length, chunkStart, chunkEnd) == Some(Candidate(length, i))
    ensures ChunkSearch(hash, cryptoHash, length, chunkStart, chunkEnd).Some? ==>
              exists i :: IsFirstKey(hash, cryptoHash, length, chunkStart, chunkEnd, i) &&
                ChunkSearch(hash, cryptoHash, length, chunkStart, chunkEnd).value == Candidate(length, i)
  {
    ChunkSearchNoneIff(hash, cryptoHash, length, chunkStart, chunkEnd);
    ChunkSearchFromFirstKey(hash, cryptoHash, length, chunkStart, chunkEnd);
    forall i | IsFirstKey(hash, cryptoHash, length, chunkStart, chunkEnd, i)
      ensures ChunkSearch(hash, cryptoHash, length, chunkStart, chunkEnd) == Some(Candidate(length, i))
    {
      ChunkSearchAtFirstKey(hash, cryptoHash, length, chunkStart, chunkEnd, i);
    }
  }

  /**
   * Searching [lo, hi] is searching [lo, mid] and, only if that finds
   * nothing, [mid + 1, hi].
   */
  lemma ChunkSearchSplit(hash: HashFn, cryptoHash: string, length: nat, lo: int, mid: int, hi: int)
    requires lo <= mid + 1 <= hi + 1
    ensures ChunkSearch(hash, cryptoHash, length, lo, hi) ==
              if ChunkSearch(hash, cryptoHash, length, lo, mid).Some? then ChunkSearch(hash, cryptoHash, length, lo, mid)
              else ChunkSearch(hash, cryptoHash, length, mid + 1, hi)
  {
    CombinationsSplit(length, lo, mid, hi);
    FirstMatchAppend(hash, cryptoHash, Combinations(length, lo, mid), Combinations(length, mid + 1, hi));
  }

  /** A chunk search never answers with the empty string: every candidate has a character. */
  lemma ChunkSearchNonEmpty(hash: HashFn, cryptoHash: string, length: nat, chunkStart: int, chunkEnd: int)
    ensures ChunkSearch(hash, cryptoHash, length, chunkStart, chunkEnd).Some? ==>
              ChunkSearch(hash, cryptoHash, length, chunkStart, chunkEnd).value != ""
  {
    ChunkSearchFromFirstKey(hash, cryptoHash, length, chunkStart, chunkEnd);
  }
}
