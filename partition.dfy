/**
 * The keyspace partitioner of main.py, `get_chunks`: the keyspace
 * [0, 10^length - 1] is cut into `num_chunks` contiguous inclusive ranges
 * of `(10^length) // num_chunks` values each, the last one also taking
 * the remainder of the division.
 */
module Partition {
  import opened Candidates

  /** One `ChunkRange` tuple `(start, end)`, both bounds inclusive. */
  datatype ChunkRange = ChunkRange(start: int, end: int)

  predicate Contains(c: ChunkRange, x: int)
  {
    c.start <= x <= c.end
  }

  /** The number of values in a range; 0 for the empty range (s, s - 1). */
  function Size(c: ChunkRange): int
  {
    c.end - c.start + 1
  }

  /** Python's `a // b`: the quotient rounded towards minus infinity. */
  function FloorDiv(a: int, b: int): int
    requires b != 0
  {
    if b < 0 && a % b != 0 then a / b - 1 else a / b
  }

  /**
   * `FloorDiv` is Python's `//`: the quotient q leaves a remainder a - b * q
   * that has the sign of b and is smaller than b in magnitude.
   */
  lemma FloorDivSpec(a: int, b: int)
    requires b != 0
    ensures b > 0 ==> 0 <= a - b * FloorDiv(a, b) < b
    ensures b < 0 ==> b < a - b * FloorDiv(a, b) <= 0
  {
    var q, m := a / b, a % b;
    assert a == b * q + m && 0 <= m;
    if b < 0 && m != 0 {
      assert b * (q - 1) == b * q - b;
    }
  }

  /** A key of the keyspace [0, max_number]. */
  predicate InKeyspace(length: nat, x: int)
  {
    0 <= x <= MaxNumber(length)
  }

  /** `max_number`: the largest key, 10^length - 1. */
  function MaxNumber(length: nat): int
  {
    Pow10(length) - 1
  }

  /** `chunk_size = (max_number + 1) // num_chunks`. */
  function ChunkSize(numChunks: int, length: nat): int
    requires numChunks != 0
  {
    FloorDiv(MaxNumber(length) + 1, numChunks)
  }

  /** The range emitted for index i. */
  function ChunkAt(numChunks: int, length: nat, i: int): ChunkRange
    requires numChunks != 0
  {
    var size := ChunkSize(numChunks, length);
    ChunkRange(i * size, if i < numChunks - 1 then (i + 1) * size - 1 else MaxNumber(length))
  }

  /**
   * Everything `get_chunks(num_chunks, length)` yields, in order; nothing for
   * a negative count, whose `range` is empty.
   */
  function Chunks(numChunks: int, length: nat): (cs: seq<ChunkRange>)
    requires numChunks != 0
    ensures |cs| == if numChunks < 0 then 0 else numChunks
  {
    seq(if numChunks < 0 then 0 else numChunks, i => ChunkAt(numChunks, length, i))
  }

  /**
   * `get_chunks` itself: the generator loop, collecting the ranges it yields.
   * A zero count is excluded: the source divides by it.
   */
  method GetChunks(numChunks: int, length: nat) returns (chunks: seq<ChunkRange>)
    requires numChunks != 0
    ensures chunks == Chunks(numChunks, length)
    ensures numChunks >= 1 ==> |chunks| == numChunks && chunks[0].start == 0 && chunks[numChunks - 1].end == MaxNumber(length)
    ensures numChunks >= 1 ==> Contiguous(chunks) && NoNegativeSizes(chunks)
  {
    var maxNumber := Pow10(length) - 1;
    var chunkSize := FloorDiv(maxNumber + 1, numChunks);
    chunks := [];
    var i := 0;
    while i < numChunks
      invariant 0 <= i <= if numChunks < 0 then 0 else numChunks
      invariant |chunks| == i
      invariant forall k :: 0 <= k < i ==> chunks[k] == ChunkAt(numChunks, length, k)
    {
      var start := i * chunkSize;
      var end := if i < numChunks - 1 then (i + 1) * chunkSize - 1 else maxNumber;
      chunks := chunks + [ChunkRange(start, end)];
      i := i + 1;
    }
    if numChunks >= 1 {
      ChunksContiguous(numChunks, length);
    }
  }

  // ---------------------------------------------------------------------
  // Sequences of contiguous ranges

  /** Each range ends just before the next one starts. */
  predicate Contiguous(cs: seq<ChunkRange>)
  {
    forall i, j :: 0 <= i < |cs| && j == i + 1 && j < |cs| ==> cs[i].end + 1 == cs[j].start
  }

  /** Every range is a real range or the empty range (s, s - 1). */
  predicate NoNegativeSizes(cs: seq<ChunkRange>)
  {
    forall i :: 0 <= i < |cs| ==> Size(cs[i]) >= 0
  }

  /** The sum of the sizes of the ranges. */
  function TotalSize(cs: seq<ChunkRange>): int
  {
    if cs == [] then 0 else Size(cs[0]) + TotalSize(cs[1..])
  }

  /** Dropping the first range keeps the rest contiguous and of non-negative sizes. */
  lemma ContiguousTail(cs: seq<ChunkRange>)
    requires |cs| >= 1 && Contiguous(cs) && NoNegativeSizes(cs)
    ensures Contiguous(cs[1..]) && NoNegativeSizes(cs[1..])
  {
    var rest := cs[1..];
    forall i, j | 0 <= i < |rest| && j == i + 1 && j < |rest|
      ensures rest[i].end + 1 == rest[j].start
    {
      assert rest[i] == cs[i + 1] && rest[j] == cs[j + 1];
    }
  }

  /** The sizes of contiguous ranges add up to the span from the first start to the last end. */
  lemma {:induction false} ContiguousTotalSize(cs: seq<ChunkRange>)
    requires |cs| >= 1 && Contiguous(cs) && NoNegativeSizes(cs)
    ensures TotalSize(cs) == cs[|cs| - 1].end - cs[0].start + 1
    ensures cs[0].start <= cs[|cs| - 1].end + 1
  {
    if |cs| > 1 {
      var rest := cs[1..];
      ContiguousTail(cs);
      ContiguousTotalSize(rest);
      assert cs[0].end + 1 == cs[1].start;
    }
  }

  /** In contiguous ranges an earlier range ends before a later one starts. */
  lemma {:induction false} ContiguousOrdered(cs: seq<ChunkRange>, i: int, j: int)
    requires Contiguous(cs) && NoNegativeSizes(cs)
    requires 0 <= i < j < |cs|
    ensures cs[i].end < cs[j].start
    decreases j - i
  {
    assert cs[i].end + 1 == cs[i + 1].start;
    if i + 1 < j {
      ContiguousOrdered(cs, i + 1, j);
      assert Size(cs[i + 1]) >= 0;
    }
  }

  /** A value lies between the first start and the last end iff some range holds it. */
  lemma {:induction false} ContiguousCover(cs: seq<ChunkRange>, x: int)
    requires |cs| >= 1 && Contiguous(cs) && NoNegativeSizes(cs)
    ensures cs[0].start <= x <= cs[|cs| - 1].end <==> exists i :: 0 <= i < |cs| && Contains(cs[i], x)
  {
    if cs[0].start <= x <= cs[|cs| - 1].end && !Contains(cs[0], x) {
      assert |cs| > 1;
      var rest := cs[1..];
      ContiguousTail(cs);
      assert cs[0].end + 1 == cs[1].start;
      ContiguousCover(rest, x);
      var k :| 0 <= k < |rest| && Contains(rest[k], x);
      assert Contains(cs[k + 1], x);
    }
    if exists i :: 0 <= i < |cs| && Contains(cs[i], x) {
      var i :| 0 <= i < |cs| && Contains(cs[i], x);
      if i > 0 {
        ContiguousOrdered(cs, 0, i);
      }
      if i < |cs| - 1 {
        ContiguousOrdered(cs, i, |cs| - 1);
      }
    }
  }

  // ---------------------------------------------------------------------
  // The ranges of get_chunks

  /**
   * For a count n >= 1: n ranges, range i starting at i * chunk_size, the
   * first starting at 0, the last ending at max_number, each one ending
   * just before the next starts, none of negative size.
   */
  lemma ChunksContiguous(numChunks: int, length: nat)
    requires numChunks >= 1
    ensures |Chunks(numChunks, length)| == numChunks
    ensures forall i :: 0 <= i < numChunks ==> Chunks(numChunks, length)[i].start == i * ChunkSize(numChunks, length)
    ensures Chunks(numChunks, length)[0].start == 0
    ensures Chunks(numChunks, length)[numChunks - 1].end == MaxNumber(length)
    ensures Contiguous(Chunks(numChunks, length))
    ensures NoNegativeSizes(Chunks(numChunks, length))
  {
    var cs, size := Chunks(numChunks, length), ChunkSize(numChunks, length);
    var total := Pow10(length);
    assert size == total / numChunks;
    assert total == numChunks * size + total % numChunks;
    assert size >= 0;
    forall i | 0 <= i < numChunks
      ensures Size(cs[i]) >= 0
    {
      if i < numChunks - 1 {
        NextMultiple(i, size);
      } else {
        NextMultiple(numChunks - 1, size);
      }
    }
  }

  /** chunk_size is the floor quotient 10^length // n: q with 10^length == n * q + r, 0 <= r < n. */
  lemma ChunkSizeDivides(numChunks: int, length: nat)
    requires numChunks >= 1
    ensures ChunkSize(numChunks, length) >= 0
    ensures Pow10(length) == numChunks * ChunkSize(numChunks, length) + Pow10(length) % numChunks
    ensures numChunks > Pow10(length) ==> ChunkSize(numChunks, length) == 0
  {
    FloorQuotient(Pow10(length), numChunks);
  }

  /** One more multiple of `size`: (i + 1) * size == i * size + size. */
  lemma NextMultiple(i: int, size: int)
    ensures (i + 1) * size == i * size + size
  {
  }

  lemma FloorQuotient(a: int, b: int)
    requires a >= 0 && b >= 1
    ensures FloorDiv(a, b) == a / b >= 0
    ensures a == b * (a / b) + a % b
    ensures a < b ==> a / b == 0
  {
  }

  /**
   * Every range but the last holds chunk_size values; the last holds
   * chunk_size plus the remainder, so it is never empty.
   */
  lemma LastChunkAbsorbsRemainder(numChunks: int, length: nat)
    requires numChunks >= 1
    ensures forall i :: 0 <= i < numChunks - 1 ==> Size(Chunks(numChunks, length)[i]) == ChunkSize(numChunks, length)
    ensures Size(Chunks(numChunks, length)[numChunks - 1]) == ChunkSize(numChunks, length) + Pow10(length) % numChunks
    ensures Size(Chunks(numChunks, length)[numChunks - 1]) >= 1
  {
    var cs := Chunks(numChunks, length);
    forall i | 0 <= i < numChunks - 1
      ensures Size(cs[i]) == ChunkSize(numChunks, length)
    {
      InnerChunkSize(numChunks, length, i);
    }
    LastChunkSize(numChunks, length);
  }

  lemma InnerChunkSize(numChunks: int, length: nat, i: int)
    requires 0 <= i < numChunks - 1
    ensures Size(ChunkAt(numChunks, length, i)) == ChunkSize(numChunks, length)
  {
    NextMultiple(i, ChunkSize(numChunks, length));
  }

  lemma LastChunkSize(numChunks: int, length: nat)
    requires numChunks >= 1
    ensures Size(ChunkAt(numChunks, length, numChunks - 1)) == ChunkSize(numChunks, length) + Pow10(length) % numChunks
    ensures Size(ChunkAt(numChunks, length, numChunks - 1)) >= 1
  {
    var size, total := ChunkSize(numChunks, length), Pow10(length);
    ChunkSizeDivides(numChunks, length);
    NextMultiple(numChunks - 1, size);
    if size == 0 {
      assert numChunks * size == 0;
    }
  }

  /**
   * The ranges partition the keyspace: a key lies in [0, max_number] iff
   * some range holds it, no key lies in two ranges, and the sizes add up
   * to 10^length.  This holds for every count, including counts above
   * 10^length, where all ranges but the last are empty.
   */
  lemma ChunksPartitionKeyspace(numChunks: int, length: nat)
    requires numChunks >= 1
    ensures forall x :: InKeyspace(length, x) <==>
              exists i :: 0 <= i < numChunks && Contains(Chunks(numChunks, length)[i], x)
    ensures forall i, j, x :: 0 <= i < j < numChunks && Contains(Chunks(numChunks, length)[i], x) ==>
              !Contains(Chunks(numChunks, length)[j], x)
    ensures TotalSize(Chunks(numChunks, length)) == Pow10(length)
  {
    var cs := Chunks(numChunks, length);
    ChunksContiguous(numChunks, length);
    ContiguousTotalSize(cs);
    forall x
      ensures InKeyspace(length, x) <==> exists i :: 0 <= i < numChunks && Contains(cs[i], x)
    {
      ContiguousCover(cs, x);
    }
    forall i, j, x | 0 <= i < j < numChunks && Contains(cs[i], x)
      ensures !Contains(cs[j], x)
    {
      ContiguousOrdered(cs, i, j);
    }
  }

  /**
   * With more chunks than keys, chunk_size is 0: the first n - 1 ranges are
   * the empty (0, -1) and the last one is the whole keyspace.
   */
  lemma MoreChunksThanKeys(numChunks: int, length: nat)
    requires numChunks > Pow10(length)
    ensures ChunkSize(numChunks, length) == 0
    ensures forall i :: 0 <= i < numChunks - 1 ==> Chunks(numChunks, length)[i] == ChunkRange(0, -1)
    ensures Chunks(numChunks, length)[numChunks - 1] == ChunkRange(0, MaxNumber(length))
  {
    var cs := Chunks(numChunks, length);
    ChunkSizeDivides(numChunks, length);
    forall i | 0 <= i < numChunks - 1
      ensures cs[i] == ChunkRange(0, -1)
    {
      assert cs[i] == ChunkAt(numChunks, length, i);
    }
    assert cs[numChunks - 1] == ChunkAt(numChunks, length, numChunks - 1);
  }
}
