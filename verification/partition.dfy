/**
 * Domain decomposition shared by the threaded and the networked simulators:
 * `chunk_size = road_length // n`; unit k owns [k * chunk_size, (k + 1) * chunk_size)
 * and the last unit owns everything from its start to the end of the road.
 */
module Partition {
  import opened Road

  /** Half-open range [start, end) of source cells owned by one execution unit. */
  datatype Segment = Segment(start: nat, end: nat)
  {
    predicate Contains(i: nat)
    {
      start <= i < end
    }
  }

  lemma {:induction false} MulMonotone(a: nat, b: nat, c: nat)
    requires a <= b
    ensures a * c <= b * c
  {
    assert b * c == a * c + (b - a) * c;
  }

  /** i lies in the q-th block of c cells, q = i / c. */
  lemma DivBounds(i: nat, c: nat)
    requires 0 < c
    ensures (i / c) * c <= i < (i / c + 1) * c
  {
    var q := i / c;
    assert i == q * c + i % c;
    assert (q + 1) * c == q * c + c;
  }

  /** The bounds of unit k among n units over a road of `len` cells. */
  function SegmentOf(k: nat, n: nat, len: nat): (s: Segment)
    requires 1 <= n && k < n
    ensures s.start <= s.end <= len
    ensures k == 0 ==> s.start == 0
    ensures k == n - 1 ==> s.end == len
  {
    var chunk := len / n;
    MulMonotone(k + 1, n, chunk);
    MulMonotone(k, k + 1, chunk);
    assert n * chunk <= len;
    Segment(k * chunk, if k == n - 1 then len else (k + 1) * chunk)
  }

  /** Consecutive segments meet: unit k ends where unit k + 1 starts. */
  lemma SegmentsAdjacent(k: nat, n: nat, len: nat)
    requires k + 1 < n
    ensures SegmentOf(k, n, len).end == SegmentOf(k + 1, n, len).start
  {
  }

  /** The unit whose segment holds cell i. */
  function Owner(i: nat, n: nat, len: nat): (k: nat)
    requires 1 <= n && i < len
    ensures k < n && SegmentOf(k, n, len).Contains(i)
  {
    var chunk := len / n;
    if chunk == 0 then n - 1
    else
      var q := i / chunk;
      DivBounds(i, chunk);
      if q < n - 1 then q
      else
        MulMonotone(n - 1, q, chunk);
        n - 1
  }

  /** Segments of distinct units are disjoint: a cell has one owner only. */
  lemma OwnerUnique(i: nat, n: nat, len: nat, k1: nat, k2: nat)
    requires 1 <= n && k1 < n && k2 < n
    requires SegmentOf(k1, n, len).Contains(i) && SegmentOf(k2, n, len).Contains(i)
    ensures k1 == k2
  {
    var chunk := len / n;
    if k1 != k2 {
      var a: nat, b: nat := Min(k1, k2), Max(k1, k2);
      MulMonotone(a + 1, b, chunk);
    }
  }

  /**
   * Coverage: for every n >= 1 (including n > len, where all but the last
   * segment are empty) each cell of [0, len) lies in exactly one segment.
   */
  lemma PartitionCovers(n: nat, len: nat)
    requires 1 <= n
    ensures forall i: nat, k: nat :: i < len && k < n ==>
              (SegmentOf(k, n, len).Contains(i) <==> k == Owner(i, n, len))
  {
    forall i: nat, k: nat | i < len && k < n && SegmentOf(k, n, len).Contains(i)
      ensures k == Owner(i, n, len)
    {
      OwnerUnique(i, n, len, k, Owner(i, n, len));
    }
  }

  /** With more units than cells every unit but the last owns nothing. */
  lemma MoreUnitsThanCells(n: nat, len: nat, k: nat)
    requires len < n && k < n - 1
    ensures SegmentOf(k, n, len).start == SegmentOf(k, n, len).end == 0
    ensures SegmentOf(n - 1, n, len) == Segment(0, len)
  {
    assert len / n == 0;
  }
}
