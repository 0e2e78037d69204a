/**
 * The shared-memory simulator. Each thread owns one segment of the road and
 * runs, per step, a compute phase (move the cars of its segment into the
 * shared next-state buffer, reading the whole road) and, after a barrier, a
 * copy phase (move its segment of the buffer back into the road and clear
 * it), followed by a second barrier. The barriers are modelled by running
 * every thread's phase in turn, thread 0 first.
 */
module Parallel {
  import opened Road
  import opened Rules
  import opened Sequential
  import opened Partition

  /**
   * Phase 1 of thread k: the cars whose source cell lies in the thread's
   * segment are placed into `next`; no other cell of `next` is written.
   */
  function ComputePhase(road: seq<int>, next: seq<int>, n: nat, k: nat, vmax: nat, slow: Oracle): (r: seq<int>)
    requires 1 <= n && k < n && |next| == |road|
    ensures |r| == |road|
    ensures var seg := SegmentOf(k, n, |road|);
            forall p: nat :: p < |road| && !Arrives(road, vmax, slow, seg.start, seg.end, p) ==> r[p] == next[p]
  {
    var seg := SegmentOf(k, n, |road|);
    SweepFrame(road, vmax, slow, seg.start, seg.end, next);
    Sweep(road, vmax, slow, seg.start, seg.end, next)
  }

  /**
   * The compute phases of two threads commute: their writes land on disjoint
   * cells, so the order in which threads reach the barrier does not matter.
   */
  lemma ComputePhasesCommute(road: seq<int>, next: seq<int>, n: nat, k1: nat, k2: nat, vmax: nat, slow: Oracle)
    requires 1 <= n && k1 < n && k2 < n && |next| == |road|
    requires ValidRoad(road, vmax)
    ensures ComputePhase(road, ComputePhase(road, next, n, k1, vmax, slow), n, k2, vmax, slow)
         == ComputePhase(road, ComputePhase(road, next, n, k2, vmax, slow), n, k1, vmax, slow)
  {
    var s1 := SegmentOf(k1, n, |road|);
    var s2 := SegmentOf(k2, n, |road|);
    var a1 := ComputePhase(road, next, n, k1, vmax, slow);
    var b1 := ComputePhase(road, next, n, k2, vmax, slow);
    var a := ComputePhase(road, a1, n, k2, vmax, slow);
    var b := ComputePhase(road, b1, n, k1, vmax, slow);
    SweepArrivals(road, vmax, slow, s1.start, s1.end, next);
    SweepArrivals(road, vmax, slow, s2.start, s2.end, next);
    SweepArrivals(road, vmax, slow, s1.start, s1.end, b1);
    SweepArrivals(road, vmax, slow, s2.start, s2.end, a1);
    forall p: nat | p < |road|
      ensures a[p] == b[p]
    {
      if Arrives(road, vmax, slow, s1.start, s1.end, p) {
        var i1: nat :| s1.start <= i1 < s1.end && road[i1] != EMPTY && CarMove(road, i1, vmax, slow).dest == p;
        NoArrivalFromOtherSegment(road, vmax, slow, n, k1, k2, i1);
      } else if Arrives(road, vmax, slow, s2.start, s2.end, p) {
        var i2: nat :| s2.start <= i2 < s2.end && road[i2] != EMPTY && CarMove(road, i2, vmax, slow).dest == p;
        NoArrivalFromOtherSegment(road, vmax, slow, n, k2, k1, i2);
      }
    }
  }

  /** The destination of a car of segment k1 is reached by no car of another segment k2. */
  lemma NoArrivalFromOtherSegment(road: seq<int>, vmax: nat, slow: Oracle, n: nat, k1: nat, k2: nat, i1: nat)
    requires 1 <= n && k1 < n && k2 < n && ValidRoad(road, vmax)
    requires SegmentOf(k1, n, |road|).Contains(i1) && road[i1] != EMPTY
    ensures k1 != k2 ==>
              !Arrives(road, vmax, slow, SegmentOf(k2, n, |road|).start, SegmentOf(k2, n, |road|).end,
                       CarMove(road, i1, vmax, slow).dest)
  {
    var s2 := SegmentOf(k2, n, |road|);
    if k1 != k2 {
      forall i2: nat {:trigger CarMove(road, i2, vmax, slow)} | s2.start <= i2 < s2.end && road[i2] != EMPTY
        ensures CarMove(road, i2, vmax, slow).dest != CarMove(road, i1, vmax, slow).dest
      {
        if i2 == i1 {
          OwnerUnique(i1, n, |road|, k1, k2);
        }
        DistinctDestinations(road, vmax, slow, i1, i2);
      }
    }
  }

  /**
   * Phase 2 of a thread: its segment of the road is cleared and refilled from
   * the buffer, whose segment is cleared for the next step; cells outside the
   * segment are left alone.
   */
  method CopyPhase(road: seq<int>, next: seq<int>, seg: Segment) returns (road': seq<int>, next': seq<int>)
    requires seg.start <= seg.end <= |road| == |next|
    ensures |road'| == |road| && |next'| == |next|
    ensures forall p :: seg.start <= p < seg.end ==> road'[p] == next[p] && next'[p] == EMPTY
    ensures forall p :: 0 <= p < |road| && !(seg.start <= p < seg.end) ==> road'[p] == road[p] && next'[p] == next[p]
  {
    road' := road[..seg.start] + Blank(seg.end - seg.start) + road[seg.end..];
    next' := next;
    var i := seg.start;
    while i < seg.end
      invariant seg.start <= i <= seg.end
      invariant |road'| == |road| && |next'| == |next|
      invariant forall p :: seg.start <= p < i ==> road'[p] == next[p] && next'[p] == EMPTY
      invariant forall p :: i <= p < seg.end ==> road'[p] == EMPTY && next'[p] == next[p]
      invariant forall p :: 0 <= p < |road| && !(seg.start <= p < seg.end) ==> road'[p] == road[p] && next'[p] == next[p]
    {
      if next'[i] != EMPTY {
        road' := road'[i := next'[i]];
        next' := next'[i := EMPTY];
      }
      i := i + 1;
    }
  }

  /** First cell not owned by threads 0..k-1. */
  function Reach(k: nat, n: nat, len: nat): (c: nat)
    requires 1 <= n && k <= n
    ensures c <= len
    ensures k < n ==> c == SegmentOf(k, n, len).start
    ensures k == n ==> c == len
  {
    if k == 0 then 0
    else
      if k < n then SegmentsAdjacent(k - 1, n, len); SegmentOf(k - 1, n, len).end
      else SegmentOf(k - 1, n, len).end
  }

  /**
   * One step of the threaded simulator: every thread's compute phase, then
   * every thread's copy phase. It yields the sequential step and leaves the
   * buffer all-free again, as the next step requires.
   */
  method ParallelStep(road: seq<int>, next: seq<int>, n: nat, vmax: nat, slow: Oracle)
    returns (road': seq<int>, next': seq<int>)
    requires 1 <= n && next == Blank(|road|)
    ensures road' == Step(road, vmax, slow)
    ensures next' == Blank(|road|)
  {
    next' := next;
    var k := 0;
    while k < n
      invariant k <= n
      invariant next' == Sweep(road, vmax, slow, 0, Reach(k, n, |road|), next)
    {
      var seg := SegmentOf(k, n, |road|);
      SweepSplit(road, vmax, slow, 0, seg.start, seg.end, next);
      next' := ComputePhase(road, next', n, k, vmax, slow);
      k := k + 1;
    }
    var target := next';
    road' := road;
    k := 0;
    while k < n
      invariant k <= n && |road'| == |road| && |next'| == |road|
      invariant forall p :: 0 <= p < Reach(k, n, |road|) ==> road'[p] == target[p] && next'[p] == EMPTY
      invariant forall p :: Reach(k, n, |road|) <= p < |road| ==> next'[p] == target[p]
    {
      road', next' := CopyPhase(road', next', SegmentOf(k, n, |road|));
      k := k + 1;
    }
  }

  /** `sim_steps` steps of the threaded simulator agree with the sequential run under the same draws. */
  method ParallelRun(road: seq<int>, n: nat, vmax: nat, draws: Draws, steps: nat) returns (road': seq<int>)
    requires 1 <= n
    ensures road' == Run(road, vmax, draws, steps)
  {
    var next := Blank(|road|);
    road' := road;
    var t := 0;
    while t < steps
      invariant t <= steps
      invariant road' == Run(road, vmax, draws, t) && next == Blank(|road|)
    {
      road', next := ParallelStep(road', next, n, vmax, draws(t));
      t := t + 1;
    }
  }
}
