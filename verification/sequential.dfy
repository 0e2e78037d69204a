/**
 * The single-threaded simulator: each step moves every car into a fresh
 * all-free buffer, visiting source cells in increasing order, then swaps the
 * buffer in as the new road.
 */
module Sequential {
  import opened Road
  import opened Rules

  /** `next_road[nova_posicao] = v_nova` for the car in cell i; a free cell writes nothing. */
  function Place(next: seq<int>, road: seq<int>, vmax: nat, slow: Oracle, i: nat): (r: seq<int>)
    requires |next| == |road| && i < |road|
    ensures |r| == |next|
  {
    if road[i] == EMPTY then next
    else
      var m := CarMove(road, i, vmax, slow);
      next[m.dest := m.vel]
  }

  /** The cells lo..hi-1 visited in increasing order, each placing its car into `next`. */
  function Sweep(road: seq<int>, vmax: nat, slow: Oracle, lo: nat, hi: nat, next: seq<int>): (r: seq<int>)
    requires lo <= hi <= |road| == |next|
    ensures |r| == |road|
    decreases hi - lo
  {
    if lo == hi then next
    else Sweep(road, vmax, slow, lo + 1, hi, Place(next, road, vmax, slow, lo))
  }

  /** One step of the simulation loop: the whole road swept into an all-free buffer. */
  function Step(road: seq<int>, vmax: nat, slow: Oracle): (r: seq<int>)
    ensures |r| == |road|
  {
    Sweep(road, vmax, slow, 0, |road|, Blank(|road|))
  }

  /** Some car among the source cells lo..hi-1 moves to cell p. */
  predicate Arrives(road: seq<int>, vmax: nat, slow: Oracle, lo: nat, hi: nat, p: nat)
    requires hi <= |road|
  {
    exists i: nat {:trigger CarMove(road, i, vmax, slow)} :: lo <= i < hi && road[i] != EMPTY && CarMove(road, i, vmax, slow).dest == p
  }

  /** Sweeping lo..hi-1 is sweeping lo..mid-1 and then mid..hi-1 into the result. */
  lemma {:induction false} SweepSplit(road: seq<int>, vmax: nat, slow: Oracle, lo: nat, mid: nat, hi: nat, next: seq<int>)
    requires lo <= mid <= hi <= |road| == |next|
    ensures Sweep(road, vmax, slow, lo, hi, next)
         == Sweep(road, vmax, slow, mid, hi, Sweep(road, vmax, slow, lo, mid, next))
    decreases mid - lo
  {
    if lo < mid {
      SweepSplit(road, vmax, slow, lo + 1, mid, hi, Place(next, road, vmax, slow, lo));
    }
  }

  /** A sweep writes only to cells that one of its cars arrives at. */
  lemma {:induction false} SweepFrame(road: seq<int>, vmax: nat, slow: Oracle, lo: nat, hi: nat, next: seq<int>)
    requires lo <= hi <= |road| == |next|
    ensures forall p: nat :: p < |road| && !Arrives(road, vmax, slow, lo, hi, p) ==>
              Sweep(road, vmax, slow, lo, hi, next)[p] == next[p]
    decreases hi - lo
  {
    if lo < hi {
      var next' := Place(next, road, vmax, slow, lo);
      SweepFrame(road, vmax, slow, lo + 1, hi, next');
      forall p: nat | p < |road| && !Arrives(road, vmax, slow, lo, hi, p)
        ensures Sweep(road, vmax, slow, lo, hi, next)[p] == next[p]
      {
        if road[lo] != EMPTY {
          assert CarMove(road, lo, vmax, slow).dest != p;
        }
      }
    }
  }

  /** No car after cell i in lo..hi-1 shares the destination of the car in cell i. */
  lemma NoLaterArrival(road: seq<int>, vmax: nat, slow: Oracle, i: nat, hi: nat)
    requires i < hi <= |road| && road[i] != EMPTY && ValidRoad(road, vmax)
    ensures !Arrives(road, vmax, slow, i + 1, hi, CarMove(road, i, vmax, slow).dest)
  {
    forall j: nat {:trigger CarMove(road, j, vmax, slow)} | i + 1 <= j < hi && road[j] != EMPTY
      ensures CarMove(road, j, vmax, slow).dest != CarMove(road, i, vmax, slow).dest
    {
      DistinctDestinations(road, vmax, slow, i, j);
    }
  }

  /** The car in cell i of lo..hi-1 ends up at its destination with its new velocity. */
  lemma CarLands(road: seq<int>, vmax: nat, slow: Oracle, lo: nat, hi: nat, next: seq<int>, i: nat)
    requires lo <= i < hi <= |road| == |next|
    requires ValidRoad(road, vmax) && road[i] != EMPTY
    ensures Sweep(road, vmax, slow, lo, hi, next)[CarMove(road, i, vmax, slow).dest] == CarMove(road, i, vmax, slow).vel
  {
    var m := CarMove(road, i, vmax, slow);
    SweepSplit(road, vmax, slow, lo, i, hi, next);
    var x := Sweep(road, vmax, slow, lo, i, next);
    var y := Place(x, road, vmax, slow, i);
    assert Sweep(road, vmax, slow, i, hi, x) == Sweep(road, vmax, slow, i + 1, hi, y);
    NoLaterArrival(road, vmax, slow, i, hi);
    SweepFrame(road, vmax, slow, i + 1, hi, y);
    assert y[m.dest] == m.vel;
  }

  /**
   * What a sweep leaves in each cell: the velocity of the car that arrives
   * there, or the previous content when no car of lo..hi-1 arrives.
   */
  lemma SweepArrivals(road: seq<int>, vmax: nat, slow: Oracle, lo: nat, hi: nat, next: seq<int>)
    requires lo <= hi <= |road| == |next|
    requires ValidRoad(road, vmax)
    ensures forall i: nat {:trigger CarMove(road, i, vmax, slow)} :: lo <= i < hi && road[i] != EMPTY ==>
              Sweep(road, vmax, slow, lo, hi, next)[CarMove(road, i, vmax, slow).dest]
                == CarMove(road, i, vmax, slow).vel
    ensures forall p: nat :: p < |road| && !Arrives(road, vmax, slow, lo, hi, p) ==>
              Sweep(road, vmax, slow, lo, hi, next)[p] == next[p]
  {
    forall i: nat {:trigger CarMove(road, i, vmax, slow)} | lo <= i < hi && road[i] != EMPTY
      ensures Sweep(road, vmax, slow, lo, hi, next)[CarMove(road, i, vmax, slow).dest]
                == CarMove(road, i, vmax, slow).vel
    {
      CarLands(road, vmax, slow, lo, hi, next, i);
    }
    SweepFrame(road, vmax, slow, lo, hi, next);
  }

  /** Every car of lo..hi-1 has a free destination in `next`. */
  predicate DestinationsFree(road: seq<int>, vmax: nat, slow: Oracle, lo: nat, hi: nat, next: seq<int>)
    requires hi <= |road| == |next|
  {
    forall i: nat {:trigger CarMove(road, i, vmax, slow)} ::
      lo <= i < hi && road[i] != EMPTY ==> next[CarMove(road, i, vmax, slow).dest] == EMPTY
  }

  /** Placing the car of cell lo into a free destination adds one car and keeps the later destinations free. */
  lemma PlaceCount(road: seq<int>, vmax: nat, slow: Oracle, lo: nat, hi: nat, next: seq<int>)
    requires lo < hi <= |road| == |next|
    requires ValidRoad(road, vmax)
    requires DestinationsFree(road, vmax, slow, lo, hi, next)
    ensures Count(Place(next, road, vmax, slow, lo)) == Count(next) + Occupied(road[lo])
    ensures DestinationsFree(road, vmax, slow, lo + 1, hi, Place(next, road, vmax, slow, lo))
  {
    if road[lo] != EMPTY {
      var m := CarMove(road, lo, vmax, slow);
      NoLaterArrival(road, vmax, slow, lo, hi);
      assert next[m.dest] == EMPTY && m.vel != EMPTY;
      CarsInUpdate(next, m.dest, m.vel, 0, |next|);
    }
  }

  /**
   * A sweep into cells that are free wherever its cars arrive adds exactly
   * one car per car swept.
   */
  lemma {:induction false} SweepCount(road: seq<int>, vmax: nat, slow: Oracle, lo: nat, hi: nat, next: seq<int>)
    requires lo <= hi <= |road| == |next|
    requires ValidRoad(road, vmax)
    requires DestinationsFree(road, vmax, slow, lo, hi, next)
    ensures Count(Sweep(road, vmax, slow, lo, hi, next)) == Count(next) + CarsIn(road, lo, hi)
    decreases hi - lo
  {
    if lo < hi {
      PlaceCount(road, vmax, slow, lo, hi, next);
      SweepCount(road, vmax, slow, lo + 1, hi, Place(next, road, vmax, slow, lo));
      SweepCountStep(road, vmax, slow, lo, hi, next);
    }
  }

  /** One more swept cell: the sweep continues from the placed car, and the cell adds its car to the count. */
  lemma SweepCountStep(road: seq<int>, vmax: nat, slow: Oracle, lo: nat, hi: nat, next: seq<int>)
    requires lo < hi <= |road| == |next|
    ensures Sweep(road, vmax, slow, lo, hi, next) == Sweep(road, vmax, slow, lo + 1, hi, Place(next, road, vmax, slow, lo))
    ensures CarsIn(road, lo, hi) == Occupied(road[lo]) + CarsIn(road, lo + 1, hi)
  {
  }

  /**
   * The next road, cell by cell: each car's new velocity sits at its
   * destination and every cell no car reaches is free.
   */
  lemma StepArrivals(road: seq<int>, vmax: nat, slow: Oracle)
    requires ValidRoad(road, vmax)
    ensures forall i: nat {:trigger CarMove(road, i, vmax, slow)} :: i < |road| && road[i] != EMPTY ==>
              Step(road, vmax, slow)[CarMove(road, i, vmax, slow).dest] == CarMove(road, i, vmax, slow).vel
    ensures forall p: nat :: p < |road| && !Arrives(road, vmax, slow, 0, |road|, p) ==>
              Step(road, vmax, slow)[p] == EMPTY
  {
    SweepArrivals(road, vmax, slow, 0, |road|, Blank(|road|));
  }

  /** Conservation: a step neither creates nor destroys cars. */
  lemma StepConservesCars(road: seq<int>, vmax: nat, slow: Oracle)
    requires ValidRoad(road, vmax)
    ensures Count(Step(road, vmax, slow)) == Count(road)
  {
    CarsInBlank(|road|, 0, |road|);
    SweepCount(road, vmax, slow, 0, |road|, Blank(|road|));
  }

  /** Bounded velocity: every car of the next road moves at a speed in [0, vmax]. */
  lemma StepKeepsValid(road: seq<int>, vmax: nat, slow: Oracle)
    requires ValidRoad(road, vmax)
    ensures ValidRoad(Step(road, vmax, slow), vmax)
  {
    var r := Step(road, vmax, slow);
    StepArrivals(road, vmax, slow);
    forall p: nat | p < |r|
      ensures r[p] == EMPTY || 0 <= r[p] <= vmax
    {
      if Arrives(road, vmax, slow, 0, |road|, p) {
        var i: nat :| i < |road| && road[i] != EMPTY && CarMove(road, i, vmax, slow).dest == p;
      }
    }
  }

  /** `sim_steps` iterations of the simulation loop; step t draws from `draws(t)`. */
  function Run(road: seq<int>, vmax: nat, draws: Draws, steps: nat): (r: seq<int>)
    ensures |r| == |road|
    decreases steps
  {
    if steps == 0 then road
    else Step(Run(road, vmax, draws, steps - 1), vmax, draws(steps - 1))
  }

  /** Over any number of steps the road keeps its length, its car count and bounded velocities. */
  lemma {:induction false} RunInvariants(road: seq<int>, vmax: nat, draws: Draws, steps: nat)
    requires ValidRoad(road, vmax)
    ensures ValidRoad(Run(road, vmax, draws, steps), vmax)
    ensures Count(Run(road, vmax, draws, steps)) == Count(road)
  {
    if steps > 0 {
      var prev := Run(road, vmax, draws, steps - 1);
      RunInvariants(road, vmax, draws, steps - 1);
      StepKeepsValid(prev, vmax, draws(steps - 1));
      StepConservesCars(prev, vmax, draws(steps - 1));
    }
  }
}
