/**
 * The circular road of the Nagel-Schreckenberg model, as all three simulators
 * store it: a sequence of ints in which EMPTY (-1) is a free cell and any other
 * value is a car moving at that velocity (cells per step).
 */
module Road {

  /** The value `np.full(road_length, -1)` puts in every free cell. */
  const EMPTY: int := -1

  /** Maximum velocity used by every simulator (`V_MAX`). */
  const V_MAX: nat := 5

  /** Slowdown probability (`P_SLOWDOWN`); only carried in the peer configuration, the draw is an oracle. */
  const P_SLOWDOWN: real := 0.3

  /** The outcomes of `random.random() < p_slowdown` for one step, indexed by the source cell of the car. */
  type Oracle = nat -> bool

  /** One oracle per simulation step (or per round a peer serves). */
  type Draws = nat -> Oracle

  function Min(a: int, b: int): (m: int)
    ensures m <= a && m <= b && (m == a || m == b)
  {
    if a <= b then a else b
  }

  function Max(a: int, b: int): (m: int)
    ensures a <= m && b <= m && (m == a || m == b)
  {
    if a <= b then b else a
  }

  /** Every cell is free or holds a car whose velocity is in [0, vmax]. */
  predicate ValidRoad(road: seq<int>, vmax: nat)
  {
    forall p :: 0 <= p < |road| ==> road[p] == EMPTY || 0 <= road[p] <= vmax
  }

  /** An all-free road of length n. */
  function Blank(n: nat): (r: seq<int>)
    ensures |r| == n
    ensures forall p :: 0 <= p < n ==> r[p] == EMPTY
  {
    seq(n, _ => EMPTY)
  }

  /** 1 for a car, 0 for a free cell. */
  function Occupied(x: int): (c: nat)
  {
    if x != EMPTY then 1 else 0
  }

  /** Number of cars among the cells lo..hi-1. */
  function CarsIn(road: seq<int>, lo: nat, hi: nat): (c: nat)
    requires lo <= hi <= |road|
    ensures c <= hi - lo
    decreases hi - lo
  {
    if lo == hi then 0 else Occupied(road[lo]) + CarsIn(road, lo + 1, hi)
  }

  /** Number of cars on the whole road. */
  function Count(road: seq<int>): (c: nat)
    ensures c <= |road|
  {
    CarsIn(road, 0, |road|)
  }

  lemma {:induction false} CarsInBlank(n: nat, lo: nat, hi: nat)
    requires lo <= hi <= n
    ensures CarsIn(Blank(n), lo, hi) == 0
    decreases hi - lo
  {
    if lo < hi {
      CarsInBlank(n, lo + 1, hi);
    }
  }

  /** Overwriting one cell changes the car count by what the cell held and what it now holds. */
  lemma {:induction false} CarsInUpdate(s: seq<int>, p: nat, x: int, lo: nat, hi: nat)
    requires lo <= hi <= |s| && p < |s|
    ensures lo <= p < hi ==>
              CarsIn(s[p := x], lo, hi) + Occupied(s[p]) == CarsIn(s, lo, hi) + Occupied(x)
    ensures !(lo <= p < hi) ==> CarsIn(s[p := x], lo, hi) == CarsIn(s, lo, hi)
    decreases hi - lo
  {
    if lo < hi {
      CarsInUpdate(s, p, x, lo + 1, hi);
    }
  }
}
