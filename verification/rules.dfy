/**
 * The per-car Nagel-Schreckenberg rule. The three simulators carry identical
 * copies of it: a gap scan with wrap-around cut off at vmax + 2, then
 * acceleration, collision avoidance, random slowdown and movement.
 */
module Rules {
  import opened Road

  /** Content of the cell k positions ahead of cell i, wrapping past the end of the road. */
  function Ahead(road: seq<int>, i: nat, k: nat): (x: int)
    requires |road| > 0
  {
    road[(i + k) % |road|]
  }

  /**
   * The scan loop entered with `distancia == d`: it stops at the first occupied
   * cell ahead, or once the distance exceeds vmax + 1.
   */
  function ScanFrom(road: seq<int>, i: nat, vmax: nat, d: nat): (r: nat)
    requires i < |road|
    requires 1 <= d <= vmax + 1
    ensures d <= r <= vmax + 2
    ensures forall k :: d <= k < r ==> Ahead(road, i, k) == EMPTY
    ensures r <= vmax + 1 ==> Ahead(road, i, r) != EMPTY
    decreases vmax + 1 - d
  {
    if Ahead(road, i, d) != EMPTY then d
    else if d + 1 > vmax + 1 then d + 1
    else ScanFrom(road, i, vmax, d + 1)
  }

  /**
   * The gap scan: the distance d from cell i to the next occupied cell, or
   * vmax + 2 when every cell up to vmax + 1 ahead is free. For a car the scan
   * never runs past a full lap, since the car's own cell ends it.
   */
  function Gap(road: seq<int>, i: nat, vmax: nat): (d: nat)
    requires i < |road|
    ensures 1 <= d <= vmax + 2
    ensures forall k :: 1 <= k < d ==> Ahead(road, i, k) == EMPTY
    ensures d <= vmax + 1 ==> Ahead(road, i, d) != EMPTY
    ensures road[i] != EMPTY ==> d <= |road|
  {
    var d := ScanFrom(road, i, vmax, 1);
    LapInvariant(|road|, i);
    ModUnique(i, |road|, 0, i);
    assert road[i] != EMPTY ==> Ahead(road, i, |road|) != EMPTY;
    d
  }

  /** Rule 1, acceleration: one more cell per step, never above vmax. */
  function Accelerate(v: int, vmax: nat): (w: int)
    ensures w <= vmax && w <= v + 1
    ensures w == vmax || w == v + 1
  {
    Min(v + 1, vmax)
  }

  /** Rule 2, collision avoidance: never more cells than are free ahead (gap - 1). */
  function Brake(v: int, gap: nat): (w: int)
    ensures w <= v && w <= gap - 1
    ensures w == v || w == gap - 1
  {
    Min(v, gap - 1)
  }

  /** Rule 3, randomization: a moving car loses exactly one unit when the draw says so. */
  function Randomize(v: int, slow: bool): (w: int)
    ensures v - 1 <= w <= v
    ensures w < v <==> v > 0 && slow
  {
    if v > 0 && slow then v - 1 else v
  }

  /** Where a car goes and how fast it travels after one step. */
  datatype Move = Move(dest: nat, vel: int)

  /**
   * Rules 1-4 for the car in cell i, with `slow(i)` standing for the random
   * draw (consulted only when the car would still move).
   */
  function CarMove(road: seq<int>, i: nat, vmax: nat, slow: Oracle): (m: Move)
    requires i < |road|
    ensures m.dest < |road| && m.dest == (i + m.vel) % |road|
    ensures m.vel <= vmax && m.vel <= road[i] + 1
    ensures m.vel < Gap(road, i, vmax)
    ensures 0 <= road[i] ==> 0 <= m.vel
  {
    var d := Gap(road, i, vmax);
    var v := Randomize(Brake(Accelerate(road[i], vmax), d), slow(i));
    Move((i + v) % |road|, v)
  }

  /** The draw of cell i matters only when the car would move after braking. */
  lemma DrawOnlyWhenMoving(road: seq<int>, i: nat, vmax: nat, slow1: Oracle, slow2: Oracle)
    requires i < |road|
    requires slow1(i) == slow2(i) || Brake(Accelerate(road[i], vmax), Gap(road, i, vmax)) <= 0
    ensures CarMove(road, i, vmax, slow1) == CarMove(road, i, vmax, slow2)
  {
  }

  /** Distance, in cells, from cell i forward to cell j on a road of length n. */
  function Offset(n: nat, i: nat, j: nat): (k: nat)
    requires i < n && j < n
    ensures k < n && (i + k) % n == j
    ensures k == 0 <==> i == j
  {
    if i <= j then j - i else j + n - i
  }

  /**
   * A car never reaches the cell of another car: its velocity is below the
   * distance to every other car ahead of it.
   */
  lemma NeverReachesCarAhead(road: seq<int>, vmax: nat, slow: Oracle, i: nat, j: nat)
    requires i < |road| && j < |road| && i != j
    requires road[j] != EMPTY
    ensures CarMove(road, i, vmax, slow).vel < Offset(|road|, i, j)
  {
    var k := Offset(|road|, i, j);
    assert Ahead(road, i, k) != EMPTY;
  }

  /** Multiples of n strictly between -n and n are zero. */
  lemma SmallMultiple(k: int, n: int)
    requires n > 0 && -n < k * n < n
    ensures k == 0
  {
  }

  /** The remainder is determined by any division of y into whole laps and a rest below n. */
  lemma {:induction false} ModUnique(y: int, n: nat, q: int, r: int)
    requires n > 0 && 0 <= r < n && y == q * n + r
    ensures y % n == r
  {
    var q' := y / n;
    assert y == q' * n + y % n;
    assert (q - q') * n == q * n - q' * n;
    SmallMultiple(q - q', n);
  }

  /** Two distinct offsets below n from the same cell land in distinct cells. */
  lemma {:induction false} DistinctOffsets(n: nat, x: nat, s: nat, t: nat)
    requires s < t < n
    ensures (x + s) % n != (x + t) % n
  {
    var q := (x + s) / n;
    var r := (x + s) % n;
    assert x + s == q * n + r;
    if r + (t - s) < n {
      ModUnique(x + t, n, q, r + (t - s));
    } else {
      assert x + t == (q + 1) * n + (r + (t - s) - n);
      ModUnique(x + t, n, q + 1, r + (t - s) - n);
    }
  }

  /** Shifting by a whole lap does not change the cell. */
  lemma {:induction false} LapInvariant(n: nat, y: nat)
    requires n > 0
    ensures (y + n) % n == y % n
  {
    var q := y / n;
    assert y == q * n + y % n;
    assert y + n == (q + 1) * n + y % n;
    ModUnique(y + n, n, q + 1, y % n);
  }

  /**
   * Collision freedom: two distinct cars never pick the same destination, for
   * every outcome of the draws.
   */
  lemma DistinctDestinations(road: seq<int>, vmax: nat, slow: Oracle, i: nat, j: nat)
    requires i < |road| && j < |road| && i != j
    requires 0 <= road[i] && 0 <= road[j]
    ensures CarMove(road, i, vmax, slow).dest != CarMove(road, j, vmax, slow).dest
  {
    var n := |road|;
    var mi := CarMove(road, i, vmax, slow);
    var mj := CarMove(road, j, vmax, slow);
    var a := Offset(n, i, j);
    var b := Offset(n, j, i);
    NeverReachesCarAhead(road, vmax, slow, i, j);
    NeverReachesCarAhead(road, vmax, slow, j, i);
    assert a + b == n;
    // j's destination, measured from i, is a + mj.vel cells ahead
    if i <= j {
      assert i + (a + mj.vel) == j + mj.vel;
    } else {
      assert i + (a + mj.vel) == (j + mj.vel) + n;
      LapInvariant(n, j + mj.vel);
    }
    assert mj.dest == (i + (a + mj.vel)) % n;
    DistinctOffsets(n, i, mi.vel, a + mj.vel);
  }
}
