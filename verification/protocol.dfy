/**
 * The messages of the networked simulator, with serialization abstracted
 * away: each variant stands for the Python dict that is pickled into a frame.
 */
module Protocol {
  import opened Road
  import opened Partition

  /** What a peer is told once, right after it connects. */
  datatype Config = Config(id: nat, start: nat, end: nat, simSteps: nat, vmax: nat, pSlowdown: real)

  datatype Payload =
    | ConfigMsg(config: Config)           // {'id': .., 'start_index': .., 'end_index': .., 'sim_steps': .., ...}
    | RoadMsg(road: seq<int>)             // {'road': road}
    | TerminateMsg                        // {'status': 'TERMINAR'}
    | UpdateMsg(updates: map<nat, int>)   // the partial results: destination -> new velocity

  /** The configuration the coordinator sends to peer k of n for a road of `len` cells. */
  function ConfigFor(k: nat, n: nat, len: nat, steps: nat): (c: Config)
    requires 1 <= n && k < n
    ensures c.id == k && Segment(c.start, c.end) == SegmentOf(k, n, len)
    ensures c.simSteps == steps && c.vmax == V_MAX && c.pSlowdown == P_SLOWDOWN
  {
    var seg := SegmentOf(k, n, len);
    Config(k, seg.start, seg.end, steps, V_MAX, P_SLOWDOWN)
  }

  /** Cell i lies in the range [start_index, end_index) that configuration c hands to its peer. */
  predicate Assigned(c: Config, i: nat)
  {
    c.start <= i < c.end
  }

  /** Some peer among the n is handed cell i. */
  predicate Covered(n: nat, len: nat, steps: nat, i: nat)
    requires 1 <= n
  {
    exists k: nat :: k < n && Assigned(ConfigFor(k, n, len, steps), i)
  }

  /**
   * The ranges the coordinator hands to its n peers cover the road exactly
   * once: every cell is assigned to some peer, and to one peer only.
   */
  lemma ConfigsCover(n: nat, len: nat, steps: nat)
    requires 1 <= n
    ensures forall i: nat :: i < len ==> Covered(n, len, steps, i)
    ensures forall i: nat, k1: nat, k2: nat ::
              k1 < n && k2 < n && Assigned(ConfigFor(k1, n, len, steps), i) && Assigned(ConfigFor(k2, n, len, steps), i)
              ==> k1 == k2
    ensures ConfigFor(0, n, len, steps).start == 0 && ConfigFor(n - 1, n, len, steps).end == len
  {
    forall i: nat | i < len
      ensures Covered(n, len, steps, i)
    {
      var k := Owner(i, n, len);
      assert Assigned(ConfigFor(k, n, len, steps), i);
    }
    forall i: nat, k1: nat, k2: nat |
      k1 < n && k2 < n && Assigned(ConfigFor(k1, n, len, steps), i) && Assigned(ConfigFor(k2, n, len, steps), i)
      ensures k1 == k2
    {
      OwnerUnique(i, n, len, k1, k2);
    }
  }
}
