/**
 * The coordinator of the networked simulator (`handle_worker_full_loop`):
 * per connection it sends the configuration, then per step the road and a
 * receive of the peer's partial result, then the termination signal. The
 * partial results of a step are gathered into one dict under a lock and
 * merged into an all-free next road that overwrites the shared road.
 */
module Master {
  import opened Wrappers
  import opened Road
  import opened Rules
  import opened Sequential
  import opened Partition
  import opened Protocol
  import opened Worker

  /**
   * `worker_results_segments.update(partial)` for each partial result, in the
   * order the connection handlers reached the lock.
   */
  function Aggregate(parts: seq<map<nat, int>>): (agg: map<nat, int>)
    decreases |parts|
  {
    if |parts| == 0 then map[] else Aggregate(parts[..|parts| - 1]) + parts[|parts| - 1]
  }

  /** Some part holds key p. */
  predicate Held(parts: seq<map<nat, int>>, p: nat)
  {
    exists t :: 0 <= t < |parts| && p in parts[t]
  }

  /** The aggregate keeps every key of every part and invents none. */
  lemma {:induction false} AggregateKeys(parts: seq<map<nat, int>>)
    ensures forall p :: p in Aggregate(parts) <==> Held(parts, p)
    decreases |parts|
  {
    if |parts| > 0 {
      var init := parts[..|parts| - 1];
      AggregateKeys(init);
      forall p | Held(parts, p) && p !in parts[|parts| - 1]
        ensures Held(init, p)
      {
        var t :| 0 <= t < |parts| && p in parts[t];
        assert init[t] == parts[t];
      }
      forall p | Held(init, p)
        ensures Held(parts, p)
      {
        var t :| 0 <= t < |init| && p in init[t];
        assert init[t] == parts[t];
      }
    }
  }

  /** A key held by several parts takes the value of the latest part that holds it. */
  lemma {:induction false} AggregateLatestWins(parts: seq<map<nat, int>>, p: nat, t: nat)
    requires t < |parts| && p in parts[t]
    requires forall u :: t < u < |parts| ==> p !in parts[u]
    ensures p in Aggregate(parts) && Aggregate(parts)[p] == parts[t][p]
    decreases |parts|
  {
    var init := parts[..|parts| - 1];
    if t < |parts| - 1 {
      assert p !in parts[|parts| - 1];
      assert init[t] == parts[t];
      AggregateLatestWins(init, p, t);
    }
  }

  /** Each aggregated value is the value of some part holding the key. */
  lemma {:induction false} AggregateSource(parts: seq<map<nat, int>>, p: nat)
    requires p in Aggregate(parts)
    ensures exists t :: 0 <= t < |parts| && p in parts[t] && Aggregate(parts)[p] == parts[t][p]
    decreases |parts|
  {
    var init := parts[..|parts| - 1];
    if p !in parts[|parts| - 1] {
      AggregateSource(init, p);
      var t :| 0 <= t < |init| && p in init[t] && Aggregate(init)[p] == init[t][p];
      assert parts[t] == init[t];
    }
  }

  /** The next road the aggregate describes: a velocity at each key, free everywhere else. */
  function Merged(agg: map<nat, int>, len: nat): (next: seq<int>)
  {
    seq(len, p => if p in agg then agg[p] else EMPTY)
  }

  /** The keys of `agg` among the cells lo..hi-1. */
  function KeysIn(agg: map<nat, int>, lo: nat, hi: nat): (ks: set<nat>)
    ensures forall p :: p in ks <==> p in agg && lo <= p < hi
  {
    set p | p in agg && lo <= p < hi
  }

  /** Among the cells lo..hi-1 the merged road holds one car per aggregated key there. */
  lemma {:induction false} MergedCarsIn(agg: map<nat, int>, len: nat, lo: nat, hi: nat)
    requires lo <= hi <= len
    requires forall p :: p in agg ==> agg[p] != EMPTY
    ensures CarsIn(Merged(agg, len), lo, hi) == |KeysIn(agg, lo, hi)|
    decreases hi - lo
  {
    if lo < hi {
      MergedCarsIn(agg, len, lo + 1, hi);
      if lo in agg {
        assert KeysIn(agg, lo, hi) == KeysIn(agg, lo + 1, hi) + {lo};
      } else {
        assert KeysIn(agg, lo, hi) == KeysIn(agg, lo + 1, hi);
      }
    } else {
      assert KeysIn(agg, lo, hi) == {};
    }
  }

  /**
   * The merge loop: an all-free buffer of the road's length, then
   * `next_road[pos] = vel` for every aggregated entry. A key past the end of
   * the road raises IndexError, which ends the handler (None here).
   */
  method MergeInto(agg: map<nat, int>, len: nat) returns (next: Option<seq<int>>)
    ensures next.None? <==> exists p :: p in agg && len <= p
    ensures next.Some? ==> |next.value| == len
    ensures next.Some? ==> forall p :: p in agg ==> next.value[p] == agg[p]
    ensures next.Some? ==> forall p :: 0 <= p < len && p !in agg ==> next.value[p] == EMPTY
    ensures next.Some? ==> next.value == Merged(agg, len)
  {
    var buf := Blank(len);
    var todo := agg.Keys;
    while todo != {}
      invariant todo <= agg.Keys && |buf| == len
      invariant forall p :: p in agg && p !in todo ==> p < len
      invariant forall p :: 0 <= p < len ==> buf[p] == (if p in agg && p !in todo then agg[p] else EMPTY)
      decreases todo
    {
      var p :| p in todo;
      if len <= p {
        return None;
      }
      buf := buf[p := agg[p]];
      todo := todo - {p};
    }
    return Some(buf);
  }

  /** State shared by the connection handlers: the road and the aggregate of the step in flight. */
  datatype Shared = Shared(road: seq<int>, pending: map<nat, int>)

  /** Worker 0's commit: the merged road overwrites the shared road and the aggregate is reset. */
  function Commit(s: Shared): (r: Shared)
    ensures |r.road| == |s.road| && r.pending == map[]
    ensures forall p :: 0 <= p < |s.road| ==> r.road[p] == (if p in s.pending then s.pending[p] else EMPTY)
  {
    Shared(Merged(s.pending, |s.road|), map[])
  }

  /**
   * The committed road holds exactly one car per aggregated destination,
   * when every destination lies on the road and carries a velocity.
   */
  lemma CommitCount(s: Shared)
    requires forall p :: p in s.pending ==> p < |s.road| && s.pending[p] != EMPTY
    ensures Count(Commit(s).road) == |s.pending.Keys|
  {
    MergedCarsIn(s.pending, |s.road|, 0, |s.road|);
    assert KeysIn(s.pending, 0, |s.road|) == s.pending.Keys;
  }

  /** Every entry of `order` names one of the n peers, and every peer replies in the step. */
  predicate ArrivalOrder(order: seq<nat>, n: nat)
  {
    && (forall t :: 0 <= t < |order| ==> order[t] < n)
    && (forall k :: 0 <= k < n ==> k in order)
  }

  /** The partial results of one step, listed in the order the handlers delivered them. */
  function Replies(road: seq<int>, n: nat, order: seq<nat>, vmax: nat, slow: Oracle): (parts: seq<map<nat, int>>)
    requires 1 <= n && forall t :: 0 <= t < |order| ==> order[t] < n
    ensures |parts| == |order|
  {
    seq(|order|, t requires 0 <= t < |order| =>
      SegmentMoves(road, SegmentOf(order[t], n, |road|).start, SegmentOf(order[t], n, |road|).end, vmax, slow))
  }

  /**
   * One step of the networked simulator: every peer evaluates its segment of
   * the broadcast road, the partial results are aggregated in arrival order
   * and worker 0 commits them.
   */
  function DistributedStep(road: seq<int>, n: nat, order: seq<nat>, vmax: nat, slow: Oracle): (r: Shared)
    requires 1 <= n && forall t :: 0 <= t < |order| ==> order[t] < n
    ensures |r.road| == |road| && r.pending == map[]
  {
    Commit(Shared(road, Aggregate(Replies(road, n, order, vmax, slow))))
  }

  /** Every key the peers report lies on the road: the aggregate of a step has no key past its end. */
  lemma AggregateInRange(road: seq<int>, n: nat, order: seq<nat>, vmax: nat, slow: Oracle)
    requires 1 <= n && forall t :: 0 <= t < |order| ==> order[t] < n
    ensures forall p :: p in Aggregate(Replies(road, n, order, vmax, slow)) ==> p < |road|
  {
    var parts := Replies(road, n, order, vmax, slow);
    AggregateKeys(parts);
    forall p | p in Aggregate(parts)
      ensures p < |road|
    {
      var t :| 0 <= t < |parts| && p in parts[t];
    }
  }

  /**
   * Worker 0's merge loop over the aggregate of a step never hits the
   * IndexError: it succeeds and yields the committed road.
   */
  method MergeStep(road: seq<int>, n: nat, order: seq<nat>, vmax: nat, slow: Oracle) returns (next: seq<int>)
    requires 1 <= n && forall t :: 0 <= t < |order| ==> order[t] < n
    ensures next == DistributedStep(road, n, order, vmax, slow).road
  {
    var agg := Aggregate(Replies(road, n, order, vmax, slow));
    AggregateInRange(road, n, order, vmax, slow);
    var merged := MergeInto(agg, |road|);
    next := merged.value;
  }

  /** The entries of the partial result at position t of the arrival order. */
  lemma ReplyEntries(road: seq<int>, n: nat, order: seq<nat>, vmax: nat, slow: Oracle, t: nat)
    requires 1 <= n && (forall u :: 0 <= u < |order| ==> order[u] < n) && t < |order|
    requires ValidRoad(road, vmax)
    ensures var seg := SegmentOf(order[t], n, |road|);
            var part := Replies(road, n, order, vmax, slow)[t];
            && (forall p: nat :: p in part ==> Arrives(road, vmax, slow, seg.start, seg.end, p))
            && (forall i: nat {:trigger CarMove(road, i, vmax, slow)} :: seg.start <= i < seg.end && road[i] != EMPTY ==>
                  var mv := CarMove(road, i, vmax, slow);
                  mv.dest in part && part[mv.dest] == mv.vel)
  {
    var seg := SegmentOf(order[t], n, |road|);
    SegmentMovesSpec(road, seg.start, seg.end, vmax, slow);
  }

  /**
   * The value any part holds for a key is the new velocity of the one car
   * arriving there, so parts never disagree and arrival order is irrelevant.
   */
  lemma ReplyValue(road: seq<int>, n: nat, order: seq<nat>, vmax: nat, slow: Oracle, t: nat, i: nat)
    requires 1 <= n && (forall u :: 0 <= u < |order| ==> order[u] < n) && t < |order|
    requires ValidRoad(road, vmax) && i < |road| && road[i] != EMPTY
    ensures var part := Replies(road, n, order, vmax, slow)[t];
            var mv := CarMove(road, i, vmax, slow);
            mv.dest in part ==> part[mv.dest] == mv.vel
  {
    var seg := SegmentOf(order[t], n, |road|);
    var p := CarMove(road, i, vmax, slow).dest;
    if p in Replies(road, n, order, vmax, slow)[t] {
      ReplyEntries(road, n, order, vmax, slow, t);
      var j: nat :| seg.start <= j < seg.end && road[j] != EMPTY && CarMove(road, j, vmax, slow).dest == p;
      if j != i {
        DistinctDestinations(road, vmax, slow, i, j);
      }
    }
  }

  /** The peer owning a car's cell reports that car's destination, so some reply holds it. */
  lemma DestinationReplied(road: seq<int>, n: nat, order: seq<nat>, vmax: nat, slow: Oracle, i: nat)
    requires 1 <= n && ArrivalOrder(order, n)
    requires ValidRoad(road, vmax) && i < |road| && road[i] != EMPTY
    ensures Held(Replies(road, n, order, vmax, slow), CarMove(road, i, vmax, slow).dest)
  {
    var k := Owner(i, n, |road|);
    assert k in order;
    var t :| 0 <= t < |order| && order[t] == k;
    ReplyEntries(road, n, order, vmax, slow, t);
  }

  /** The destination of every car holds that car's new velocity after the commit. */
  lemma DistributedArrival(road: seq<int>, n: nat, order: seq<nat>, vmax: nat, slow: Oracle, i: nat)
    requires 1 <= n && ArrivalOrder(order, n)
    requires ValidRoad(road, vmax) && i < |road| && road[i] != EMPTY
    ensures DistributedStep(road, n, order, vmax, slow).road[CarMove(road, i, vmax, slow).dest]
         == CarMove(road, i, vmax, slow).vel
  {
    var parts := Replies(road, n, order, vmax, slow);
    var agg := Aggregate(parts);
    var p := CarMove(road, i, vmax, slow).dest;
    DestinationReplied(road, n, order, vmax, slow, i);
    AggregateKeys(parts);
    AggregateSource(parts, p);
    var t' :| 0 <= t' < |parts| && p in parts[t'] && agg[p] == parts[t'][p];
    ReplyValue(road, n, order, vmax, slow, t', i);
  }

  /** A cell no car arrives at is free after the commit. */
  lemma DistributedVacancy(road: seq<int>, n: nat, order: seq<nat>, vmax: nat, slow: Oracle, p: nat)
    requires 1 <= n && ArrivalOrder(order, n)
    requires ValidRoad(road, vmax) && p < |road| && !Arrives(road, vmax, slow, 0, |road|, p)
    ensures DistributedStep(road, n, order, vmax, slow).road[p] == EMPTY
  {
    var parts := Replies(road, n, order, vmax, slow);
    forall t | 0 <= t < |parts|
      ensures p !in parts[t]
    {
      ReplyEntries(road, n, order, vmax, slow, t);
    }
    AggregateKeys(parts);
  }

  /**
   * Central theorem of the networked variant: whatever the order in which the
   * peers' partial results reach the aggregate, the committed road is the
   * sequential step under the same draws.
   */
  lemma DistributedStepIsStep(road: seq<int>, n: nat, order: seq<nat>, vmax: nat, slow: Oracle)
    requires 1 <= n && ArrivalOrder(order, n)
    requires ValidRoad(road, vmax)
    ensures DistributedStep(road, n, order, vmax, slow).road == Step(road, vmax, slow)
  {
    var r := DistributedStep(road, n, order, vmax, slow).road;
    StepArrivals(road, vmax, slow);
    forall p: nat | p < |road|
      ensures r[p] == Step(road, vmax, slow)[p]
    {
      if Arrives(road, vmax, slow, 0, |road|, p) {
        var i: nat :| i < |road| && road[i] != EMPTY && CarMove(road, i, vmax, slow).dest == p;
        DistributedArrival(road, n, order, vmax, slow, i);
      } else {
        DistributedVacancy(road, n, order, vmax, slow, p);
      }
    }
  }

  /** `sim_steps` steps of the networked simulator; step t sees the arrival order `orders(t)`. */
  function DistributedRun(road: seq<int>, n: nat, orders: nat -> seq<nat>, vmax: nat, draws: Draws, steps: nat): (r: seq<int>)
    requires 1 <= n && forall t :: ArrivalOrder(orders(t), n)
    ensures |r| == |road|
    decreases steps
  {
    if steps == 0 then road
    else
      var prev := DistributedRun(road, n, orders, vmax, draws, steps - 1);
      DistributedStep(prev, n, orders(steps - 1), vmax, draws(steps - 1)).road
  }

  /** After `steps` steps the networked and the sequential simulator hold the same road. */
  predicate RunsAgree(road: seq<int>, n: nat, orders: nat -> seq<nat>, vmax: nat, draws: Draws, steps: nat)
    requires 1 <= n && forall t :: ArrivalOrder(orders(t), n)
  {
    DistributedRun(road, n, orders, vmax, draws, steps) == Run(road, vmax, draws, steps)
  }

  /** Every road the coordinator broadcasts is the sequential road after as many steps. */
  lemma DistributedRunIsRun(road: seq<int>, n: nat, orders: nat -> seq<nat>, vmax: nat, draws: Draws, steps: nat)
    requires 1 <= n && forall t :: ArrivalOrder(orders(t), n)
    requires ValidRoad(road, vmax)
    ensures DistributedRun(road, n, orders, vmax, draws, steps) == Run(road, vmax, draws, steps)
  {
    RunsAgreeAlways(road, n, orders, vmax, draws, steps);
  }

  /** The induction behind DistributedRunIsRun, one step at a time. */
  lemma RunsAgreeAlways(road: seq<int>, n: nat, orders: nat -> seq<nat>, vmax: nat, draws: Draws, steps: nat)
    requires 1 <= n && forall t :: ArrivalOrder(orders(t), n)
    requires ValidRoad(road, vmax)
    ensures RunsAgree(road, n, orders, vmax, draws, steps)
  {
    var k := 0;
    while k < steps
      invariant k <= steps && RunsAgree(road, n, orders, vmax, draws, k)
    {
      RunsAdvanceTogether(road, n, orders, vmax, draws, k + 1);
      k := k + 1;
    }
  }

  /** Once both runs agree after steps - 1 steps from a valid road, their next steps agree as well. */
  lemma RunsAdvanceTogether(road: seq<int>, n: nat, orders: nat -> seq<nat>, vmax: nat, draws: Draws, steps: nat)
    requires 1 <= n && forall t :: ArrivalOrder(orders(t), n)
    requires 1 <= steps && ValidRoad(road, vmax)
    requires RunsAgree(road, n, orders, vmax, draws, steps - 1)
    ensures RunsAgree(road, n, orders, vmax, draws, steps)
  {
    NextStepsAgree(road, n, orders, vmax, draws, steps);
  }

  /** From the road the sequential run reaches after steps - 1 steps, both simulators take the same next step. */
  lemma NextStepsAgree(road: seq<int>, n: nat, orders: nat -> seq<nat>, vmax: nat, draws: Draws, steps: nat)
    requires 1 <= n && forall t :: ArrivalOrder(orders(t), n)
    requires 1 <= steps && ValidRoad(road, vmax) && ArrivalOrder(orders(steps - 1), n)
    ensures var prev := Run(road, vmax, draws, steps - 1);
            DistributedStep(prev, n, orders(steps - 1), vmax, draws(steps - 1)).road == Step(prev, vmax, draws(steps - 1))
  {
    RunInvariants(road, vmax, draws, steps - 1);
    DistributedStepIsStep(Run(road, vmax, draws, steps - 1), n, orders(steps - 1), vmax, draws(steps - 1));
  }

  /** What the receive of one round yielded on a connection. */
  datatype Reply =
    | Delivered(updates: map<nat, int>)   // a partial result
    | Lost                                // `recv_msg` returned None: the peer closed or the frame failed
    | Fault                               // an exception raised while handling the round

  /** One action of a connection handler on its socket. */
  datatype Event = SendConfig(config: Config) | SendRoad(road: seq<int>) | Receive | SendTerminate | Close

  /** The first round from t on whose receive did not deliver, or `steps` when all of them did. */
  function Completed(t: nat, steps: nat, reply: nat -> Reply): (r: nat)
    ensures t <= r && (t <= steps ==> r <= steps)
    ensures forall u :: t <= u < r ==> reply(u).Delivered?
    ensures r < steps ==> !reply(r).Delivered?
    decreases steps - t
  {
    if t >= steps || !reply(t).Delivered? then t else Completed(t + 1, steps, reply)
  }

  /** The road sends and receives of rounds t..r-1, two events per round. */
  function Exchanges(t: nat, r: nat, roads: nat -> seq<int>): (e: seq<Event>)
    ensures t <= r ==> |e| == 2 * (r - t)
    ensures forall j :: 0 <= j < r - t ==> e[2 * j] == SendRoad(roads(t + j)) && e[2 * j + 1] == Receive
    ensures forall x :: x in e ==> x.SendRoad? || x.Receive?
    decreases r - t
  {
    if t >= r then []
    else
      var rest := Exchanges(t + 1, r, roads);
      var e := [SendRoad(roads(t)), Receive] + rest;
      assert forall j :: 0 <= j < r - t ==> e[2 * j] == SendRoad(roads(t + j)) && e[2 * j + 1] == Receive by {
        forall j | 1 <= j < r - t
          ensures e[2 * j] == SendRoad(roads(t + j)) && e[2 * j + 1] == Receive
        {
          var i := j - 1;
          assert e[2 * j] == rest[2 * i] && e[2 * j + 1] == rest[2 * i + 1];
        }
      }
      e
  }

  /**
   * How a handler's step loop ends at round r: after all steps, or after a
   * None receive, it still sends the termination signal; after an exception
   * it does not. The connection is closed in every case.
   */
  function Ending(r: nat, steps: nat, roads: nat -> seq<int>, reply: nat -> Reply): (tr: seq<Event>)
  {
    if r >= steps then [SendTerminate, Close]
    else [SendRoad(roads(r)), Receive] + (if reply(r).Lost? then [SendTerminate, Close] else [Close])
  }

  /** The handler's step loop from round t on, followed by the termination signal and the close. */
  function RoundsFrom(t: nat, steps: nat, roads: nat -> seq<int>, reply: nat -> Reply): (tr: seq<Event>)
    decreases steps - t
  {
    if t >= steps then [SendTerminate, Close]
    else
      [SendRoad(roads(t)), Receive] +
      match reply(t)
      case Delivered(_) => RoundsFrom(t + 1, steps, roads, reply)
      case Lost => [SendTerminate, Close]
      case Fault => [Close]
  }

  /**
   * Everything `handle_worker_full_loop` does on the socket of peer k: the
   * configuration, the step loop, the termination signal and the close.
   */
  function ConnectionTrace(k: nat, n: nat, len: nat, steps: nat, roads: nat -> seq<int>, reply: nat -> Reply): (tr: seq<Event>)
    requires 1 <= n && k < n
  {
    [SendConfig(ConfigFor(k, n, len, steps))] + RoundsFrom(0, steps, roads, reply)
  }

  lemma {:induction false} RoundsShape(t: nat, steps: nat, roads: nat -> seq<int>, reply: nat -> Reply)
    requires t <= steps
    ensures RoundsFrom(t, steps, roads, reply)
         == Exchanges(t, Completed(t, steps, reply), roads) + Ending(Completed(t, steps, reply), steps, roads, reply)
    decreases steps - t
  {
    if t == steps || !reply(t).Delivered? {
      RoundsEnd(t, steps, roads, reply);
    } else {
      RoundsShape(t + 1, steps, roads, reply);
      RoundsStep(t, steps, roads, reply);
    }
  }

  /** The round that does not deliver is followed by the ending alone. */
  lemma RoundsEnd(t: nat, steps: nat, roads: nat -> seq<int>, reply: nat -> Reply)
    requires t == steps || (t < steps && !reply(t).Delivered?)
    ensures Completed(t, steps, reply) == t
    ensures RoundsFrom(t, steps, roads, reply) == Exchanges(t, t, roads) + Ending(t, steps, roads, reply)
  {
    assert Exchanges(t, t, roads) == [];
  }

  /** A delivered round contributes its two events in front of the later rounds. */
  lemma RoundsStep(t: nat, steps: nat, roads: nat -> seq<int>, reply: nat -> Reply)
    requires t < steps && reply(t).Delivered?
    requires RoundsFrom(t + 1, steps, roads, reply)
          == Exchanges(t + 1, Completed(t + 1, steps, reply), roads) + Ending(Completed(t + 1, steps, reply), steps, roads, reply)
    ensures RoundsFrom(t, steps, roads, reply)
         == Exchanges(t, Completed(t, steps, reply), roads) + Ending(Completed(t, steps, reply), steps, roads, reply)
  {
    var r := Completed(t, steps, reply);
    assert r == Completed(t + 1, steps, reply);
    RoundsFromDelivered(t, steps, roads, reply);
    ExchangesCons(t, r, roads);
    AppendAssoc([SendRoad(roads(t)), Receive], Exchanges(t + 1, r, roads), Ending(r, steps, roads, reply));
  }

  /** A delivered round sends the road and receives, then the loop goes on with the next round. */
  lemma RoundsFromDelivered(t: nat, steps: nat, roads: nat -> seq<int>, reply: nat -> Reply)
    requires t < steps && reply(t).Delivered?
    ensures RoundsFrom(t, steps, roads, reply) == [SendRoad(roads(t)), Receive] + RoundsFrom(t + 1, steps, roads, reply)
  {
  }

  /** The exchanges of rounds t..r-1 are round t's two events followed by those of rounds t+1..r-1. */
  lemma ExchangesCons(t: nat, r: nat, roads: nat -> seq<int>)
    requires t < r
    ensures Exchanges(t, r, roads) == [SendRoad(roads(t)), Receive] + Exchanges(t + 1, r, roads)
  {
  }

  lemma AppendAssoc(a: seq<Event>, b: seq<Event>, c: seq<Event>)
    ensures a + (b + c) == a + b + c
  {
  }

  /** The ending closes the connection exactly once, as its last event. */
  lemma EndingShape(r: nat, steps: nat, roads: nat -> seq<int>, reply: nat -> Reply)
    ensures var en := Ending(r, steps, roads, reply);
            && 2 <= |en| && en[|en| - 1] == Close
            && (forall u :: 0 <= u < |en| - 1 ==> en[u] != Close)
            && (SendTerminate in en <==> r >= steps || reply(r).Lost?)
  {
  }

  /** A prefix free of closes and termination signals leaves both to the ending. */
  lemma AppendEnding(head: seq<Event>, en: seq<Event>)
    requires forall x :: x in head ==> !x.Close? && !x.SendTerminate?
    requires 1 <= |en| && en[|en| - 1] == Close && forall u :: 0 <= u < |en| - 1 ==> en[u] != Close
    ensures var tr := head + en;
            && tr[|tr| - 1] == Close
            && (forall u :: 0 <= u < |tr| - 1 ==> tr[u] != Close)
            && (SendTerminate in tr <==> SendTerminate in en)
  {
    var tr := head + en;
    forall u | 0 <= u < |tr| - 1
      ensures tr[u] != Close
    {
      if u < |head| {
        assert tr[u] == head[u] && head[u] in head;
      } else {
        assert tr[u] == en[u - |head|];
      }
    }
    forall u | 0 <= u < |head|
      ensures tr[u] != SendTerminate
    {
      assert tr[u] == head[u] && head[u] in head;
    }
    if SendTerminate in tr {
      var u :| 0 <= u < |tr| && tr[u] == SendTerminate;
      assert |head| <= u;
      assert en[u - |head|] == SendTerminate;
    }
  }

  /**
   * The shape of a connection's trace: configuration (carrying the peer's
   * segment), one road send and one receive per round until the first round
   * that did not deliver, then the ending; the close comes last and only
   * once, and the termination signal is sent unless an exception ended the
   * loop.
   */
  lemma ConnectionTraceShape(k: nat, n: nat, len: nat, steps: nat, roads: nat -> seq<int>, reply: nat -> Reply)
    requires 1 <= n && k < n
    ensures var r := Completed(0, steps, reply);
            var tr := ConnectionTrace(k, n, len, steps, roads, reply);
            && tr == [SendConfig(ConfigFor(k, n, len, steps))] + Exchanges(0, r, roads) + Ending(r, steps, roads, reply)
            && tr[0].config.start == SegmentOf(k, n, len).start && tr[0].config.end == SegmentOf(k, n, len).end
            && tr[|tr| - 1] == Close
            && (forall u :: 0 <= u < |tr| - 1 ==> tr[u] != Close)
            && (r == steps ==> |tr| == 2 * steps + 3)
  {
    var r := Completed(0, steps, reply);
    TraceSplits(k, n, len, steps, roads, reply);
    QuietHead(ConfigFor(k, n, len, steps), Exchanges(0, r, roads));
    EndingShape(r, steps, roads, reply);
    AppendEnding([SendConfig(ConfigFor(k, n, len, steps))] + Exchanges(0, r, roads), Ending(r, steps, roads, reply));
  }

  /** A connection's trace is its configuration, the delivered rounds' exchanges and the ending. */
  lemma TraceSplits(k: nat, n: nat, len: nat, steps: nat, roads: nat -> seq<int>, reply: nat -> Reply)
    requires 1 <= n && k < n
    ensures var r := Completed(0, steps, reply);
            ConnectionTrace(k, n, len, steps, roads, reply)
              == [SendConfig(ConfigFor(k, n, len, steps))] + Exchanges(0, r, roads) + Ending(r, steps, roads, reply)
  {
    var r := Completed(0, steps, reply);
    RoundsShape(0, steps, roads, reply);
    var c := [SendConfig(ConfigFor(k, n, len, steps))];
    var ex := Exchanges(0, r, roads);
    var en := Ending(r, steps, roads, reply);
    assert c + (ex + en) == c + ex + en;
  }

  /**
   * The termination signal goes out exactly when every round delivered or
   * the first failing round was a None receive; an exception skips it.
   */
  lemma TerminationSignal(k: nat, n: nat, len: nat, steps: nat, roads: nat -> seq<int>, reply: nat -> Reply)
    requires 1 <= n && k < n
    ensures var r := Completed(0, steps, reply);
            SendTerminate in ConnectionTrace(k, n, len, steps, roads, reply) <==> r == steps || reply(r).Lost?
  {
    var r := Completed(0, steps, reply);
    TraceSplits(k, n, len, steps, roads, reply);
    QuietHead(ConfigFor(k, n, len, steps), Exchanges(0, r, roads));
    EndingShape(r, steps, roads, reply);
    AppendEnding([SendConfig(ConfigFor(k, n, len, steps))] + Exchanges(0, r, roads), Ending(r, steps, roads, reply));
  }

  lemma QuietHead(c: Config, ex: seq<Event>)
    requires forall x :: x in ex ==> x.SendRoad? || x.Receive?
    ensures forall x :: x in [SendConfig(c)] + ex ==> !x.Close? && !x.SendTerminate?
  {
  }
}
