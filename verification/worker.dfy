/**
 * The networked peer: `run_na_sch_rules` computes the partial result of one
 * segment, and the peer loop answers every road it receives with one.
 */
module Worker {
  import opened Wrappers
  import opened Road
  import opened Rules
  import opened Sequential
  import opened Protocol

  /** `partial_results[nova_posicao] = v_nova` for the car in cell i; a free cell records nothing. */
  function Record(acc: map<nat, int>, road: seq<int>, vmax: nat, slow: Oracle, i: nat): (m: map<nat, int>)
    requires i < |road|
  {
    if road[i] == EMPTY then acc
    else
      var m := CarMove(road, i, vmax, slow);
      acc[m.dest := m.vel]
  }

  /** The cells lo..hi-1 visited in increasing order, each recording its car's move. */
  function Collect(road: seq<int>, vmax: nat, slow: Oracle, lo: nat, hi: nat, acc: map<nat, int>): (m: map<nat, int>)
    requires lo <= hi <= |road|
    decreases hi - lo
  {
    if lo == hi then acc
    else Collect(road, vmax, slow, lo + 1, hi, Record(acc, road, vmax, slow, lo))
  }

  /** `run_na_sch_rules(road, start, end, v_max, p)`: the moves of the cars of [start, end), keyed by destination. */
  function SegmentMoves(road: seq<int>, start: nat, end: nat, vmax: nat, slow: Oracle): (m: map<nat, int>)
    requires start >= end || end <= |road|
    ensures forall p :: p in m ==> p < |road|
    ensures start >= end ==> m == map[]
  {
    if start >= end then map[]
    else
      CollectKeys(road, vmax, slow, start, end, map[]);
      Collect(road, vmax, slow, start, end, map[])
  }

  /** The keys a collection adds are exactly the destinations of its cars. */
  lemma {:induction false} CollectKeys(road: seq<int>, vmax: nat, slow: Oracle, lo: nat, hi: nat, acc: map<nat, int>)
    requires lo <= hi <= |road|
    ensures forall p: nat :: p in Collect(road, vmax, slow, lo, hi, acc) <==>
              p in acc || (p < |road| && Arrives(road, vmax, slow, lo, hi, p))
    decreases hi - lo
  {
    if lo < hi {
      var acc' := Record(acc, road, vmax, slow, lo);
      CollectKeys(road, vmax, slow, lo + 1, hi, acc');
      forall p: nat | p < |road| && Arrives(road, vmax, slow, lo, hi, p)
        ensures p in acc' || Arrives(road, vmax, slow, lo + 1, hi, p)
      {
        var i: nat :| lo <= i < hi && road[i] != EMPTY && CarMove(road, i, vmax, slow).dest == p;
        if i > lo {
          assert Arrives(road, vmax, slow, lo + 1, hi, p);
        }
      }
      if road[lo] != EMPTY {
        assert Arrives(road, vmax, slow, lo, hi, CarMove(road, lo, vmax, slow).dest);
      }
    }
  }

  /** Every car of lo..hi-1 has its new velocity recorded under its destination. */
  lemma {:induction false} CollectValues(road: seq<int>, vmax: nat, slow: Oracle, lo: nat, hi: nat, acc: map<nat, int>)
    requires lo <= hi <= |road|
    requires ValidRoad(road, vmax)
    ensures forall i: nat {:trigger CarMove(road, i, vmax, slow)} :: lo <= i < hi && road[i] != EMPTY ==>
              var mv := CarMove(road, i, vmax, slow);
              mv.dest in Collect(road, vmax, slow, lo, hi, acc) &&
              Collect(road, vmax, slow, lo, hi, acc)[mv.dest] == mv.vel
    decreases hi - lo
  {
    if lo < hi {
      var acc' := Record(acc, road, vmax, slow, lo);
      CollectValues(road, vmax, slow, lo + 1, hi, acc');
      if road[lo] != EMPTY {
        var mv := CarMove(road, lo, vmax, slow);
        forall i: nat {:trigger CarMove(road, i, vmax, slow)} | lo + 1 <= i < hi && road[i] != EMPTY
          ensures CarMove(road, i, vmax, slow).dest != mv.dest
        {
          DistinctDestinations(road, vmax, slow, lo, i);
        }
        CollectUntouched(road, vmax, slow, lo + 1, hi, acc', mv.dest);
      }
    }
  }

  /** A key no car of lo..hi-1 arrives at keeps its entry. */
  lemma {:induction false} CollectUntouched(road: seq<int>, vmax: nat, slow: Oracle, lo: nat, hi: nat, acc: map<nat, int>, p: nat)
    requires lo <= hi <= |road| && p in acc
    requires forall i: nat {:trigger CarMove(road, i, vmax, slow)} :: lo <= i < hi && road[i] != EMPTY ==> CarMove(road, i, vmax, slow).dest != p
    ensures p in Collect(road, vmax, slow, lo, hi, acc) && Collect(road, vmax, slow, lo, hi, acc)[p] == acc[p]
    decreases hi - lo
  {
    if lo < hi {
      CollectUntouched(road, vmax, slow, lo + 1, hi, Record(acc, road, vmax, slow, lo), p);
    }
  }

  /**
   * The partial result of a segment: a key for every destination of a car of
   * [start, end) and for nothing else, holding that car's new velocity as the
   * sequential rule computes it, always within [0, vmax].
   */
  lemma SegmentMovesSpec(road: seq<int>, start: nat, end: nat, vmax: nat, slow: Oracle)
    requires start >= end || end <= |road|
    requires ValidRoad(road, vmax)
    ensures forall p: nat :: p in SegmentMoves(road, start, end, vmax, slow) <==>
              p < |road| && start < end && Arrives(road, vmax, slow, start, end, p)
    ensures forall i: nat {:trigger CarMove(road, i, vmax, slow)} :: start <= i < end && road[i] != EMPTY ==>
              var mv := CarMove(road, i, vmax, slow);
              mv.dest in SegmentMoves(road, start, end, vmax, slow) &&
              SegmentMoves(road, start, end, vmax, slow)[mv.dest] == mv.vel
    ensures forall p :: p in SegmentMoves(road, start, end, vmax, slow) ==>
              0 <= SegmentMoves(road, start, end, vmax, slow)[p] <= vmax
  {
    if start < end {
      CollectKeys(road, vmax, slow, start, end, map[]);
      CollectValues(road, vmax, slow, start, end, map[]);
      var m := SegmentMoves(road, start, end, vmax, slow);
      forall p | p in m
        ensures 0 <= m[p] <= vmax
      {
        var i: nat :| start <= i < end && road[i] != EMPTY && CarMove(road, i, vmax, slow).dest == p;
      }
    }
  }

  /** The road of the single-car scenario: one car at cell 0 moving at 2 on a 10-cell road. */
  function ExampleRoad(): (r: seq<int>)
    ensures |r| == 10 && r[0] == 2
    ensures forall i :: 1 <= i < 10 ==> r[i] == EMPTY
  {
    [2] + Blank(9)
  }

  /** The gap scan of the single-car scenario stops at the cutoff vmax + 2 = 7, not at the car itself. */
  lemma ExampleGap()
    ensures Gap(ExampleRoad(), 0, V_MAX) == 7
  {
    var road := ExampleRoad();
    assert ScanFrom(road, 0, V_MAX, 6) == 7;
    assert ScanFrom(road, 0, V_MAX, 5) == 7;
    assert ScanFrom(road, 0, V_MAX, 4) == 7;
    assert ScanFrom(road, 0, V_MAX, 3) == 7;
    assert ScanFrom(road, 0, V_MAX, 2) == 7;
  }

  /**
   * The single-car scenario with no slowdown: the car accelerates to 3 and the
   * peer's partial result is {3: 3}.
   */
  lemma SingleCarExample()
    ensures SegmentMoves(ExampleRoad(), 0, 10, V_MAX, _ => false) == map[3 := 3]
  {
    var road := ExampleRoad();
    var slow: Oracle := _ => false;
    ExampleGap();
    assert CarMove(road, 0, V_MAX, slow) == Move(3, 3);
    assert ValidRoad(road, V_MAX);
    SegmentMovesSpec(road, 0, 10, V_MAX, slow);
    var m := SegmentMoves(road, 0, 10, V_MAX, slow);
    forall p: nat | p in m
      ensures p == 3
    {
      var i: nat :| 0 <= i < 10 && road[i] != EMPTY && CarMove(road, i, V_MAX, slow).dest == p;
      assert i == 0;
    }
    assert m.Keys == {3};
  }

  /** Why a peer stopped. */
  datatype ExitReason =
    | NoConfig       // the configuration receive yielded None
    | Disconnected   // a later receive yielded None
    | Terminated     // the termination signal arrived
    | Crashed        // an uncaught exception (missing key, index past the road)

  datatype PeerState = AwaitingConfig | Serving(config: Config, round: nat) | Finished(reason: ExitReason)

  /** The peer's state after one receive, and what it sends back, if anything. */
  datatype Reaction = Reaction(state: PeerState, sent: Option<Payload>)

  /**
   * One receive of the peer (`recv_msg` returns None on close or error). Round
   * t of the loop draws from `draws(t)`.
   */
  function OnReceive(s: PeerState, msg: Option<Payload>, draws: Draws): (r: Reaction)
    ensures s.Finished? ==> r == Reaction(s, None)
    ensures msg.None? ==> r.sent.None? && r.state.Finished?
    // awaiting the configuration
    ensures s.AwaitingConfig? && msg.None? ==> r == Reaction(Finished(NoConfig), None)
    ensures s.AwaitingConfig? && msg.Some? && msg.value.ConfigMsg? ==> r == Reaction(Serving(msg.value.config, 0), None)
    ensures s.AwaitingConfig? && msg.Some? && !msg.value.ConfigMsg? ==> r == Reaction(Finished(Crashed), None)
    // serving
    ensures s.Serving? && msg.None? ==> r == Reaction(Finished(Disconnected), None)
    ensures s.Serving? && msg == Some(TerminateMsg) ==> r == Reaction(Finished(Terminated), None)
    ensures s.Serving? && msg.Some? && (msg.value.ConfigMsg? || msg.value.UpdateMsg?) ==> r == Reaction(Finished(Crashed), None)
    ensures s.Serving? && msg.Some? && msg.value.RoadMsg? && s.config.start < s.config.end && |msg.value.road| < s.config.end ==>
              r == Reaction(Finished(Crashed), None)
    ensures s.Serving? && msg.Some? && msg.value.RoadMsg? && (s.config.start >= s.config.end || s.config.end <= |msg.value.road|) ==>
              r.sent.Some?
    ensures r.sent.Some? ==>
              s.Serving? && msg.Some? && msg.value.RoadMsg? &&
              r.state == Serving(s.config, s.round + 1) &&
              (s.config.start >= s.config.end || s.config.end <= |msg.value.road|) &&
              r.sent.value == UpdateMsg(SegmentMoves(msg.value.road, s.config.start, s.config.end,
                                                     s.config.vmax, draws(s.round)))
  {
    match s
    case Finished(_) => Reaction(s, None)
    case AwaitingConfig =>
      (match msg
       case None => Reaction(Finished(NoConfig), None)
       case Some(ConfigMsg(c)) => Reaction(Serving(c, 0), None)
       case Some(_) => Reaction(Finished(Crashed), None))
    case Serving(c, t) =>
      match msg
      case None => Reaction(Finished(Disconnected), None)
      case Some(TerminateMsg) => Reaction(Finished(Terminated), None)
      case Some(RoadMsg(road)) =>
        if c.start < c.end && |road| < c.end then Reaction(Finished(Crashed), None)
        else Reaction(Serving(c, t + 1), Some(UpdateMsg(SegmentMoves(road, c.start, c.end, c.vmax, draws(t)))))
      case Some(_) => Reaction(Finished(Crashed), None)
  }

  /** Where a peer ends up after a sequence of receives, and everything it sent. */
  datatype PeerTrace = PeerTrace(state: PeerState, sent: seq<Payload>)

  /** The peer fed the receive results of `inbox`, one after another, from state s. */
  function Resume(s: PeerState, inbox: seq<Option<Payload>>, draws: Draws): (r: PeerTrace)
    decreases |inbox|
  {
    if |inbox| == 0 then PeerTrace(s, [])
    else
      var x := OnReceive(s, inbox[0], draws);
      var rest := Resume(x.state, inbox[1..], draws);
      PeerTrace(rest.state, (if x.sent.Some? then [x.sent.value] else []) + rest.sent)
  }

  /** `main` after connecting: the first receive is the configuration. */
  function PeerRun(inbox: seq<Option<Payload>>, draws: Draws): (r: PeerTrace)
  {
    Resume(AwaitingConfig, inbox, draws)
  }

  /** A finished peer has returned: it sends nothing more, whatever arrives. */
  lemma {:induction false} FinishedIsFinal(reason: ExitReason, inbox: seq<Option<Payload>>, draws: Draws)
    ensures Resume(Finished(reason), inbox, draws) == PeerTrace(Finished(reason), [])
    decreases |inbox|
  {
    if |inbox| > 0 {
      FinishedIsFinal(reason, inbox[1..], draws);
    }
  }

  /** A failed configuration receive ends the peer before its loop. */
  lemma NoConfigNoLoop(inbox: seq<Option<Payload>>, draws: Draws)
    requires |inbox| > 0 && inbox[0] == None
    ensures PeerRun(inbox, draws) == PeerTrace(Finished(NoConfig), [])
  {
    FinishedIsFinal(NoConfig, inbox[1..], draws);
  }

  /** The receive results carrying the roads of `roads`, in order. */
  function RoadMsgs(roads: seq<seq<int>>): (r: seq<Option<Payload>>)
    ensures |r| == |roads|
  {
    seq(|roads|, t requires 0 <= t < |roads| => Some(RoadMsg(roads[t])))
  }

  /** Every road fits the segment the peer was given. */
  predicate FitsSegment(c: Config, roads: seq<seq<int>>)
  {
    forall t :: 0 <= t < |roads| ==> c.start >= c.end || c.end <= |roads[t]|
  }

  /** The partial results a serving peer computes for `roads`, starting at round t. */
  function Answers(c: Config, roads: seq<seq<int>>, t: nat, draws: Draws): (r: seq<Payload>)
    requires FitsSegment(c, roads)
    ensures |r| == |roads|
  {
    seq(|roads|, u requires 0 <= u < |roads| =>
      UpdateMsg(SegmentMoves(roads[u], c.start, c.end, c.vmax, draws(t + u))))
  }

  /**
   * A serving peer answers each road with exactly one partial result, in
   * order; a None or the termination signal then ends it without a further
   * send, whatever follows.
   */
  lemma {:induction false} ServesUntilStop(c: Config, t: nat, roads: seq<seq<int>>, stop: Option<Payload>,
                                           tail: seq<Option<Payload>>, draws: Draws)
    requires FitsSegment(c, roads)
    requires stop == None || stop == Some(TerminateMsg)
    ensures Resume(Serving(c, t), RoadMsgs(roads) + [stop] + tail, draws)
         == PeerTrace(Finished(if stop == None then Disconnected else Terminated), Answers(c, roads, t, draws))
    decreases |roads|
  {
    var inbox := RoadMsgs(roads) + [stop] + tail;
    if |roads| == 0 {
      assert inbox == [stop] + tail;
      StopEnds(c, t, stop, tail, draws);
    } else {
      var answer := UpdateMsg(SegmentMoves(roads[0], c.start, c.end, c.vmax, draws(t)));
      var rest := RoadMsgs(roads[1..]) + [stop] + tail;
      assert RoadMsgs(roads) == [Some(RoadMsg(roads[0]))] + RoadMsgs(roads[1..]);
      assert inbox == [Some(RoadMsg(roads[0]))] + rest;
      ResumeRoad(c, t, roads[0], rest, draws);
      ServesUntilStop(c, t + 1, roads[1..], stop, tail, draws);
      AnswersCons(c, roads, t, draws);
    }
  }

  lemma AnswersCons(c: Config, roads: seq<seq<int>>, t: nat, draws: Draws)
    requires FitsSegment(c, roads) && |roads| > 0
    ensures Answers(c, roads, t, draws)
         == [UpdateMsg(SegmentMoves(roads[0], c.start, c.end, c.vmax, draws(t)))] + Answers(c, roads[1..], t + 1, draws)
  {
    var a := Answers(c, roads, t, draws);
    var b := Answers(c, roads[1..], t + 1, draws);
    forall u | 1 <= u < |roads|
      ensures a[u] == b[u - 1]
    {
      assert roads[1..][u - 1] == roads[u];
      assert t + 1 + (u - 1) == t + u;
    }
  }

  /** None or the termination signal ends a serving peer without a send. */
  lemma StopEnds(c: Config, t: nat, stop: Option<Payload>, tail: seq<Option<Payload>>, draws: Draws)
    requires stop == None || stop == Some(TerminateMsg)
    ensures Resume(Serving(c, t), [stop] + tail, draws)
         == PeerTrace(Finished(if stop == None then Disconnected else Terminated), [])
  {
    assert ([stop] + tail)[1..] == tail;
    FinishedIsFinal(if stop == None then Disconnected else Terminated, tail, draws);
  }

  /** A serving peer that receives a road it can index answers it and moves to the next round. */
  lemma ResumeRoad(c: Config, t: nat, road: seq<int>, rest: seq<Option<Payload>>, draws: Draws)
    requires c.start >= c.end || c.end <= |road|
    ensures var after := Resume(Serving(c, t + 1), rest, draws);
            Resume(Serving(c, t), [Some(RoadMsg(road))] + rest, draws)
              == PeerTrace(after.state, [UpdateMsg(SegmentMoves(road, c.start, c.end, c.vmax, draws(t)))] + after.sent)
  {
    assert ([Some(RoadMsg(road))] + rest)[1..] == rest;
  }

  /**
   * The whole peer session: configuration, k roads, then the termination
   * signal (or a lost connection) yields exactly k partial results.
   */
  lemma PeerSession(c: Config, roads: seq<seq<int>>, stop: Option<Payload>, tail: seq<Option<Payload>>, draws: Draws)
    requires FitsSegment(c, roads)
    requires stop == None || stop == Some(TerminateMsg)
    ensures PeerRun([Some(ConfigMsg(c))] + RoadMsgs(roads) + [stop] + tail, draws)
         == PeerTrace(Finished(if stop == None then Disconnected else Terminated), Answers(c, roads, 0, draws))
  {
    var inbox := [Some(ConfigMsg(c))] + RoadMsgs(roads) + [stop] + tail;
    assert inbox[1..] == RoadMsgs(roads) + [stop] + tail;
    ServesUntilStop(c, 0, roads, stop, tail, draws);
  }
}
