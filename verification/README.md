# Nagel-Schreckenberg traffic simulators in Dafny

This project models the core of a Python benchmark of the Nagel-Schreckenberg
(NaSch) cellular-automaton traffic model. The benchmark runs the same
simulation in three ways: sequentially, with threads over a shared array, and
distributed over sockets to peer processes.

- **Road.** The circular road is a sequence of ints. `EMPTY` (-1) marks a free
  cell. Any other value is a car moving at that many cells per step.
- **Per-car rule.** Every variant applies the same rule to each car: the gap
  scan with its `vmax + 2` cutoff, acceleration, collision avoidance, random
  slowdown, and movement with wrap-around.
- **Randomness.** The draw `random.random() < p` is an oracle `slow: nat -> bool`,
  indexed by the car's source cell. A whole run takes one oracle per step.

Modules, one file each:

- `Road` (`road.dfy`): constants, road validity, all-free roads, car counting.
- `Rules` (`rules.dfy`): the gap scan, the three velocity rules, a car's move,
  and collision freedom. Two distinct cars never choose the same destination.
- `Sequential` (`sequential.dfy`): one step as an in-order sweep of the source
  cells into an all-free buffer, and a run of many steps. Proves the cell-by-cell
  meaning of a step, conservation of cars, and bounded velocities.
- `Partition` (`partition.dfy`): the `road_length // n` decomposition shared by
  the threaded and networked variants. The last unit takes the remainder. Every
  cell has exactly one owner.
- `Parallel` (`parallel.dfy`): per-thread compute and copy phases. Any two
  threads' compute phases commute. A threaded step equals the sequential step
  and leaves the buffer all-free.
- `Protocol` (`protocol.dfy`): the messages (configuration, road, termination
  signal, partial result) and the configuration sent to each peer.
- `Worker` (`worker.dfy`): `run_na_sch_rules` as a map from destination to new
  velocity, and the peer as a state machine over receive results.
- `Master` (`master.dfy`): aggregation of partial results under the lock (later
  updates win), the merge into the next road, and the central theorem. Whatever
  order the peers' results arrive in, the committed road is the sequential step.
  Also the sequence of socket events of one connection handler.
- `Framing` (`framing.dfy`): the 8-byte big-endian length header, the frame
  `send_msg` writes, and the chunked reader of `recv_msg`. The network is
  abstracted as `grant(c)`, the number of bytes the c-th `recv` call may return.

Two points about the modelled code:

- **Gap in the single-car scenario.** With one car at speed 2 alone on a
  10-cell road, the gap scan stops at the cutoff 7
  (Sequencial/nagel-schreckenberg-sequencial.py:61-67), not at the car's own
  cell 10 (`Worker.ExampleGap`). The partial result is `{3: 3}`
  (`Worker.SingleCarExample`).
- **`vmax` as a parameter.** The rules take `vmax` as a `nat` parameter. Every
  simulator uses `V_MAX = 5`.

## Model

| member | source | states |
|---|---|---|
| Rules.ScanFrom | Sequencial/nagel-schreckenberg-sequencial.py:59-67 | the scan loop entered at distance d ends at the first occupied cell ahead, or at vmax + 2 once the distance exceeds vmax + 1; every cell it passes is free |
| Rules.Gap | Sequencial/nagel-schreckenberg-sequencial.py:59-67 | the gap d is in [1, vmax + 2]; the cells 1..d-1 ahead (with wrap-around) are free; d <= vmax + 1 implies cell d ahead holds a car; for a car the scan never exceeds one lap |
| Rules.Accelerate | Sequencial/nagel-schreckenberg-sequencial.py:72 | the new velocity is at most vmax and at most v + 1, and equals one of them |
| Rules.Brake | Sequencial/nagel-schreckenberg-sequencial.py:76 | the velocity never exceeds the free cells ahead (gap - 1) and is the smaller of the two |
| Rules.Randomize | Sequencial/nagel-schreckenberg-sequencial.py:79-80 | the velocity drops by exactly one when the car is moving and the draw says so, and otherwise stays the same |
| Rules.DrawOnlyWhenMoving | Sequencial/nagel-schreckenberg-sequencial.py:79-80 | a car's move does not depend on its draw when its braked velocity is 0, because the draw sits behind `v > 0` |
| Rules.CarMove | Sequencial/nagel-schreckenberg-sequencial.py:55-85 | the destination is (i + v) mod length, on the road; v <= vmax, v <= old speed + 1, v < gap; a car's new velocity is non-negative |
| Rules.NeverReachesCarAhead | Sequencial/nagel-schreckenberg-sequencial.py:74-76 | a car's velocity is below the distance to every other car ahead of it |
| Rules.DistinctDestinations | Sequencial/nagel-schreckenberg-sequencial.py:83-85 | two distinct cars never choose the same destination, whatever the draws, so no write to the next road overwrites another car |
| Sequential.SweepFrame | Sequencial/nagel-schreckenberg-sequencial.py:47-85 | the sweep writes only cells that one of the swept cars moves to |
| Sequential.SweepArrivals | Sequencial/nagel-schreckenberg-sequencial.py:47-85 | after the sweep each car's destination holds its new velocity; every other cell keeps its previous content |
| Sequential.SweepSplit | Sequencial/nagel-schreckenberg-sequencial.py:47-85 | sweeping lo..hi equals sweeping lo..mid and then mid..hi |
| Sequential.SweepCount | Sequencial/nagel-schreckenberg-sequencial.py:47-85 | a sweep into cells free at the destinations adds exactly one car per car swept |
| Sequential.StepArrivals | Sequencial/nagel-schreckenberg-sequencial.py:44-89 | in the next road each car's destination holds its new velocity and every cell no car reaches is free |
| Sequential.StepConservesCars | Sequencial/nagel-schreckenberg-sequencial.py:44-89 | a step neither creates nor destroys cars |
| Sequential.StepKeepsValid | Sequencial/nagel-schreckenberg-sequencial.py:44-89 | if every velocity lies in [0, vmax] before a step, the same holds after it |
| Sequential.RunInvariants | Sequencial/nagel-schreckenberg-sequencial.py:40-89 | over any number of steps the road keeps its car count and bounded velocities |
| Partition.SegmentOf | Paralelo/nagel-schreckenberg-Paralelo.py:19-23 | segment bounds lie within the road; the first unit starts at 0 and the last ends at the road's end |
| Partition.Owner | Paralelo/nagel-schreckenberg-Paralelo.py:19-23 | every cell lies in the segment of some unit k < n |
| Partition.OwnerUnique | Paralelo/nagel-schreckenberg-Paralelo.py:19-23 | segments of distinct units are disjoint |
| Partition.PartitionCovers | Paralelo/nagel-schreckenberg-Paralelo.py:19-23 | for every n >= 1, a cell lies in segment k exactly when k is its owner |
| Partition.MoreUnitsThanCells | Paralelo/nagel-schreckenberg-Paralelo.py:19-23 | with more units than cells every unit but the last owns nothing and the last owns the whole road |
| Parallel.ComputePhase | Paralelo/nagel-schreckenberg-Paralelo.py:30-63 | a thread's compute phase writes no cell of the buffer that no car of its segment moves to |
| Parallel.ComputePhasesCommute | Paralelo/nagel-schreckenberg-Paralelo.py:61-68 | the compute phases of any two threads commute, so their order before the barrier does not matter |
| Parallel.NoArrivalFromOtherSegment | Paralelo/nagel-schreckenberg-Paralelo.py:61-63 | a car's destination is reached by no car of another thread's segment |
| Parallel.CopyPhase | Paralelo/nagel-schreckenberg-Paralelo.py:74-81 | the thread's segment of the road takes the buffer's content and that segment of the buffer becomes free; cells outside the segment are untouched |
| Parallel.ParallelStep | Paralelo/nagel-schreckenberg-Paralelo.py:26-87 | a threaded step with any number of threads yields the sequential step and leaves the buffer all-free |
| Parallel.ParallelRun | Paralelo/nagel-schreckenberg-Paralelo.py:26-87 | the threaded simulation under the same draws equals the sequential run |
| Protocol.ConfigsCover | Distribuido/servidor_mestre.py:141-153 | the ranges [start_index, end_index) handed to the n peers cover the road exactly once: every cell goes to some peer and to one peer only; the first range starts at 0 and the last ends at the road's end |
| Worker.SegmentMoves | Distribuido/worker.py:10-51 | the partial result has keys only on the road and is empty for an empty segment |
| Worker.CollectKeys | Distribuido/worker.py:19-49 | the keys the loop adds are exactly the destinations of the cars it visits |
| Worker.CollectValues | Distribuido/worker.py:19-49 | every visited car's new velocity is recorded under its destination |
| Worker.SegmentMovesSpec | Distribuido/worker.py:10-51 | a key exists exactly for each destination of a car of [start, end); it holds that car's new velocity as the sequential rule computes it, within [0, vmax] |
| Worker.ExampleGap | Distribuido/worker.py:28-33 | in the single-car scenario the scan stops at the cutoff 7 |
| Worker.SingleCarExample | Distribuido/worker.py:10-51 | a car at speed 2 alone on a 10-cell road, with no slowdown, yields the partial result {3: 3} |
| Worker.OnReceive | Distribuido/worker.py:66-101 | a finished peer ignores input; a None receive ends the peer (NoConfig before the configuration, Disconnected after it); a configuration starts serving at round 0; the termination signal ends a serving peer without a send; a serving peer answers every road that fits its segment, and only such roads, with the partial result of that round's draws; any other message, and a road too short for a non-empty segment, crash the peer |
| Worker.FinishedIsFinal | Distribuido/worker.py:85-91 | a peer that has stopped sends nothing more, whatever arrives |
| Worker.NoConfigNoLoop | Distribuido/worker.py:66-69 | a failed configuration receive ends the peer before its loop |
| Worker.ServesUntilStop | Distribuido/worker.py:81-101 | a serving peer answers k roads with exactly k partial results, in order; a None or the termination signal then ends it |
| Worker.PeerSession | Distribuido/worker.py:66-101 | configuration, k roads and a stop give exactly k partial results and the matching exit reason |
| Master.AggregateKeys | Distribuido/servidor_mestre.py:169-170 | the aggregate holds exactly the keys of the partial results |
| Master.AggregateLatestWins | Distribuido/servidor_mestre.py:169-170 | for a key held by several partial results, the latest update wins |
| Master.AggregateSource | Distribuido/servidor_mestre.py:169-170 | every aggregated value comes from some partial result holding that key |
| Master.MergeInto | Distribuido/servidor_mestre.py:177-181 | the merged road holds each aggregated velocity at its key and is free elsewhere; a key past the end of the road makes the merge fail |
| Master.AggregateInRange | Distribuido/servidor_mestre.py:169-170 | every key of a step's aggregate lies on the road, because each peer reports only destinations on the road |
| Master.MergeStep | Distribuido/servidor_mestre.py:176-181 | worker 0's merge loop over a step's aggregate never raises the IndexError and yields the committed road |
| Master.CommitCount | Distribuido/servidor_mestre.py:176-187 | when every aggregated destination lies on the road and carries a velocity, the road worker 0 commits holds exactly one car per aggregated destination, and nothing else |
| Master.ReplyValue | Distribuido/servidor_mestre.py:169-170 | any partial result holding a car's destination holds that car's new velocity, so partial results never disagree |
| Master.DistributedArrival | Distribuido/servidor_mestre.py:157-190 | after the commit each car's destination holds its new velocity |
| Master.DistributedVacancy | Distribuido/servidor_mestre.py:157-190 | after the commit every cell no car reaches is free |
| Master.DistributedStepIsStep | Distribuido/servidor_mestre.py:157-190 | for every arrival order covering all peers, the committed road is the sequential step |
| Master.DistributedRunIsRun | Distribuido/servidor_mestre.py:157-190 | for every arrival order in every step, the shared road after each step equals the sequential run after as many steps |
| Master.Completed | Distribuido/servidor_mestre.py:157-166 | the first round from t whose receive did not deliver, with every earlier round delivered |
| Master.Exchanges | Distribuido/servidor_mestre.py:157-163 | each delivered round contributes one road send followed by one receive, in order, and nothing else |
| Master.RoundsShape | Distribuido/servidor_mestre.py:157-199 | the handler's step loop is the exchanges of the delivered rounds followed by the ending |
| Master.ConnectionTraceShape | Distribuido/servidor_mestre.py:148-199 | a connection sends the configuration with the peer's segment, then one road and one receive per delivered round, then the ending; it is closed last and exactly once; it has 2 * steps + 3 events when every round delivers |
| Master.TerminationSignal | Distribuido/servidor_mestre.py:163-199 | the termination signal is sent exactly when every round delivered or the first failure was a None receive; an exception skips it |
| Framing.DecodeEncode | Distribuido/comunicacao.py:15 | decoding the 8-byte big-endian header of a length gives back the length |
| Framing.EncodeDecode | Distribuido/comunicacao.py:32 | encoding the decoded value of any byte string of width w gives back the byte string |
| Framing.Header | Distribuido/comunicacao.py:15 | the header is 8 bytes long and decodes to the length it was packed from |
| Framing.Frame | Distribuido/comunicacao.py:9-22 | a frame is the header of the body's length followed by the body; a body too long for an unsigned 64-bit header makes packing raise, and nothing is sent |
| Framing.Delivered | Distribuido/comunicacao.py:39 | a recv call returns nothing only when the peer closed and nothing is pending, otherwise between 1 and the requested number of bytes |
| Framing.Recv | Distribuido/comunicacao.py:39 | a recv call returns a prefix of the pending bytes, no longer than requested, and empty exactly when nothing is pending |
| Framing.ReadExactly | Distribuido/comunicacao.py:35-45 | the chunk loop returns exactly the next count bytes when the stream holds them, each call asking for between 1 and the cap; otherwise it fails with the stream used up |
| Framing.ReadBody | Distribuido/comunicacao.py:34-48 | the body is returned exactly when it is non-empty and entirely on the stream, with the rest left unread; a zero length makes no recv call and consumes nothing past the header |
| Framing.RecvMsg | Distribuido/comunicacao.py:24-52 | the reader as written succeeds exactly when the first recv delivers the whole header and the announced non-empty body is on the stream; it then returns exactly that body and leaves the rest unread; an empty stream gives None after one call |
| Framing.RecvMsgFixed | Distribuido/comunicacao.py:24-52 | with the header read in a loop, the reader succeeds exactly when the whole frame is on the stream, however the network splits it |
| Framing.SplitHeaderLosesFrame | Distribuido/comunicacao.py:28-32 | as written, a complete frame whose first recv delivers fewer than 8 bytes is reported as None |
| Framing.ReceiveFrame | Distribuido/comunicacao.py:9-52 | round trip: a framed non-empty body followed by anything is read back intact, with exactly the following bytes left, for every way the network splits it |
| Framing.ReceiveFrameAsWritten | Distribuido/comunicacao.py:9-52 | the reader as written completes the round trip whenever the header arrives in one piece |

## Left out

- Sockets, connection set-up (`connect`, `bind`, `accept`) and the refused-connection exit are left out. Receive results appear as `Option<Payload>` values, and the network's chunking appears as the `grant` parameter.
- A receive stream is everything the peer sends before it closes. A `recv` on an open but silent connection blocks forever, because no timeout is set, and the model cannot express it.
- Threads, barriers and the lock are left out. A threaded step runs the threads' compute phases one after another and then their copy phases. `Parallel.ComputePhasesCommute` shows that the order of compute phases does not matter. The copy phases touch disjoint segments.
- `pickle` is left out. A serialised object is its own bytes, and the Python dicts are the variants of `Protocol.Payload`. A pickled object is never empty.
- Road initialisation is left out: random car placement, random initial speeds, the density, and the `num_cars == 0` early return. Every theorem holds for any valid initial road.
- `random.random()` is left out. `P_SLOWDOWN` is carried in the configuration only. Every draw is an oracle value, so each statement holds for every outcome of the draws.
- Timing, CSV output, printing and the `run_experiments*` drivers are left out.
- `handle_worker` and `run_simulation_distributed` are left out. `run_simulation_distributed` starts `handle_worker`, a configuration-only handler, and its step loop sends `{'road': road}` to every connection in every step but never receives a partial result, so the road never advances. `run_experiments_distributed` starts `handle_worker_full_loop`, which is the variant modelled.
- A handler that stops early leaves the others waiting at the barrier forever. The model of one connection ends at its close and does not model the other handlers blocking.
- Master.DistributedStep: assumes every peer replies in the step. The rounds that end with a None receive or an exception are modelled separately, by `Master.ConnectionTrace`.
- Master.Commit: uses `Merged`, which ignores keys outside the road. A step's aggregate has only keys on the road (`Master.AggregateInRange`), so the merge loop succeeds (`Master.MergeStep`). `Master.MergeInto` models the IndexError an out-of-range key would raise.
- numpy's negative indices are left out. Keys and cells are natural numbers, and no partial result holds a negative key.
- Fixed-width integer overflow is left out. Velocities stay in [0, vmax] and positions below the road length, so numpy's int64 never overflows.
- Framing.Frame: models only the packing failure for a body of 2^64 bytes or more. A failing `sendall` is left out, because its exception is swallowed and the model has no socket.

## Findings

| source | as written | input that shows it | evidently intended | confidence | as-written member | corrected member |
|---|---|---|---|---|---|---|
| Distribuido/comunicacao.py:28-32 | the header is read with one `recv(8)` and unpacked at once; a short read makes `struct.unpack` raise, and the frame is reported as None | a complete frame on the stream whose first `recv(8)` returns only 4 bytes, which a stream socket may do | read the header with the same loop as the body, so a split header is completed | not executed; medium (a short read of 8 bytes is rare on a local connection) | Framing.SplitHeaderLosesFrame | Framing.RecvMsgFixed |
