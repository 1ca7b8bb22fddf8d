# Linked rotating step stage, in Dafny

A model of the animation logic of `LinkedRotatingLineStage.ts`. The stage draws a
chain of `LRL_NODES = 5` line segments. A tap starts the active segment. A
repeating timer then ticks it until it completes, and the controller hands the
next tap to a neighbouring segment. Its `getNext` logic walks the chain back
and forth between the two ends. The stage follows that walk only up to
the fifth completion, because that completion leaves active a segment that has
already been used (see below).

The model has one module per component. The modules are named after what the
components do; the classes inside them carry the source's own names:

- `SegmentState` (`segment_state.dfy`): the per-segment `State`. It has two
  progress slots `scales`, a direction `dir`, a checkpoint `prevScale` and the
  active slot `j`. The value-level functions `StartSpec` and `UpdateSpec` say
  what one `startUpdating` and one `update` do to a `Snapshot` of those fields.
  The class `State` keeps the fields in place: `scales` is an `array<real>`, and
  its methods are proved to follow those functions. All lemmas about the
  behaviour are stated over the functions.
- `Timer` (`timer.dfy`): the `Animator`. Its flag `animated` is modelled, and so
  are counts of the intervals created and cancelled, in place of the real timer.
- `Chain` (`chain.dfy`): `LRLNode`, the doubly linked chain built recursively by
  the constructor and `addNeighbor`, with `getNext`.
- `Stepping` (`stepping.dfy`): `LinkedRotatingStep`, the controller with the
  active node `curr` and the travel direction `dir`. It also has the
  index-level account of the walk that `getNext` produces (`Advance`,
  `Traverse`) and its back-and-forth cycle.
- `Stage` (`stage.dfy`): the tap handler and one timer tick of
  `LinkedRotatingStepStage`, without drawing, and a new stage followed
  through taps and ticks up to the first revisit of a segment.

Each callback becomes a returned boolean: `started` for the start callback,
`completed`/`stopped` for the stop callback, and the flag returned by
`GetNext` for the end-of-chain callback. The controller reassigns `curr`
before it reports the stop, as the source does.

Progress values are exact `real`s. `j` is an `int`. `j += dir` is written
`j + dir.Floor`, which is the same value for a direction of -1, 0 or +1.

### What the code does with one segment

A reader might expect one activation of a segment to last 20 ticks (ten per
slot) and the checkpoint to end at 0 or 1, so that the next start reverses the
segment. The code does otherwise:

- Slot 0 changes over on tick 11, not 10, because the test is a strict
  `> 1`. The checkpoint then becomes `1.1 + 1 = 2.1`.
- Slot 1 therefore crosses at once (`|0.1 - 2.1| > 1`), and the activation
  completes on tick 12 (`FirstActivation`, `FirstCompletion`).
- The segment ends with both slots at 1.1 and checkpoint 1.1. A later start
  of the same segment picks direction `1 - 2 * 1.1 = -1.2`. That direction is
  outside -1, 0, +1, so the state leaves the two-slot machine
  (`ReactivationLeavesSteady`).

`update` is therefore specified for `Steady` states: two slots,
`j` in {0, 1}, `dir` in {-1, 0, +1}. The lemma shows which starts stay
inside them (`StartKeepsSteady`).

For the whole stage this means: the first four completions each hand control
to a segment that has never been active, and the fifth hands it back to the
last segment, which has already completed once (`FirstRevisit`).
`Stage.FirstRevisitOfStage` follows a new stage through those five rounds of
a tap and 12 ticks each, and shows that the next tap starts the last segment
again with direction -1.2, from a state outside the steady ones. Following the code's arithmetic from
there, the slot index becomes -0.2 after nine ticks, and the slot read at that
index is undefined. The progress becomes NaN, the `> 1` test never fires
again, the segment never completes, and the animator is never stopped. The
full back-and-forth walk of `PingPong` and `TraversePeriod` is the
controller's `getNext` logic; the stage reaches it only up to the
fifth completion.

## Model

| member | source | states |
|---|---|---|
| SegmentState.Initial | LinkedRotatingLineStage.ts:52-58 | a new state is steady and idle, with every slot at 0 |
| SegmentState.StartSpec | LinkedRotatingLineStage.ts:74-79 | a start happens exactly when the state is idle; it never changes the slots, the checkpoint or the index; without a start nothing changes |
| SegmentState.UpdateSpec | LinkedRotatingLineStage.ts:60-72 | from a steady state the result is steady; the slot that is not active is never written; a completion happens only while moving, leaves the state idle on the same slot and closes that slot at the new checkpoint; without completion the direction is kept |
| SegmentState.Run | LinkedRotatingLineStage.ts:60-72 | any number of updates from a steady state keeps the slot index in {0, 1} and the direction in {-1, 0, +1} |
| SegmentState.StartGuard | LinkedRotatingLineStage.ts:74-79 | a start happens exactly when `dir == 0`; it then sets only `dir`, to `1 - 2 * prevScale`; otherwise nothing changes |
| SegmentState.StartTwice | LinkedRotatingLineStage.ts:74-79 | a second start right after a successful one is a no-op, except when the checkpoint is 0.5, where the first start chose direction 0 |
| SegmentState.StartKeepsSteady | LinkedRotatingLineStage.ts:74-79 | starting an idle steady state gives a steady state exactly when the checkpoint is 0, 0.5 or 1 |
| SegmentState.UpdateWithoutCrossing | LinkedRotatingLineStage.ts:61-62 | when the moved progress stays within 1 of the checkpoint, only the active slot changes, by exactly `dir * 0.1`, and no completion is signalled |
| SegmentState.UpdateSlotChange | LinkedRotatingLineStage.ts:61-64 | on a crossing that stays inside the two slots the checkpoint becomes the moved value plus `dir`, the index moves by `dir`, and there is no completion |
| SegmentState.UpdateCompletion | LinkedRotatingLineStage.ts:62-69 | completion is signalled exactly on a crossing forward from slot 1 or backward from slot 0; the index is kept, `dir` becomes 0 and the slot becomes the new checkpoint |
| SegmentState.FirstSlotRamp | LinkedRotatingLineStage.ts:61-62 | after k <= 10 updates of a freshly started segment slot 0 holds k * 0.1 and nothing else has changed |
| SegmentState.FirstActivation | LinkedRotatingLineStage.ts:61-64 | a freshly started segment signals no completion on updates 1 to 11, and update 11 moves to slot 1 with checkpoint 2.1 |
| SegmentState.FirstCompletion | LinkedRotatingLineStage.ts:61-69 | update 12 of the first activation completes, with both slots at 1.1, index 1, idle, checkpoint 1.1 |
| SegmentState.ReactivationLeavesSteady | LinkedRotatingLineStage.ts:74-77 | starting the segment again after its first activation sets direction -1.2, outside the steady states |
| SegmentState.State.constructor | LinkedRotatingLineStage.ts:50-58 | a new state has a fresh two-slot array and the fields `[0, 0]`, 0, 0, 0 |
| SegmentState.State.Update | LinkedRotatingLineStage.ts:60-72 | the fields after the call are `UpdateSpec` of the fields before, and the result is whether the stop callback fired |
| SegmentState.State.StartUpdating | LinkedRotatingLineStage.ts:74-79 | the fields after the call are `StartSpec` of the fields before, only `dir` may change, and the result is whether the start callback fired |
| Timer.Animator.constructor | LinkedRotatingLineStage.ts:82-86 | a new animator is not animated and has no live interval |
| Timer.Animator.Start | LinkedRotatingLineStage.ts:88-95 | afterwards the animator is animated with exactly one live interval; one interval is created only if it was not animated, and none is cancelled |
| Timer.Animator.Stop | LinkedRotatingLineStage.ts:97-102 | afterwards the animator is not animated and no interval is live; one interval is cancelled only if it was animated, and none is created |
| Chain.OwnedDistinct | LinkedRotatingLineStage.ts:111 | different nodes of a built chain own different states and slot arrays, each with two slots |
| Chain.Neighbour | LinkedRotatingLineStage.ts:147-157 | the index-level `getNext` gives an index of the chain, the node's own or an adjacent one, and its own whenever the end flag is set |
| Chain.NeighbourSelection | LinkedRotatingLineStage.ts:147-157 | the neighbour is the next index for direction 1 and the previous one for any other direction; the end flag is set exactly at the chain end in that direction, and then the node itself is returned |
| Chain.ChainShape | LinkedRotatingLineStage.ts:113-122 | a built chain has five distinct nodes with indices 0 to 4; each node but the last has a `next` with the following index whose `prev` is that node; node 0 has no `prev` and node 4 no `next` |
| Chain.GetNextInChain | LinkedRotatingLineStage.ts:147-157 | in a built chain `getNext` on node k returns the node at index `Neighbour(k, dir)` and the end flag of `Neighbour` |
| Chain.LRLNode.constructor | LinkedRotatingLineStage.ts:111-115 | `new LRLNode(i)` has index i and no `prev`, and builds the rest of the chain after it: linked both ways, with indices i to 4, every node, state and slot array newly allocated, and every state equal to a new `State` (slots `[0, 0]`, idle, index 0, checkpoint 0) |
| Chain.LRLNode.AddNeighbor | LinkedRotatingLineStage.ts:117-122 | below the last index it builds the next node and links it back; at the last index the chain ends here; either way the stretch from this node is well built, every state in it equals a new `State`, and every node after this one is newly allocated with its state and slots |
| Chain.LRLNode.LinkBack | LinkedRotatingLineStage.ts:120 | setting the new next node's `prev` to this node extends its well-built stretch of new states by this node |
| Chain.LRLNode.Update | LinkedRotatingLineStage.ts:139-141 | the node's state follows `UpdateSpec`, and the result is the stop callback |
| Chain.LRLNode.StartUpdating | LinkedRotatingLineStage.ts:143-145 | the node's state follows `StartSpec`, and the result is the start callback |
| Chain.LRLNode.GetNext | LinkedRotatingLineStage.ts:147-157 | the neighbour, `next` for direction 1 and `prev` otherwise, is returned when it exists; the end flag is set exactly when it is missing, and then the node itself is returned |
| Stepping.Advance | LinkedRotatingLineStage.ts:171-175 | one completion either moves one index in the travel direction or stays and reverses; the direction is reversed exactly when the move would leave the chain |
| Stepping.Traverse | LinkedRotatingLineStage.ts:170-177 | any number of completions keeps the index in 0..4 and the direction in {-1, +1} |
| Stepping.PingPong | LinkedRotatingLineStage.ts:162-177 | from node 0 travelling forward, successive completions of `getNext` make the active node 1, 2, 3, 4, 4, 3, 2, 1, 0, 0, 1; the stage itself reaches only the first five of these, since the sixth activation never completes (see `FirstRevisit`) |
| Stepping.ForwardLeg | LinkedRotatingLineStage.ts:170-177 | from node 0 travelling forward, completion n, for n below 5, activates node n |
| Stepping.FirstRevisit | LinkedRotatingLineStage.ts:170-177 | after n completions, for n from 0 to 4, node n is active, so each of those is its first activation; completion 5 leaves node 4, already used, active with direction -1 |
| Stepping.AdvanceOnCycle | LinkedRotatingLineStage.ts:171-175 | one completion moves one place along the cycle forward over every index and then backward over every index |
| Stepping.TraverseOnCycle | LinkedRotatingLineStage.ts:170-177 | n completions move n places along that cycle |
| Stepping.CyclePeriod | LinkedRotatingLineStage.ts:170-177 | from any place on the back-and-forth cycle, 10 more completions end at the same node with the same direction |
| Stepping.TraversePeriod | LinkedRotatingLineStage.ts:170-177 | under the walk of `getNext`, after 10 completions the controller is back at the same node with the same direction, from any position and after any number of earlier completions; the stage itself stops making progress long before that (see `FirstRevisit`) |
| Stepping.LinkedRotatingStep.constructor | LinkedRotatingLineStage.ts:160-164 | a new controller has a newly allocated chain of five nodes, states and slot arrays, every state equal to a new `State`, node 0 active, travelling forward |
| Stepping.LinkedRotatingStep.Update | LinkedRotatingLineStage.ts:170-177 | the active node's state follows `UpdateSpec`; the result is its completion; on completion the position becomes `Advance` of the old one and the new active node is idle; no other node's state changes |
| Stepping.LinkedRotatingStep.MoveOn | LinkedRotatingLineStage.ts:171-174 | the stop callback makes `getNext` in the travel direction active, reversing the direction at an end, as `Advance` says |
| Stepping.LinkedRotatingStep.StartUpdating | LinkedRotatingLineStage.ts:179-181 | the active node's state follows `StartSpec`, and the result is the start callback; every other node's state is unchanged and stays idle |
| Stage.LinkedRotatingStepStage.constructor | LinkedRotatingLineStage.ts:9-11 | a new stage has a newly allocated, stopped animator with no live interval and a newly allocated controller as its constructor gives it: new chain, states and slots, every state equal to a new `State`, node 0 active |
| Stage.LinkedRotatingStepStage.Tap | LinkedRotatingLineStage.ts:30-33 | a tap starts the active segment as `StartSpec` says, and starts the animator exactly when the segment started; a tap while the segment moves changes nothing; no other segment changes |
| Stage.LinkedRotatingStepStage.Tick | LinkedRotatingLineStage.ts:33-37 | a tick updates the controller, and the animator is stopped exactly when the active segment completed; while not animated the active segment is idle; a tick creates no interval and cancels one exactly when it stops the animator; no other segment changes |
| Stage.TickUntilStopped | LinkedRotatingLineStage.ts:33-37 | after a segment's first start, ticking while the animator runs stops it after exactly 12 ticks, counted by the loop; the segment ends with slots [1.1, 1.1], idle, checkpoint 1.1, index 1, control moves on as `Advance` says, and no other segment changes |
| Stage.FirstRound | LinkedRotatingLineStage.ts:29-39 | a tap on a segment that has never moved, then ticks until the animator stops: it takes 12 ticks, the segment ends with slots [1.1, 1.1], idle, checkpoint 1.1, index 1, control moves on as `Advance` says, and no other segment changes |
| Stage.FirstLeg | LinkedRotatingLineStage.ts:29-39 | from five segments that have never moved, node 0 active and travelling forward, five such rounds take 12 ticks each and leave every segment finished, with node 4 active and the direction reversed |
| Stage.FirstRevisitOfStage | LinkedRotatingLineStage.ts:9-39 | a new stage after five rounds has every segment finished and node 4 active again travelling backward; the sixth tap fires the start callback and starts the animator, but sets node 4's direction to -1.2, outside the steady states |

## Left out

- Drawing: `render`, `initCanvas` and the static `init` (LinkedRotatingLineStage.ts:17-28, 43-47), `LRLNode.draw` (124-137) and `LinkedRotatingStep.draw` (166-168). They are canvas side effects with trigonometry, and the viewport constants `w`, `h` (line 1) only feed them. A tick therefore does not render before it updates.
- The real timer: `setInterval`, `clearInterval`, the interval handle and the 50 ms cadence (91-100). The animator keeps counts of intervals created and cancelled instead, and the stage's `Tick` stands for one firing of the interval.
- IEEE-754 rounding of the repeated `+= 0.1`: progress values are exact reals. The tick counts of the first activation are the same in both.
- SegmentState.State.Update: requires a steady state (two slots, `j` in {0, 1}, `dir` in {-1, 0, +1}). It does not model what the code does with a direction such as -1.2, which makes `j` fractional and the slot reads undefined.
- Chain.LRLNode.Update: requires the node's state to be steady, for the same reason.
- Stepping.LinkedRotatingStep.Update: requires the active node's state to be steady, for the same reason.
- Stage.LinkedRotatingStepStage.Tick: requires the active segment to be steady, for the same reason. The animator can also keep ticking when a start picks direction 0 (checkpoint 0.5); the model allows that but proves nothing about it.
- Chain.LRLNode.GetNext: returns the end flag instead of calling the callback; in a whole chain its result is given by index by `Chain.GetNextInChain`.
