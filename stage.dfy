/**
 * The stage: a tap starts the active segment and, when it did start, the
 * animator; each animator tick advances the controller, and the animator is
 * stopped when the active segment completes. Drawing is not modelled, and
 * the repeating timer becomes an explicit `Tick` call.
 */
module Stage {
  import opened SegmentState
  import opened Chain
  import opened Stepping
  import opened Timer

  class LinkedRotatingStepStage {
    const animator: Animator
    const lrlStep: LinkedRotatingStep

    /** Both parts are valid, and while the animator is not running the
        active segment is idle, so a tap is what starts the next movement. */
    ghost predicate Valid()
      reads this, animator, lrlStep, lrlStep.nodes`next, lrlStep.nodes`prev, States(lrlStep.nodes)`dir
    {
      && animator.Valid()
      && lrlStep.Valid()
      && (!animator.animated ==> lrlStep.curr.state.dir == 0.0)
    }

    /** A new stage: a new animator, stopped, and a new controller over a
        newly allocated chain, the first node active, every segment's state
        as a new `State`. */
    constructor ()
      ensures Valid() && !animator.animated && animator.Live() == 0
      ensures fresh(animator) && fresh(lrlStep)
      ensures lrlStep.curr == lrlStep.nodes[0] && lrlStep.dir == 1
      ensures AllInitial(lrlStep.nodes) && lrlStep.curr.state.Snap() == Initial()
      ensures forall k :: 0 <= k < LRL_NODES ==>
                fresh(lrlStep.nodes[k]) && fresh(lrlStep.nodes[k].state)
                && fresh(lrlStep.nodes[k].state.scales)
    {
      animator := new Animator();
      lrlStep := new LinkedRotatingStep();
      new;
      assert States(lrlStep.nodes)[0] == lrlStep.curr.state;
    }

    /** The tap handler: start the active segment, and start the animator
        exactly when the segment's start callback fired. A tap while the
        active segment is moving changes nothing. */
    method Tap() returns (started: bool)
      requires Valid()
      modifies lrlStep.curr.state`dir, animator
      ensures Valid()
      ensures started == StartSpec(old(lrlStep.curr.state.Snap())).started
      ensures lrlStep.curr.state.Snap() == StartSpec(old(lrlStep.curr.state.Snap())).next
      ensures animator.animated == (old(animator.animated) || started)
      ensures animator.created == old(animator.created) + (if started && !old(animator.animated) then 1 else 0)
      ensures animator.cancelled == old(animator.cancelled)
      ensures forall k :: 0 <= k < LRL_NODES && k != lrlStep.curr.i ==>
                lrlStep.nodes[k].state.Snap() == old(lrlStep.nodes[k].state.Snap())
    {
      started := lrlStep.StartUpdating();
      if started {
        animator.Start();
      }
    }

    /** One timer tick while the animator runs: update the controller, and
        stop the animator when the active segment completed. */
    method Tick() returns (stopped: bool)
      requires Valid() && animator.animated && lrlStep.curr.state.Steady()
      modifies lrlStep, lrlStep.curr.state, lrlStep.curr.state.scales, animator
      ensures Valid()
      ensures old(lrlStep.curr).state.Snap() == UpdateSpec(old(lrlStep.curr.state.Snap())).next
      ensures stopped == UpdateSpec(old(lrlStep.curr.state.Snap())).completed
      ensures (lrlStep.curr.i, lrlStep.dir) ==
                if stopped then Advance(old(lrlStep.curr.i), old(lrlStep.dir))
                else (old(lrlStep.curr.i), old(lrlStep.dir))
      ensures animator.animated == !stopped
      ensures animator.Live() == if stopped then 0 else 1
      ensures animator.created == old(animator.created)
      ensures animator.cancelled == old(animator.cancelled) + (if stopped then 1 else 0)
      ensures forall k :: 0 <= k < LRL_NODES && k != old(lrlStep.curr.i) ==>
                lrlStep.nodes[k].state.Snap() == old(lrlStep.nodes[k].state.Snap())
    {
      stopped := lrlStep.Update();
      if stopped {
        animator.Stop();
      }
    }
  }

  /** Timer ticks on a segment that has just been started for the first
      time, for as long as the animator runs: the animator stops after
      exactly 12 ticks, with the segment `Finished()`; control moves on as
      `Advance` says, and no other segment changes. */
  method TickUntilStopped(st: LinkedRotatingStepStage, ghost s: Snapshot) returns (n: int)
    requires s == StartSpec(Initial()).next
    requires st.Valid() && st.animator.animated && st.lrlStep.curr.state.Snap() == s
    modifies st.lrlStep, st.animator, st.lrlStep.curr.state, st.lrlStep.curr.state.scales
    ensures st.Valid() && !st.animator.animated && n == 12
    ensures old(st.lrlStep.curr).state.Snap() == Finished()
    ensures (st.lrlStep.curr.i, st.lrlStep.dir) == Advance(old(st.lrlStep.curr.i), old(st.lrlStep.dir))
    ensures forall k :: 0 <= k < LRL_NODES && k != old(st.lrlStep.curr.i) ==>
              st.lrlStep.nodes[k].state.Snap() == old(st.lrlStep.nodes[k].state.Snap())
  {
    ghost var curr := st.lrlStep.curr;
    ghost var dir := st.lrlStep.dir;
    n := 0;
    while st.animator.animated
      invariant 0 <= n <= 12 && (st.animator.animated <==> n < 12)
      invariant st.Valid()
      invariant n < 12 ==> st.lrlStep.curr == curr && st.lrlStep.dir == dir
      invariant n == 12 ==> (st.lrlStep.curr.i, st.lrlStep.dir) == Advance(curr.i, dir)
      invariant curr.state.Snap() == if n < 12 then Run(s, n) else Finished()
      invariant forall k :: 0 <= k < LRL_NODES && k != curr.i ==>
                  st.lrlStep.nodes[k].state.Snap() == old(st.lrlStep.nodes[k].state.Snap())
      decreases 12 - n
    {
      if n < 11 {
        assert !UpdateSpec(Run(s, n)).completed by {
          FirstActivation();
        }
      } else {
        FirstCompletion(s);
      }
      var stopped := st.Tick();
      n := n + 1;
    }
  }

  /** One tap on a stage whose active segment has never moved, then timer
      ticks until the animator stops: the segment runs its whole first
      activation in 12 ticks, ends as `Finished()`, and control moves on as
      `Advance` says; no other segment changes. */
  method FirstRound(st: LinkedRotatingStepStage) returns (n: int)
    requires st.Valid() && !st.animator.animated
    requires st.lrlStep.curr.state.Snap() == Initial()
    modifies st.lrlStep, st.animator, st.lrlStep.curr.state, st.lrlStep.curr.state.scales
    ensures st.Valid() && !st.animator.animated && n == 12
    ensures old(st.lrlStep.curr).state.Snap() == Finished()
    ensures (st.lrlStep.curr.i, st.lrlStep.dir) == Advance(old(st.lrlStep.curr.i), old(st.lrlStep.dir))
    ensures forall k :: 0 <= k < LRL_NODES && k != old(st.lrlStep.curr.i) ==>
              st.lrlStep.nodes[k].state.Snap() == old(st.lrlStep.nodes[k].state.Snap())
  {
    ghost var s := StartSpec(Initial()).next;
    var started := st.Tap();
    n := TickUntilStopped(st, s);
  }

  /** The first leg of the walk, from a stage whose segments have never
      moved, with the first node active travelling forward: LRL_NODES
      rounds of a tap and ticks until the animator stops, each round taking
      12 ticks. Afterwards every segment is `Finished()` and the last node
      is active again, now travelling backward. */
  method FirstLeg(st: LinkedRotatingStepStage) returns (ticks: seq<int>)
    requires st.Valid() && !st.animator.animated
    requires st.lrlStep.curr.i == 0 && st.lrlStep.dir == 1
    requires forall k :: 0 <= k < LRL_NODES ==> st.lrlStep.nodes[k].state.Snap() == Initial()
    modifies st.lrlStep, st.animator, States(st.lrlStep.nodes), Slots(st.lrlStep.nodes)
    ensures st.Valid() && !st.animator.animated
    ensures |ticks| == LRL_NODES && forall r :: 0 <= r < LRL_NODES ==> ticks[r] == 12
    ensures st.lrlStep.curr.i == LRL_NODES - 1 && st.lrlStep.dir == -1
    ensures forall k :: 0 <= k < LRL_NODES ==> st.lrlStep.nodes[k].state.Snap() == Finished()
  {
    ghost var nodes := st.lrlStep.nodes;
    FirstRevisit();
    ticks := [];
    var round := 0;
    while round < LRL_NODES
      invariant 0 <= round <= LRL_NODES && |ticks| == round
      invariant forall r :: 0 <= r < round ==> ticks[r] == 12
      invariant st.Valid() && !st.animator.animated
      invariant (st.lrlStep.curr.i, st.lrlStep.dir) == Traverse(0, 1, round)
      invariant forall k :: 0 <= k < LRL_NODES ==>
                  nodes[k].state.Snap() == if k < round then Finished() else Initial()
    {
      assert States(nodes)[round] == st.lrlStep.curr.state;
      assert Slots(nodes)[round] == st.lrlStep.curr.state.scales;
      var n := FirstRound(st);
      ticks := ticks + [n];
      round := round + 1;
    }
  }

  /** A new stage driven by taps, each followed by timer ticks until the
      animator stops. Every one of the first LRL_NODES taps starts a segment
      that has never moved, and each takes exactly 12 ticks to complete. The
      fifth completion hands control back to the last segment, travelling
      backward; the next tap starts it again with direction -1.2, outside
      the steady states, where no further completion is modelled. */
  method FirstRevisitOfStage() returns (st: LinkedRotatingStepStage, ticks: seq<int>, started: bool)
    ensures st.Valid() && st.animator.animated && started
    ensures |ticks| == LRL_NODES && forall r :: 0 <= r < LRL_NODES ==> ticks[r] == 12
    ensures st.lrlStep.curr == st.lrlStep.nodes[LRL_NODES - 1] && st.lrlStep.dir == -1
    ensures forall k :: 0 <= k < LRL_NODES - 1 ==> st.lrlStep.nodes[k].state.Snap() == Finished()
    ensures st.lrlStep.curr.state.Snap() == Snapshot([1.1, 1.1], -1.2, 1.1, 1)
    ensures !st.lrlStep.curr.state.Steady()
  {
    st := new LinkedRotatingStepStage();
    ghost var nodes := st.lrlStep.nodes;
    forall k | 0 <= k < LRL_NODES
      ensures nodes[k].state.Snap() == Initial()
    {
      assert States(nodes)[k] == nodes[k].state;
    }
    ticks := FirstLeg(st);
    started := st.Tap();
    ghost var s := StartSpec(Initial()).next;
    assert Finished() == UpdateSpec(Run(s, 11)).next by {
      FirstCompletion(s);
    }
    ReactivationLeavesSteady(s);
  }
}
