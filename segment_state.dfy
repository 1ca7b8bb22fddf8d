/**
 * The per-segment animation state of the stage: two progress slots
 * (`scales`), a direction `dir`, a checkpoint `prevScale` taken at the last
 * slot change, and the active slot `j`.
 *
 * The value-level functions `StartSpec` and `UpdateSpec` say what one call of
 * `startUpdating` / `update` does to a snapshot of the state; the class
 * `State` holds the same fields in place and its methods are proved to
 * follow those functions. Progress values are exact reals.
 */
module SegmentState {

  /** Progress added to the active slot per tick, times the direction. */
  const STEP: real := 0.1

  /** The active slot changes once it has moved strictly more than this
      away from the checkpoint. */
  const THRESHOLD: real := 1.0

  function Abs(x: real): (r: real)
    ensures r >= 0.0 && (r == x || r == -x)
  {
    if x < 0.0 then -x else x
  }

  /** The fields of a `State` object, as a value. */
  datatype Snapshot = Snapshot(scales: seq<real>, dir: real, prevScale: real, j: int)
  {
    /** The states in which `update` behaves as a two-slot machine: two
        slots, an integer slot index that is a valid index into them, and
        a direction of -1, 0 or +1. */
    predicate Steady() {
      && |scales| == 2
      && (j == 0 || j == 1)
      && (dir == -1.0 || dir == 0.0 || dir == 1.0)
    }
  }

  /** A freshly allocated `State`. */
  function Initial(): (r: Snapshot)
    ensures r.Steady() && r.dir == 0.0
    ensures forall k :: 0 <= k < |r.scales| ==> r.scales[k] == 0.0
  {
    Snapshot([0.0, 0.0], 0.0, 0.0, 0)
  }

  /** Outcome of `startUpdating`: the new state and whether the start
      callback fired. */
  datatype Started = Started(next: Snapshot, started: bool)

  /** Outcome of `update`: the new state and whether the stop callback fired. */
  datatype Ticked = Ticked(next: Snapshot, completed: bool)

  /** `startUpdating`: only an idle state (dir == 0) starts, and it takes its
      direction from the checkpoint. */
  function StartSpec(s: Snapshot): (r: Started)
    // only an idle state starts, and only the direction can change
    ensures r.started <==> s.dir == 0.0
    ensures r.next.scales == s.scales && r.next.prevScale == s.prevScale && r.next.j == s.j
    ensures !r.started ==> r.next == s
  {
    if s.dir == 0.0 then Started(s.(dir := 1.0 - 2.0 * s.prevScale), true)
    else Started(s, false)
  }

  /** `update`: one tick of progress on the active slot; a slot change when
      the progress has moved more than THRESHOLD away from the checkpoint;
      completion when the slot index runs off either end. */
  function UpdateSpec(s: Snapshot): (r: Ticked)
    requires s.Steady()
    ensures r.next.Steady()
    // the slot that is not active is never written
    ensures r.next.scales[1 - s.j] == s.scales[1 - s.j]
    // completion only ends a movement, goes idle, keeps the slot and closes
    // it at the new checkpoint
    ensures r.completed ==>
              s.dir != 0.0 && r.next.dir == 0.0 && r.next.j == s.j
              && r.next.scales[s.j] == r.next.prevScale
    ensures !r.completed ==> r.next.dir == s.dir
  {
    var moved := s.scales[s.j] + s.dir * STEP;
    var scales := s.scales[s.j := moved];
    if Abs(moved - s.prevScale) > THRESHOLD then
      var prevScale := moved + s.dir;
      var j := s.j + s.dir.Floor;
      if j == |scales| || j == -1 then
        // roll the index back, go idle, then close the slot at
        // prevScale + dir, where dir is already 0
        var back := j - s.dir.Floor;
        Ticked(Snapshot(scales[back := prevScale + 0.0], 0.0, prevScale, back), true)
      else
        Ticked(Snapshot(scales, s.dir, prevScale, j), false)
    else
      Ticked(Snapshot(scales, s.dir, s.prevScale, s.j), false)
  }

  /** The state after `n` calls of `update`. */
  function Run(s: Snapshot, n: nat): (r: Snapshot)
    requires s.Steady()
    ensures r.Steady()
  {
    if n == 0 then s else UpdateSpec(Run(s, n - 1)).next
  }

  /** The start guard: a start happens exactly when the state is idle, it
      sets only the direction, to 1 - 2 * prevScale, and otherwise nothing
      changes. */
  lemma StartGuard(s: Snapshot)
    ensures StartSpec(s).started <==> s.dir == 0.0
    ensures StartSpec(s).started ==>
              StartSpec(s).next == Snapshot(s.scales, 1.0 - 2.0 * s.prevScale, s.prevScale, s.j)
    ensures !StartSpec(s).started ==> StartSpec(s).next == s
  {
  }

  /** A second start right after a successful one is a no-op, unless the
      checkpoint is 0.5: then the first start chose direction 0 and the
      state is still idle. */
  lemma StartTwice(s: Snapshot)
    requires StartSpec(s).started
    ensures var t := StartSpec(s).next;
            StartSpec(t) == (if s.prevScale == 0.5 then Started(t, true) else Started(t, false))
  {
  }

  /** Starting an idle steady state yields a steady state exactly when the
      checkpoint is 0, 0.5 or 1 (direction +1, 0 or -1). */
  lemma StartKeepsSteady(s: Snapshot)
    requires s.Steady() && s.dir == 0.0
    ensures StartSpec(s).next.Steady() <==>
              (s.prevScale == 0.0 || s.prevScale == 0.5 || s.prevScale == 1.0)
  {
  }

  /** Without a crossing, `update` moves the active slot by exactly
      dir * STEP and changes nothing else. */
  lemma UpdateWithoutCrossing(s: Snapshot)
    requires s.Steady()
    requires Abs(s.scales[s.j] + s.dir * STEP - s.prevScale) <= THRESHOLD
    ensures UpdateSpec(s) == Ticked(s.(scales := s.scales[s.j := s.scales[s.j] + s.dir * STEP]), false)
  {
  }

  /** With a crossing that does not leave the two slots, the checkpoint
      becomes the moved value plus the direction and the index moves one
      slot in the direction. */
  lemma UpdateSlotChange(s: Snapshot)
    requires s.Steady()
    requires Abs(s.scales[s.j] + s.dir * STEP - s.prevScale) > THRESHOLD
    requires 0 <= s.j + s.dir.Floor < 2
    ensures var moved := s.scales[s.j] + s.dir * STEP;
            UpdateSpec(s) == Ticked(Snapshot(s.scales[s.j := moved], s.dir, moved + s.dir, s.j + s.dir.Floor), false)
  {
  }

  /** Completion is signalled exactly when a crossing moves the index off
      either end (forward from slot 1, backward from slot 0); the index is
      then rolled back, the direction becomes 0 and the slot is closed at
      the new checkpoint. */
  lemma UpdateCompletion(s: Snapshot)
    requires s.Steady() && (s.dir == 1.0 || s.dir == -1.0)
    ensures var moved := s.scales[s.j] + s.dir * STEP;
            UpdateSpec(s).completed <==>
              Abs(moved - s.prevScale) > THRESHOLD
              && ((s.j == 1 && s.dir == 1.0) || (s.j == 0 && s.dir == -1.0))
    ensures var moved := s.scales[s.j] + s.dir * STEP;
            UpdateSpec(s).completed ==>
              UpdateSpec(s).next == Snapshot(s.scales[s.j := moved + s.dir], 0.0, moved + s.dir, s.j)
  {
  }

  /** While the first slot ramps up from a fresh start, the state after `k`
      updates has progress k * STEP on slot 0 and nothing else has moved;
      at k = 10 the strict comparison has not yet fired. */
  lemma {:induction false} FirstSlotRamp(k: nat)
    requires k <= 10
    ensures Run(StartSpec(Initial()).next, k) == Snapshot([k as real * STEP, 0.0], 1.0, 0.0, 0)
  {
    if k > 0 {
      FirstSlotRamp(k - 1);
      var s := Run(StartSpec(Initial()).next, k - 1);
      assert Abs(s.scales[0] + STEP - 0.0) <= THRESHOLD;
      UpdateWithoutCrossing(s);
    }
  }

  /** First activation of a fresh segment, up to the slot change: no
      completion on updates 1..11, and update 11 moves to slot 1 with
      checkpoint 2.1. */
  lemma FirstActivation()
    ensures forall k :: 0 <= k < 11 ==> !UpdateSpec(Run(StartSpec(Initial()).next, k)).completed
    ensures Run(StartSpec(Initial()).next, 11) == Snapshot([1.1, 0.0], 1.0, 2.1, 1)
  {
    var s := StartSpec(Initial()).next;
    forall k | 0 <= k < 11
      ensures !UpdateSpec(Run(s, k)).completed
    {
      FirstSlotRamp(k);
    }
    FirstSlotRamp(10);
    assert Run(s, 11) == UpdateSpec(Run(s, 10)).next;
  }

  /** Where the first activation of a freshly started segment ends: both
      slots at 1.1, idle on slot 1, checkpoint 1.1. */
  function Finished(): (r: Snapshot)
    ensures r.Steady() && r.dir == 0.0
  {
    Snapshot([1.1, 1.1], 0.0, 1.1, 1)
  }

  /** Update 12 of the first activation of a freshly started segment `s`
      completes, with both slots at 1.1, index 1, idle, checkpoint 1.1.
      (`s` is a parameter, not written out, so that the verifier does not
      evaluate the eleven updates of a literal snapshot eagerly.) */
  lemma FirstCompletion(s: Snapshot)
    requires s == StartSpec(Initial()).next
    ensures UpdateSpec(Run(s, 11)) == Ticked(Finished(), true)
  {
    var s11 := Run(s, 11);
    assert s11 == Snapshot([1.1, 0.0], 1.0, 2.1, 1) by {
      FirstActivation();
    }
    var moved := s11.scales[s11.j] + s11.dir * STEP;
    assert moved == 0.1;
    assert Abs(moved - s11.prevScale) > THRESHOLD;
    UpdateCompletion(s11);
    assert s11.scales[1 := 1.1] == [1.1, 1.1];
  }

  /** After its first activation a segment cannot be activated cleanly
      again: the checkpoint is 1.1, so the next start picks direction -1.2,
      which leaves the steady states. (`s` is a parameter for the same
      reason as in `FirstCompletion`.) */
  lemma ReactivationLeavesSteady(s: Snapshot)
    requires s == StartSpec(Initial()).next
    ensures var again := StartSpec(UpdateSpec(Run(s, 11)).next);
            again.started && again.next.dir == -1.2 && !again.next.Steady()
  {
    FirstCompletion(s);
  }

  /** One segment's state, updated in place. */
  class State {
    const scales: array<real>
    var dir: real
    var prevScale: real
    var j: int

    ghost function Snap(): (r: Snapshot)
      reads this, scales
    {
      Snapshot(scales[..], dir, prevScale, j)
    }

    ghost predicate Steady()
      reads this, scales
    {
      Snap().Steady()
    }

    constructor ()
      ensures fresh(scales) && scales.Length == 2
      ensures Snap() == Initial()
    {
      var a := new real[2];
      a[0], a[1] := 0.0, 0.0;
      scales := a;
      dir, prevScale, j := 0.0, 0.0, 0;
      new;
      assert scales[..] == [0.0, 0.0];
    }

    /** `update`; the result is whether the stop callback fired. */
    method Update() returns (completed: bool)
      requires Steady()
      modifies this, scales
      ensures Steady()
      ensures Snap() == UpdateSpec(old(Snap())).next
      ensures completed == UpdateSpec(old(Snap())).completed
    {
      scales[j] := scales[j] + dir * STEP;
      if Abs(scales[j] - prevScale) > THRESHOLD {
        prevScale := scales[j] + dir;
        j := j + dir.Floor;
        if j == scales.Length || j == -1 {
          j := j - dir.Floor;
          dir := 0.0;
          scales[j] := prevScale + dir;
          completed := true;
          return;
        }
      }
      completed := false;
    }

    /** `startUpdating`; the result is whether the start callback fired. */
    method StartUpdating() returns (started: bool)
      modifies this`dir
      ensures Snap() == StartSpec(old(Snap())).next
      ensures started == StartSpec(old(Snap())).started
    {
      started := false;
      if dir == 0.0 {
        dir := 1.0 - 2.0 * prevScale;
        started := true;
      }
    }
  }
}
