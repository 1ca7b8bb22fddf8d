/**
 * The animator: a boolean guard around a repeating timer. The timer itself
 * is not modelled; `created` and `cancelled` count the intervals the
 * animator has asked for and cleared, so their difference is the number of
 * intervals alive.
 */
module Timer {

  class Animator {
    var animated: bool
    var created: nat
    var cancelled: nat

    /** Number of intervals that are still scheduled. */
    ghost function Live(): (r: int)
      reads this
    {
      created - cancelled
    }

    /** The flag tells exactly whether one interval is alive, so at most one
        ever is. */
    ghost predicate Valid()
      reads this
    {
      Live() == if animated then 1 else 0
    }

    constructor ()
      ensures Valid() && !animated && Live() == 0
    {
      animated, created, cancelled := false, 0, 0;
    }

    /** `start`: schedules one interval unless one is already running. */
    method Start()
      requires Valid()
      modifies this
      ensures Valid() && animated && Live() == 1
      ensures created == old(created) + (if old(animated) then 0 else 1)
      ensures cancelled == old(cancelled)
    {
      if !animated {
        animated := true;
        created := created + 1;
      }
    }

    /** `stop`: clears the running interval, if any. */
    method Stop()
      requires Valid()
      modifies this
      ensures Valid() && !animated && Live() == 0
      ensures cancelled == old(cancelled) + (if old(animated) then 1 else 0)
      ensures created == old(created)
    {
      if animated {
        animated := false;
        cancelled := cancelled + 1;
      }
    }
  }
}
