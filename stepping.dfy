/**
 * The controller that walks the chain: it holds the active node `curr` and
 * the travel direction `dir`, forwards ticks and starts to the active node,
 * and on the node's completion moves to the neighbour in the travel
 * direction, or reverses the direction at either end of the chain.
 */
module Stepping {
  import opened SegmentState
  import opened Chain

  /** What one completion does to the controller's position (node index,
      direction): move one node in the direction, or, at an end, stay and
      reverse. */
  function Advance(k: int, dir: int): (r: (int, int))
    requires 0 <= k < LRL_NODES && (dir == 1 || dir == -1)
    ensures 0 <= r.0 < LRL_NODES && (r.1 == 1 || r.1 == -1)
    ensures (r.0 == k + dir && r.1 == dir) || (r.0 == k && r.1 == -dir)
    ensures r.1 == -dir <==> (k + dir == -1 || k + dir == LRL_NODES)
  {
    var (n, atEnd) := Neighbour(k, dir);
    (n, if atEnd then -dir else dir)
  }

  /** The position after `n` completions. */
  function Traverse(k: int, dir: int, n: nat): (r: (int, int))
    requires 0 <= k < LRL_NODES && (dir == 1 || dir == -1)
    ensures 0 <= r.0 < LRL_NODES && (r.1 == 1 || r.1 == -1)
  {
    if n == 0 then (k, dir)
    else
      var p := Traverse(k, dir, n - 1);
      Advance(p.0, p.1)
  }

  /** The indices of the active node after each of `n` completions. */
  function Visits(k: int, dir: int, n: nat): (vs: seq<int>)
    requires 0 <= k < LRL_NODES && (dir == 1 || dir == -1)
    ensures |vs| == n
    ensures forall m :: 0 <= m < n ==> 0 <= vs[m] < LRL_NODES
  {
    if n == 0 then [] else Visits(k, dir, n - 1) + [Traverse(k, dir, n).0]
  }

  /** From the first node travelling forward, completions make the active
      node 1, 2, 3, 4, 4, 3, 2, 1, 0, 0, 1: each end node is activated twice
      in a row, once per travel direction. */
  lemma PingPong()
    ensures Visits(0, 1, 11) == [1, 2, 3, 4, 4, 3, 2, 1, 0, 0, 1]
    ensures Traverse(0, 1, 4) == (4, 1) && Traverse(0, 1, 5) == (4, -1)
    ensures Traverse(0, 1, 9) == (0, -1) && Traverse(0, 1, 10) == (0, 1)
  {
  }

  /** On the first leg from node 0 travelling forward, completion `n`
      activates node `n`, which has not been active before. */
  lemma {:induction false} ForwardLeg(n: nat)
    requires n < LRL_NODES
    ensures Traverse(0, 1, n) == (n, 1)
  {
    if n > 0 {
      ForwardLeg(n - 1);
    }
  }

  /** Completion LRL_NODES is the first to leave active a node that has
      already completed an activation: the last node, whose next start is
      the one `ReactivationLeavesSteady` describes, as
      `Stage.FirstRevisitOfStage` shows on a new stage. */
  lemma FirstRevisit()
    ensures forall n :: 0 <= n < LRL_NODES ==> Traverse(0, 1, n).0 == n
    ensures Traverse(0, 1, LRL_NODES) == (LRL_NODES - 1, -1)
  {
    forall n | 0 <= n < LRL_NODES
      ensures Traverse(0, 1, n).0 == n
    {
      ForwardLeg(n);
    }
    ForwardLeg(LRL_NODES - 1);
  }

  /** The ping-pong cycle of 2 * LRL_NODES positions: forward over every
      index, then backward over every index. */
  function Cycle(t: int): (r: (int, int))
    requires 0 <= t < 2 * LRL_NODES
    ensures 0 <= r.0 < LRL_NODES && (r.1 == 1 || r.1 == -1)
  {
    if t < LRL_NODES then (t, 1) else (2 * LRL_NODES - 1 - t, -1)
  }

  /** Every position is on the cycle, at exactly one place. */
  lemma CycleOnto(k: int, dir: int)
    requires 0 <= k < LRL_NODES && (dir == 1 || dir == -1)
    ensures var t := if dir == 1 then k else 2 * LRL_NODES - 1 - k;
            0 <= t < 2 * LRL_NODES && Cycle(t) == (k, dir)
    ensures forall t :: 0 <= t < 2 * LRL_NODES && Cycle(t) == (k, dir) ==>
              t == if dir == 1 then k else 2 * LRL_NODES - 1 - k
  {
  }

  /** One completion moves one place along the cycle, from the last place
      back to the first. */
  lemma AdvanceOnCycle(t: int)
    requires 0 <= t < 2 * LRL_NODES
    ensures Advance(Cycle(t).0, Cycle(t).1) == Cycle(if t + 1 == 2 * LRL_NODES then 0 else t + 1)
  {
  }

  /** `x` reduced into the cycle's places by whole turns, that is
      `x % (2 * LRL_NODES)` computed by repeated subtraction, which keeps
      the proofs about it free of division. */
  function Wrap(x: nat): (r: nat)
    ensures r < 2 * LRL_NODES
    ensures x < 2 * LRL_NODES ==> r == x
  {
    if x < 2 * LRL_NODES then x else Wrap(x - 2 * LRL_NODES)
  }

  /** A whole turn more reduces to the same place. */
  lemma WrapTurn(x: nat)
    ensures Wrap(x + 2 * LRL_NODES) == Wrap(x)
  {
  }

  lemma {:induction false} WrapSucc(x: nat)
    ensures Wrap(x + 1) == if Wrap(x) + 1 == 2 * LRL_NODES then 0 else Wrap(x) + 1
  {
    if x >= 2 * LRL_NODES {
      WrapSucc(x - 2 * LRL_NODES);
    }
  }

  /** So `n` completions move `n` places along the cycle. */
  lemma {:induction false} TraverseOnCycle(t: int, n: nat)
    requires 0 <= t < 2 * LRL_NODES
    ensures Traverse(Cycle(t).0, Cycle(t).1, n) == Cycle(Wrap(t + n))
  {
    if n > 0 {
      TraverseOnCycle(t, n - 1);
      AdvanceOnCycle(Wrap(t + n - 1));
      WrapSucc(t + n - 1);
    }
  }

  /** From any place on the cycle, a whole turn of completions more ends
      at the same position. */
  lemma {:induction false} CyclePeriod(t: int, n: nat)
    requires 0 <= t < 2 * LRL_NODES
    ensures Traverse(Cycle(t).0, Cycle(t).1, n + 2 * LRL_NODES) == Traverse(Cycle(t).0, Cycle(t).1, n)
  {
    TraverseOnCycle(t, n + 2 * LRL_NODES);
    TraverseOnCycle(t, n);
    WrapTurn(t + n);
  }

  /** The walk is periodic: after 2 * LRL_NODES completions the controller
      is back at the same node with the same direction, whatever the
      position it started from and however far it had gone. */
  lemma TraversePeriod(k: int, dir: int, n: nat)
    requires 0 <= k < LRL_NODES && (dir == 1 || dir == -1)
    ensures Traverse(k, dir, 2 * LRL_NODES) == (k, dir)
    ensures Traverse(k, dir, n + 2 * LRL_NODES) == Traverse(k, dir, n)
  {
    CycleOnto(k, dir);
    var t := if dir == 1 then k else 2 * LRL_NODES - 1 - k;
    CyclePeriod(t, 0);
    CyclePeriod(t, n);
  }

  class LinkedRotatingStep {
    var curr: LRLNode
    var dir: int
    /** The chain built when the controller was, in index order. */
    ghost const nodes: seq<LRLNode>

    /** The chain is whole and linked, from index 0 with no `prev`, and
        every node owns its own state. */
    ghost predicate Chained()
      reads nodes`next, nodes`prev
    {
      && |nodes| == LRL_NODES
      && Linked(nodes, 0) && nodes[0].prev == null
      && Owned(nodes)
    }

    /** The chain is whole, `curr` is one of its nodes, the direction is +1
        or -1, and every node but `curr` is idle. */
    ghost predicate Valid()
      reads this, nodes`next, nodes`prev, States(nodes)`dir
    {
      && Chained()
      && 0 <= curr.i < LRL_NODES && curr == nodes[curr.i]
      && (dir == 1 || dir == -1)
      && (forall k :: 0 <= k < LRL_NODES && k != curr.i ==> States(nodes)[k].dir == 0.0)
    }

    /** A new controller: a newly allocated chain, its first node active,
        travelling forward, every node's state as a new `State`. */
    constructor ()
      ensures Valid() && curr == nodes[0] && dir == 1
      ensures AllInitial(nodes) && curr.state.Snap() == Initial()
      ensures forall k :: 0 <= k < LRL_NODES ==>
                fresh(nodes[k]) && fresh(nodes[k].state) && fresh(nodes[k].state.scales)
    {
      var head := new LRLNode(0);
      curr := head;
      dir := 1;
      nodes := head.tail;
      new;
      assert States(nodes)[0] == curr.state;
    }

    /** `update`: one tick of the active node; on its completion, move to
        the neighbour in the travel direction or reverse at an end. The
        result is whether the stop callback fired. */
    method Update() returns (stopped: bool)
      requires Valid() && curr.state.Steady()
      modifies this, curr.state, curr.state.scales
      ensures Valid()
      ensures old(curr).state.Snap() == UpdateSpec(old(curr.state.Snap())).next
      ensures stopped == UpdateSpec(old(curr.state.Snap())).completed
      ensures (curr.i, dir) == if stopped then Advance(old(curr.i), old(dir)) else (old(curr.i), old(dir))
      // after a completion the newly active node is idle, so the next tap
      // starts it
      ensures stopped ==> curr.state.dir == 0.0
      ensures forall k :: 0 <= k < LRL_NODES && k != old(curr.i) ==>
                nodes[k].state.Snap() == old(nodes[k].state.Snap())
    {
      ghost var k0 := curr.i;
      OthersApart(nodes, k0);
      stopped := curr.Update();
      if stopped {
        MoveOn();
      }
    }

    /** The stop callback of `update`: the active node has just completed,
        so make its neighbour in the travel direction active, reversing the
        direction at an end of the chain. */
    method MoveOn()
      requires Chained() && 0 <= curr.i < LRL_NODES && curr == nodes[curr.i]
      requires dir == 1 || dir == -1
      requires forall k :: 0 <= k < LRL_NODES ==> States(nodes)[k].dir == 0.0
      modifies this`curr, this`dir
      ensures Valid()
      ensures (curr.i, dir) == Advance(old(curr.i), old(dir))
      ensures curr.state.dir == 0.0
    {
      GetNextInChain(nodes, curr.i, dir);
      var (n, atEnd) := curr.GetNext(dir);
      if atEnd {
        dir := dir * -1;
      }
      curr := n;
      assert States(nodes)[curr.i] == curr.state;
    }

    /** `startUpdating`: forwards to the active node; the result is whether
        the start callback fired. */
    method StartUpdating() returns (started: bool)
      requires Valid()
      modifies curr.state`dir
      ensures Valid()
      ensures curr.state.Snap() == StartSpec(old(curr.state.Snap())).next
      ensures started == StartSpec(old(curr.state.Snap())).started
      ensures forall k :: 0 <= k < LRL_NODES && k != curr.i ==>
                nodes[k].state.Snap() == old(nodes[k].state.Snap())
    {
      ghost var k0 := curr.i;
      OthersApart(nodes, k0);
      started := curr.StartUpdating();
    }
  }
}
