/**
 * The chain of LRL_NODES segments: each node owns a `State` and is linked
 * to its neighbours by `next` and `prev`. The constructor builds the whole
 * chain from the node it is called on, recursively.
 */
module Chain {
  import opened SegmentState

  /** Number of segments in the chain. */
  const LRL_NODES: int := 5

  /** All nodes of `ns` but the first. */
  function Behind(ns: seq<LRLNode>): (r: seq<LRLNode>) {
    if ns == [] then [] else ns[1..]
  }

  /** Forward links of a stretch of the chain starting at index `first`:
      consecutive indices and `next` pointing to the following node, with
      no `next` after the last. */
  ghost predicate Forward(ns: seq<LRLNode>, first: int)
    reads ns`next
  {
    && (forall k :: 0 <= k < |ns| ==> ns[k].i == first + k)
    && (forall k {:trigger ns[k].next} :: 0 <= k < |ns| - 1 ==> ns[k].next == ns[k + 1])
    && (|ns| > 0 ==> ns[|ns| - 1].next == null)
  }

  /** Backward links inside a stretch: every node but the first has `prev`
      pointing to the node before it. The first node's `prev` is outside
      the stretch and is not read. */
  ghost predicate Backward(ns: seq<LRLNode>)
    reads Behind(ns)`prev
  {
    forall k {:trigger ns[k].prev} :: 0 < k < |ns| ==> ns[k].prev == ns[k - 1]
  }

  /** The nodes `ns` form a stretch of the chain starting at index `first`. */
  ghost predicate Linked(ns: seq<LRLNode>, first: int)
    reads ns`next, Behind(ns)`prev
  {
    Forward(ns, first) && Backward(ns)
  }

  /** Every node owns a state with two slots, and no later node shares
      the state or the slot array of an earlier one. */
  ghost predicate Owned(ns: seq<LRLNode>)
    decreases |ns|
  {
    || ns == []
    || (&& ns[0].state.scales.Length == 2
        && (forall k :: 0 < k < |ns| ==>
              ns[k].state != ns[0].state && ns[k].state.scales != ns[0].state.scales)
        && Owned(ns[1..]))
  }

  /** Different nodes of an owned stretch own different states and slot
      arrays, each with two slots. */
  lemma {:induction false} OwnedDistinct(ns: seq<LRLNode>, k: int, l: int)
    requires Owned(ns) && 0 <= k < |ns| && 0 <= l < |ns|
    ensures ns[k].state.scales.Length == 2
    ensures k != l ==> ns[k].state != ns[l].state && ns[k].state.scales != ns[l].state.scales
    decreases |ns|
  {
    if 0 < k && 0 < l {
      OwnedDistinct(ns[1..], k - 1, l - 1);
    } else if 0 < k {
      OwnedDistinct(ns[1..], k - 1, k - 1);
    }
  }

  /** In an owned stretch, no node shares its state or slot array with the
      node at index `k0`. */
  lemma OthersApart(ns: seq<LRLNode>, k0: int)
    requires Owned(ns) && 0 <= k0 < |ns|
    ensures forall k :: 0 <= k < |ns| ==> ns[k].state.scales.Length == 2
    ensures forall k :: 0 <= k < |ns| && k != k0 ==>
              ns[k].state != ns[k0].state && ns[k].state.scales != ns[k0].state.scales
  {
    forall k | 0 <= k < |ns|
      ensures ns[k].state.scales.Length == 2
      ensures k != k0 ==> ns[k].state != ns[k0].state && ns[k].state.scales != ns[k0].state.scales
    {
      OwnedDistinct(ns, k, k0);
    }
  }

  /** The states owned by the nodes `ns`, in order. */
  function States(ns: seq<LRLNode>): (ss: seq<State>)
    ensures |ss| == |ns| && forall k :: 0 <= k < |ns| ==> ss[k] == ns[k].state
  {
    seq(|ns|, k requires 0 <= k < |ns| => ns[k].state)
  }

  /** The slot arrays of the states owned by the nodes `ns`, in order. */
  function Slots(ns: seq<LRLNode>): (arrs: seq<array<real>>)
    ensures |arrs| == |ns| && forall k :: 0 <= k < |ns| ==> arrs[k] == ns[k].state.scales
  {
    seq(|ns|, k requires 0 <= k < |ns| => ns[k].state.scales)
  }

  /** Every node's state is as a new `State` is: slots [0, 0], idle, at
      slot 0, with checkpoint 0. */
  ghost predicate AllInitial(ns: seq<LRLNode>)
    reads States(ns), Slots(ns)
  {
    forall k :: 0 <= k < |ns| ==> States(ns)[k].Snap() == Initial()
  }

  /** Index-level reading of `getNext` inside a chain of LRL_NODES nodes:
      the neighbour's index and whether the chain end was hit. */
  function Neighbour(k: int, dir: int): (r: (int, bool))
    requires 0 <= k < LRL_NODES
    // the result is an index of the chain, this one or an adjacent one
    ensures 0 <= r.0 < LRL_NODES && (r.0 == k || r.0 == k + 1 || r.0 == k - 1)
    ensures r.1 ==> r.0 == k
  {
    var c := if dir == 1 then k + 1 else k - 1;
    if 0 <= c < LRL_NODES then (c, false) else (k, true)
  }

  /** `getNext` picks `next` for direction 1 and `prev` for any other
      direction; the end callback fires exactly when that neighbour is
      missing, and then the node stays where it is. */
  lemma NeighbourSelection(k: int, dir: int)
    requires 0 <= k < LRL_NODES
    ensures Neighbour(k, dir).1 <==> (if dir == 1 then k == LRL_NODES - 1 else k == 0)
    ensures Neighbour(k, dir).1 ==> Neighbour(k, dir).0 == k
    ensures !Neighbour(k, dir).1 ==> Neighbour(k, dir).0 == (if dir == 1 then k + 1 else k - 1)
    ensures 0 <= Neighbour(k, dir).0 < LRL_NODES
  {
  }

  class LRLNode {
    const i: int
    const state: State
    var next: LRLNode?
    var prev: LRLNode?
    /** This node and the nodes after it, in order. */
    ghost var tail: seq<LRLNode>

    /** The stretch of the chain from this node to the end is well built. */
    ghost predicate Built()
      reads this`tail, tail`next, Behind(tail)`prev
    {
      && 0 <= i < LRL_NODES
      && |tail| == LRL_NODES - i && tail[0] == this
      && Linked(tail, i)
      && Owned(tail)
    }

    /** `new LRLNode(i)`: a node with index `i`, no `prev`, and the rest of
        the chain after it, every node and state newly allocated. */
    constructor (i: int)
      requires 0 <= i < LRL_NODES
      ensures this.i == i && prev == null
      ensures Built() && AllInitial(tail)
      ensures forall k :: 0 <= k < |tail| ==>
                fresh(tail[k]) && fresh(tail[k].state) && fresh(tail[k].state.scales)
      decreases LRL_NODES - i, 1
    {
      this.i := i;
      state := new State();
      next, prev := null, null;
      new;
      AddNeighbor();
    }

    /** `addNeighbor`: unless this is the last index, build the next node and
        link it back to this one. */
    method AddNeighbor()
      requires 0 <= i < LRL_NODES && next == null && prev == null
      requires state.scales.Length == 2 && state.Snap() == Initial()
      modifies this
      ensures prev == null
      ensures Built() && AllInitial(tail)
      ensures forall k :: 1 <= k < |tail| ==>
                fresh(tail[k]) && fresh(tail[k].state) && fresh(tail[k].state.scales)
      decreases LRL_NODES - i, 0
    {
      if i < LRL_NODES - 1 {
        next := new LRLNode(i + 1);
        LinkBack();
      } else {
        tail := [this];
      }
    }

    /** The second half of `addNeighbor`: the new next node, heading a well
        built rest of the chain with states not shared with this node, gets
        this node as its `prev`. */
    method LinkBack()
      requires 0 <= i < LRL_NODES - 1 && prev == null
      requires next != null && next.i == i + 1 && next.prev == null
      requires next.Built() && AllInitial(next.tail)
      requires state.scales.Length == 2 && state.Snap() == Initial()
      requires forall k :: 0 <= k < |next.tail| ==>
                 next.tail[k].state != state && next.tail[k].state.scales != state.scales
      modifies this`tail, next`prev
      ensures tail == [this] + old(next.tail)
      ensures Built() && AllInitial(tail)
    {
      ghost var rest := next.tail;
      HeadNotBehind(rest, i + 1);
      AllInitialCons(this, rest);
      next.prev := this;
      tail := [this] + rest;
      ForwardCons(this, rest, i);
      BackwardCons(this, rest);
      OwnedCons(this, rest);
    }

    /** `update`: delegates to the state; the result is whether the stop
        callback fired. */
    method Update() returns (completed: bool)
      requires state.Steady()
      modifies state, state.scales
      ensures state.Steady()
      ensures state.Snap() == UpdateSpec(old(state.Snap())).next
      ensures completed == UpdateSpec(old(state.Snap())).completed
    {
      completed := state.Update();
    }

    /** `startUpdating`: delegates to the state; the result is whether the
        start callback fired. */
    method StartUpdating() returns (started: bool)
      modifies state`dir
      ensures state.Snap() == StartSpec(old(state.Snap())).next
      ensures started == StartSpec(old(state.Snap())).started
    {
      started := state.StartUpdating();
    }

    /** `getNext`: the neighbour in the travel direction, or this node and
        `true` (the end callback fired) when there is none. */
    function GetNext(dir: int): (r: (LRLNode, bool))
      reads this
      // a neighbour, `next` exactly for direction 1, is returned when it
      // exists; otherwise the node itself, with the end flag
      ensures !r.1 ==> r.0 == (if dir == 1 then next else prev)
      ensures r.1 <==> (if dir == 1 then next else prev) == null
      ensures r.1 ==> r.0 == this
    {
      var c := if dir == 1 then next else prev;
      if c != null then (c, false) else (this, true)
    }
  }

  /** Putting a node in front of a stretch whose first node it points to
      keeps the forward links. */
  lemma ForwardCons(n: LRLNode, rest: seq<LRLNode>, first: int)
    requires |rest| > 0 && Forward(rest, first + 1)
    requires n.i == first && n.next == rest[0]
    ensures Forward([n] + rest, first)
  {
  }

  /** Putting a node in front of a stretch whose first node links back to
      it keeps the backward links. */
  lemma BackwardCons(n: LRLNode, rest: seq<LRLNode>)
    requires |rest| > 0 && Backward(rest) && rest[0].prev == n
    ensures Backward([n] + rest)
  {
  }

  /** The first node of a stretch with consecutive indices does not occur
      again later in it. */
  lemma HeadNotBehind(ns: seq<LRLNode>, first: int)
    requires |ns| > 0 && Forward(ns, first)
    ensures ns[0] !in Behind(ns)
  {
    forall k | 1 <= k < |ns| ensures ns[k] != ns[0] {
      assert ns[k].i == first + k;
    }
  }

  /** Putting a node with a new state in front of a stretch of new states
      gives a stretch of new states. */
  lemma AllInitialCons(n: LRLNode, rest: seq<LRLNode>)
    requires AllInitial(rest) && n.state.Snap() == Initial()
    ensures AllInitial([n] + rest)
  {
    var ns := [n] + rest;
    forall k | 0 < k < |ns|
      ensures States(ns)[k].Snap() == Initial()
    {
      assert States(ns)[k] == States(rest)[k - 1];
    }
  }

  /** A node whose state and slot array differ from those of an owned
      stretch can be put in front of it. */
  lemma OwnedCons(n: LRLNode, rest: seq<LRLNode>)
    requires Owned(rest) && n.state.scales.Length == 2
    requires forall k :: 0 <= k < |rest| ==>
               rest[k].state != n.state && rest[k].state.scales != n.state.scales
    ensures Owned([n] + rest)
  {
  }

  /** A whole chain has LRL_NODES distinct nodes with indices 0 to
      LRL_NODES - 1 in order; each node but the last has a `next` with the
      following index whose `prev` is that node; the first node has no
      `prev` and the last no `next`. */
  lemma ChainShape(ns: seq<LRLNode>)
    requires |ns| == LRL_NODES && Linked(ns, 0) && ns[0].prev == null
    ensures forall k :: 0 <= k < LRL_NODES ==> ns[k].i == k
    ensures forall k :: 0 <= k < LRL_NODES - 1 ==>
              ns[k].next != null && ns[k].next.i == k + 1 && ns[k].next.prev == ns[k]
    ensures ns[LRL_NODES - 1].next == null
    ensures forall k, l :: 0 <= k < l < LRL_NODES ==> ns[k] != ns[l]
  {
  }

  /** In a whole chain, `getNext` on the node with index `k` is the
      index-level `Neighbour`. */
  lemma GetNextInChain(ns: seq<LRLNode>, k: int, dir: int)
    requires |ns| == LRL_NODES && Linked(ns, 0) && ns[0].prev == null
    requires 0 <= k < LRL_NODES
    ensures ns[k].GetNext(dir) == (ns[Neighbour(k, dir).0], Neighbour(k, dir).1)
  {
  }
}
