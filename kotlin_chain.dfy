/** The classes of lib/src/main/java/com/sd/lib/chain/FChain.kt.

    A `Node` holds only `_chain`, the binding that `init` checks. The node's
    `_state` and `_hasRun` are read and written only under the monitor of the
    chain it is bound to, so the chain keeps them, in maps keyed by node; the
    handler's queue and the callbacks it has run are fields of the chain as
    well. Every method is proved against the function of `KotlinSpec` that
    models the same source function, through `Snap()`. */
module KotlinChain {
  import opened Lifecycle
  import Spec = KotlinSpec

  class Node {
    /** The chain this node was added to; `null` until then (`lateinit`). */
    var chain: FChain?

    constructor ()
      ensures chain == null
    {
      chain := null;
    }

    /** init: binds the node to a chain; a node that is already bound, to any
        chain, is refused and keeps its binding. */
    method Init(c: FChain) returns (ok: bool)
      modifies this
      ensures ok <==> old(chain) == null
      ensures ok ==> chain == c
      ensures !ok ==> unchanged(this)
    {
      if chain != null {
        return false;
      }
      chain := c;
      ok := true;
    }

    /** nextNode, called by the node's own code: refused on a node that was
        never added, otherwise done under the monitor of its chain. */
    method NextNode() returns (r: Spec.Outcome)
      requires chain != null ==> chain.Valid() && this in chain.state
      modifies chain
      ensures chain == old(chain)
      ensures old(chain) == null ==> r == Spec.NotInitialized
      ensures chain != null ==> chain.Valid() && (chain.Snap(), r) == Spec.NextNode(old(chain.Snap()), this)
    {
      if chain == null {
        return Spec.NotInitialized;
      }
      r := chain.NextNodeOf(this);
    }
  }

  class FChain {
    var nodes: seq<Node>
    var currentIndex: int
    var current: Node?
    /** `_state` of every node bound to this chain, listed or already dropped. */
    var state: map<Node, NodeState>
    /** `_hasRun` of every node bound to this chain. */
    var hasRun: map<Node, bool>
    /** The handler: tasks posted and not yet run, oldest first. */
    var queue: seq<Spec.Task<Node>>
    /** The user callbacks the handler has run, in order. */
    var trace: seq<Event<Node>>
    /** The number of calls to start that returned true. */
    ghost var starts: nat

    /** The chain and its nodes as a value. */
    ghost function Snap(): Spec.Chain<Node>
      reads this
    {
      Spec.Chain(nodes, currentIndex, if current == null then Null else Some(current),
                 state, hasRun, queue, trace, starts)
    }

    /** The invariant of `KotlinSpec`, and every node whose state the chain
        keeps is bound to it. */
    ghost predicate Valid()
      reads this, state.Keys
    {
      Spec.Valid(Snap()) && forall n :: n in state ==> n.chain == this
    }

    constructor ()
      ensures Valid() && Snap() == Spec.Empty()
    {
      nodes := [];
      currentIndex := -1;
      current := null;
      state := map[];
      hasRun := map[];
      queue := [];
      trace := [];
      starts := 0;
    }

    /** isRunning: the cursor is on a listed node, and that node is running. */
    function IsRunning(): (r: bool)
      reads this, state.Keys
      requires Valid()
      ensures r <==> 0 <= currentIndex < |nodes|
      ensures r ==> current in state && state[current] == Run
    {
      current != null
    }

    /** size: the number of listed nodes, past the cursor while running. */
    function Size(): (r: nat)
      reads this, state.Keys
      requires Valid()
      ensures r == |nodes| && (IsRunning() ==> currentIndex < r)
    {
      |nodes|
    }

    /** add: binds the node to this chain and appends it; a node bound to any
        chain is refused and nothing changes. */
    method Add(node: Node) returns (r: Spec.Outcome)
      requires Valid()
      modifies this, node
      ensures Valid()
      ensures r == Spec.Done <==> old(node.chain) == null
      ensures r != Spec.Done ==> r == Spec.AlreadyAdded && unchanged(this, node)
      ensures r == Spec.Done ==> node.chain == this && Snap() == Spec.Add(old(Snap()), node)
    {
      var ok := node.Init(this);
      if !ok {
        return Spec.AlreadyAdded;
      }
      Spec.AddValid(Snap(), node);
      nodes := nodes + [node];
      state := state[node := None];
      hasRun := hasRun[node := false];
      r := Spec.Done;
    }

    /** start: runs the first node of an idle, non-empty chain. */
    method Start() returns (started: bool)
      requires Valid()
      modifies this
      ensures Valid() && (Snap(), started) == Spec.Start(old(Snap()))
    {
      Spec.StartValid(Snap());
      if current != null {
        return false;
      }
      if nodes == [] {
        return false;
      }
      currentIndex := 0;
      current := nodes[0];
      starts := starts + 1;
      NotifyRun(nodes[0]);
      started := true;
    }

    /** cancel: finishes the current node and the chain; an idle chain is left
        alone. */
    method Cancel()
      requires Valid()
      modifies this
      ensures Valid() && Snap() == Spec.Cancel(old(Snap()))
    {
      Spec.CancelValid(Snap());
      var node := current;
      if node == null {
        return;
      }
      NotifyCancel(node);
      FinishChain();
    }

    /** The body of nextNode for node `n`, under this chain's monitor. */
    method NextNodeOf(n: Node) returns (r: Spec.Outcome)
      requires Valid() && n in state
      modifies this
      ensures Valid() && (Snap(), r) == Spec.NextNode(old(Snap()), n)
    {
      Spec.NextNodeValid(Snap(), n);
      match state[n] {
        case None =>
          return Spec.NextBeforeRun;
        case Finish =>
          return Spec.Done;
        case Run =>
          FinishNode(n);
          RunNextNode();
          return Spec.Done;
      }
    }

    /** The node-side half of nextNode on a running node `n`. */
    method FinishNode(n: Node)
      requires n in state && n in hasRun
      modifies this
      ensures Snap() == Spec.FinishNode(old(Snap()), n)
    {
      state := state[n := Finish];
      if hasRun[n] {
        queue := queue + [Spec.NodeFinish(n)];
      }
    }

    /** runNextNode: moves the cursor past the finished current node. */
    method RunNextNode()
      requires currentIndex >= -1
      modifies this
      ensures Snap() == Spec.RunNextNode(old(Snap()))
    {
      var node := current;
      if node == null {
        return;
      }
      var nextIndex := currentIndex + 1;
      if nextIndex >= |nodes| {
        FinishChain();
        return;
      }
      currentIndex := nextIndex;
      current := nodes[nextIndex];
      NotifyRun(nodes[nextIndex]);
    }

    /** finish: resets the cursor, clears the list, posts the chain's onFinish. */
    method FinishChain()
      modifies this
      ensures Snap() == Spec.FinishChain(old(Snap()))
    {
      currentIndex := -1;
      current := null;
      nodes := [];
      queue := queue + [Spec.ChainFinish];
    }

    /** notifyRun of node `n`. */
    method NotifyRun(n: Node)
      modifies this
      ensures Snap() == Spec.NotifyRun(old(Snap()), n)
    {
      state := state[n := Run];
      queue := queue + [Spec.RunNode(n)];
    }

    /** notifyCancel of node `n`. */
    method NotifyCancel(n: Node)
      requires n in state && n in hasRun
      modifies this
      ensures Snap() == Spec.NotifyCancel(old(Snap()), n)
    {
      if state[n] != Finish {
        state := state[n := Finish];
        if hasRun[n] {
          queue := queue + [Spec.NodeCancel(n), Spec.NodeFinish(n)];
        }
      }
    }

    /** The handler runs the oldest posted task and returns the callbacks
        that ran. */
    method Dispatch() returns (fired: seq<Event<Node>>)
      requires Valid()
      modifies this
      ensures Valid() && (Snap(), fired) == Spec.Dispatch(old(Snap()))
    {
      Spec.DispatchValid(Snap());
      fired := RunTask();
    }

    /** The oldest posted task runs; a run task re-reads its node's state. */
    method RunTask() returns (fired: seq<Event<Node>>)
      requires queue != [] && queue[0].RunNode? ==> queue[0].node in state
      modifies this
      ensures (Snap(), fired) == Spec.Dispatch(old(Snap()))
    {
      if queue == [] {
        return [];
      }
      var task := queue[0];
      queue := queue[1..];
      match task {
        case RunNode(n) =>
          if state[n] == Run {
            hasRun := hasRun[n := true];
            fired := [Ran(n)];
          } else {
            fired := [];
          }
        case NodeCancel(n) =>
          fired := [Cancelled(n)];
        case NodeFinish(n) =>
          fired := [Finished(n)];
        case ChainFinish =>
          fired := [ChainFinished];
      }
      trace := trace + fired;
    }

    /** The handler runs every posted task while no callback calls back into
        the chain. */
    method Drain()
      requires Valid()
      modifies this
      ensures Valid() && Snap() == Spec.Drain(old(Snap()))
    {
      while queue != []
        invariant Valid()
        invariant forall x | x in queue && x.RunNode? :: x.node in state
        invariant Spec.Drain(Snap()) == Spec.Drain(old(Snap()))
        decreases |queue|
      {
        var f := Dispatch();
      }
    }
  }
}
