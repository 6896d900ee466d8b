/** The classes of lib/src/main/java/com/sd/lib/chain/FChain.java.

    A `Node` holds only `_chain`, the binding that `init` checks (the handler
    bound with it is the chain's single handler). The node's `_state` and
    `_hasRun` are kept by the chain it is bound to, in maps keyed by node,
    beside the handler's queue and the callbacks it has run. Every method is
    proved against the function of `JavaSpec` that models the same source
    function, through `Snap()`. */
module JavaChain {
  import opened Lifecycle
  import Spec = JavaSpec

  class Node {
    /** The chain this node was added to; `null` until then. */
    var chain: FChain?

    constructor ()
      ensures chain == null
    {
      chain := null;
    }

    /** init: binds the node to a chain; a node that is already bound, to any
        chain, is refused and keeps its binding. */
    method Init(c: FChain) returns (ok: bool)
      modifies this
      ensures ok <==> old(chain) == null
      ensures ok ==> chain == c
      ensures !ok ==> unchanged(this)
    {
      if chain != null {
        return false;
      }
      chain := c;
      ok := true;
    }

    /** nextNode, called by the node's own code: refused on a node that was
        never added; otherwise a running node finishes and its chain moves on,
        and any other node is left alone. */
    method NextNode() returns (r: Spec.Outcome)
      requires chain != null ==> chain.Valid() && this in chain.state
      modifies chain
      ensures chain == old(chain)
      ensures r == Spec.Done <==> old(chain) != null
      ensures r != Spec.Done ==> r == Spec.NotInitialized
      ensures chain != null ==> chain.Valid() && chain.Snap() == Spec.NextNode(old(chain.Snap()), this)
    {
      if chain == null {
        return Spec.NotInitialized;
      }
      chain.NextNodeOf(this);
      r := Spec.Done;
    }
  }

  class FChain {
    var nodes: seq<Node>
    var currentIndex: int
    var current: Node?
    /** `mIsDispatchCancel`: raised while cancel walks the list. */
    var cancelling: bool
    /** `_state` of every node bound to this chain, listed or already dropped. */
    var state: map<Node, NodeState>
    /** `_hasRun` of every node bound to this chain. */
    var hasRun: map<Node, bool>
    /** The handler: tasks posted and not yet run, oldest first. */
    var queue: seq<Spec.Task<Node>>
    /** The user callbacks the handler has run, in order. */
    var trace: seq<Event<Node>>

    /** The chain and its nodes as a value. */
    ghost function Snap(): Spec.Chain<Node>
      reads this
    {
      Spec.Chain(nodes, currentIndex, if current == null then Null else Some(current),
                 cancelling, state, hasRun, queue, trace)
    }

    /** The invariant of `JavaSpec`, and every node whose state the chain
        keeps is bound to it. */
    ghost predicate Valid()
      reads this, state.Keys
    {
      Spec.Valid(Snap()) && forall n :: n in state ==> n.chain == this
    }

    constructor ()
      ensures Valid() && Snap() == Spec.Empty()
    {
      nodes := [];
      currentIndex := -1;
      current := null;
      cancelling := false;
      state := map[];
      hasRun := map[];
      queue := [];
      trace := [];
    }

    /** getState of node `n`, read through the chain that keeps it. */
    function StateOf(n: Node): (r: NodeState)
      reads this, state.Keys
      requires Valid() && n in state
      ensures r == Run ==> current == n
      ensures r == None ==> n !in nodes[..currentIndex + 1]
    {
      state[n]
    }

    /** size: the number of listed nodes, the current one among them. */
    function Size(): (r: nat)
      reads this, state.Keys
      requires Valid()
      ensures r == |nodes| && (current != null ==> currentIndex < r)
    {
      |nodes|
    }

    /** add: refused while cancel runs, then for a node bound to any chain;
        otherwise the node is bound to this chain and appended. */
    method Add(node: Node) returns (r: Spec.Outcome)
      requires Valid()
      modifies this, node
      ensures Valid()
      ensures r == Spec.Done ==> node.chain == this
      ensures r != Spec.Done ==> unchanged(this, node)
      ensures (Snap(), r) == Spec.Add(old(Snap()), node, old(node.chain) != null)
    {
      Spec.AddValid(Snap(), node, node.chain != null);
      if cancelling {
        return Spec.CancelInProgress;
      }
      var ok := node.Init(this);
      if !ok {
        return Spec.AlreadyAdded;
      }
      nodes := nodes + [node];
      state := state[node := None];
      hasRun := hasRun[node := false];
      r := Spec.Done;
    }

    /** start: runs the first node of an idle, non-empty chain. */
    method Start() returns (r: Spec.Outcome)
      requires Valid()
      modifies this
      ensures Valid() && (Snap(), r) == Spec.Start(old(Snap()))
    {
      Spec.StartValid(Snap());
      if nodes == [] {
        return Spec.NotStarted;
      }
      if current != null {
        return Spec.NotStarted;
      }
      var node := nodes[0];
      if state[node] != None {
        return Spec.IllegalNodeState;
      }
      currentIndex := 0;
      current := node;
      NotifyRun(node);
      r := Spec.Done;
    }

    /** cancel: unless a cancel already runs, cancels every listed node in
        order, clears the list and resets the cursor. */
    method Cancel()
      requires Valid()
      modifies this
      ensures Valid() && Snap() == Spec.Cancel(old(Snap()))
    {
      Spec.CancelValid(Snap());
      CancelAll();
    }

    /** The body of cancel, which needs of the chain only that its listed
        nodes are bound. */
    method CancelAll()
      requires forall k | 0 <= k < |nodes| :: nodes[k] in state && nodes[k] in hasRun
      modifies this
      ensures Snap() == Spec.Cancel(old(Snap())) && state.Keys == old(state).Keys
    {
      if cancelling {
        return;
      }
      cancelling := true;
      CancelListed();
      nodes := [];
      current := null;
      currentIndex := -1;
      cancelling := false;
    }

    /** The loop of cancel: notifyCancel of every listed node, in order. */
    method CancelListed()
      requires forall k | 0 <= k < |nodes| :: nodes[k] in state && nodes[k] in hasRun
      modifies this
      ensures Snap() == Spec.CancelFrom(old(Snap()), old(nodes), 0)
      ensures state.Keys == old(state).Keys
    {
      ghost var ns := nodes;
      ghost var goal := Spec.CancelFrom(Snap(), ns, 0);
      var i := 0;
      while i < |nodes|
        invariant 0 <= i <= |ns| && nodes == ns
        invariant forall k | i <= k < |ns| :: ns[k] in state && ns[k] in hasRun
        invariant Spec.CancelFrom(Snap(), ns, i) == goal
      {
        CancelAt(i);
        i := i + 1;
      }
    }

    /** One turn of the loop of cancel: notifyCancel of the listed node at `i`. */
    method CancelAt(i: nat)
      requires i < |nodes| && forall k | i <= k < |nodes| :: nodes[k] in state && nodes[k] in hasRun
      modifies this
      ensures nodes == old(nodes) && forall k | i < k < |nodes| :: nodes[k] in state && nodes[k] in hasRun
      ensures Spec.CancelFrom(Snap(), nodes, i + 1) == Spec.CancelFrom(old(Snap()), nodes, i)
    {
      NotifyCancel(nodes[i]);
    }

    /** runNextNode: moves the cursor past the finished current node; past the
        last node it stays where it is. */
    method RunNextNode()
      requires currentIndex >= -1
      requires current != null && currentIndex + 1 < |nodes| ==> nodes[currentIndex + 1] in state
      modifies this
      ensures Snap() == Spec.RunNextNode(old(Snap()))
    {
      var node := current;
      if node == null {
        return;
      }
      var nextIndex := currentIndex + 1;
      if nextIndex >= |nodes| {
        return;
      }
      currentIndex := nextIndex;
      current := nodes[nextIndex];
      NotifyRun(nodes[nextIndex]);
    }

    /** notifyRun of node `n`. */
    method NotifyRun(n: Node)
      requires n in state
      modifies this
      ensures Snap() == Spec.NotifyRun(old(Snap()), n)
    {
      if state[n] == None {
        state := state[n := Run];
        queue := queue + [Spec.RunNode(n)];
      }
    }

    /** notifyCancel of node `n`. */
    method NotifyCancel(n: Node)
      requires n in state && n in hasRun
      modifies this
      ensures Snap() == Spec.NotifyCancel(old(Snap()), n)
    {
      if state[n] != Finish {
        state := state[n := Finish];
        if hasRun[n] {
          queue := queue + [Spec.NodeCancel(n)];
        }
      }
    }

    /** The body of nextNode for node `n`, bound to this chain. */
    method NextNodeOf(n: Node)
      requires Valid() && n in state
      modifies this
      ensures Valid() && Snap() == Spec.NextNode(old(Snap()), n)
    {
      Spec.NextNodeValid(Snap(), n);
      FinishAndRunNext(n);
    }

    /** nextNode on node `n`: a running node finishes, its onFinish is posted
        and the chain moves on. */
    method FinishAndRunNext(n: Node)
      requires n in state && currentIndex >= -1
      requires current != null && currentIndex + 1 < |nodes| ==> nodes[currentIndex + 1] in state
      modifies this
      ensures Snap() == Spec.NextNode(old(Snap()), n)
    {
      if state[n] == Run {
        state := state[n := Finish];
        queue := queue + [Spec.NodeFinish(n)];
        RunNextNode();
      }
    }

    /** The handler runs the oldest posted task and returns the callbacks
        that ran. */
    method Dispatch() returns (fired: seq<Event<Node>>)
      requires Valid()
      modifies this
      ensures Valid() && (Snap(), fired) == Spec.Dispatch(old(Snap()))
    {
      Spec.DispatchValid(Snap());
      fired := RunTask();
    }

    /** The oldest posted task runs; a run task re-reads its node's state. */
    method RunTask() returns (fired: seq<Event<Node>>)
      requires queue != [] && queue[0].RunNode? ==> queue[0].node in state
      modifies this
      ensures (Snap(), fired) == Spec.Dispatch(old(Snap()))
    {
      if queue == [] {
        return [];
      }
      var task := queue[0];
      queue := queue[1..];
      match task {
        case RunNode(n) =>
          if state[n] == Run {
            hasRun := hasRun[n := true];
            fired := [Ran(n)];
          } else {
            fired := [];
          }
        case NodeCancel(n) =>
          fired := [Cancelled(n), Finished(n)];
        case NodeFinish(n) =>
          fired := [Finished(n)];
      }
      trace := trace + fired;
    }

    /** The handler runs every posted task while no callback calls back into
        the chain. */
    method Drain()
      requires Valid()
      modifies this
      ensures Valid() && Snap() == Spec.Drain(old(Snap()))
    {
      while queue != []
        invariant Valid()
        invariant forall x | x in queue && x.RunNode? :: x.node in state
        invariant Spec.Drain(Snap()) == Spec.Drain(old(Snap()))
        decreases |queue|
      {
        var f := Dispatch();
      }
    }
  }
}
