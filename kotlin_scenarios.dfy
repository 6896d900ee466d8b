/** Whole runs of the chain of FChain.kt, driven the way
    app/src/androidTest/java/com/sd/demo/chain/ChainTest.kt and
    app/src/test/java/com/sd/demo/chain/ChainTest.kt drive it: every node
    calls nextNode at the end of its onRun, a node may cancel the chain from
    one of its callbacks, and waiting for the main thread to go idle runs the
    handler until its queue is empty. Each scenario builds its own chain and
    nodes, and states the callbacks delivered in order. */
module KotlinScenarios {
  import opened Lifecycle
  import Spec = KotlinSpec
  import opened KotlinChain

  /** Nodes `ns`, all distinct, listed in this order, bound and never
      dispatched; nothing posted, nothing delivered. */
  ghost predicate Idle<N>(c: Spec.Chain<N>, ns: seq<N>)
  {
    && c.nodes == ns && c.index == -1 && c.current == Null
    && c.queue == [] && c.trace == []
    && (forall a, b | 0 <= a < b < |ns| :: ns[a] != ns[b])
    && (forall i | 0 <= i < |ns| :: ns[i] in c.state && c.state[ns[i]] == None)
    && (forall i | 0 <= i < |ns| :: ns[i] in c.hasRun && !c.hasRun[ns[i]])
  }

  /** start on an idle, non-empty chain runs its first node: the natural run
      begins. */
  lemma StartBegins<N>(c: Spec.Chain<N>, ns: seq<N>)
    requires Idle(c, ns) && ns != []
    ensures Spec.Start(c).1 && Spec.NaturalAt(Spec.Start(c).0, ns, 0)
  {
    assert ns[..0] == [];
  }

  /** cancel while the current node's run task is still queued: the node is
      finished without any callback of its own, and only the chain's onFinish
      is posted. */
  lemma CancelQueued<N>(c: Spec.Chain<N>, ns: seq<N>, j: int)
    requires Spec.NaturalAt(c, ns, j)
    ensures var d := Spec.Cancel(c);
      && d.current == Null && d.nodes == [] && d.trace == c.trace
      && d.queue == [Spec.RunNode(ns[j]), Spec.ChainFinish] && d.state[ns[j]] == Finish
  {
  }

  /** The node running in a natural run cancels the chain from its onRun,
      then calls nextNode, which finds it finished and does nothing. */
  lemma CancelInRun<N>(c: Spec.Chain<N>, ns: seq<N>, j: int)
    requires Spec.NaturalAt(c, ns, j)
    ensures var c1 := Spec.Dispatch(c).0;
      && c1.current == Some(ns[j]) && ns[j] in c1.state && ns[j] in c1.hasRun
      && var c2 := Spec.Cancel(c1);
      && ns[j] in c2.state && ns[j] in c2.hasRun && c2.index >= -1
      && Spec.NextNode(c2, ns[j]) == (c2, Spec.Done)
      && c2.current == Null && c2.nodes == []
      && c2.queue == [Spec.NodeCancel(ns[j]), Spec.NodeFinish(ns[j]), Spec.ChainFinish]
      && Spec.Drain(c2).current == Null
      && Spec.Drain(c2).trace == NaturalTrace(ns[..j]) + [Ran(ns[j]), Cancelled(ns[j]), Finished(ns[j]), ChainFinished]
  {
    Spec.RunTaskFires(c, ns[j]);
    var c2 := Spec.Cancel(Spec.Dispatch(c).0);
    DrainCancelled(c2, ns[j]);
  }

  /** The only node of a started chain calls nextNode before its run task
      has run: it finishes without any callback of its own, and the chain
      finishes. */
  lemma EarlyNext<N>(c: Spec.Chain<N>, ns: seq<N>)
    requires Spec.NaturalAt(c, ns, 0) && |ns| == 1
    ensures ns[0] in c.state && ns[0] in c.hasRun && c.index >= -1
    ensures var d := Spec.NextNode(c, ns[0]);
      && d.1 == Spec.Done && d.0.current == Null && d.0.nodes == [] && d.0.trace == []
      && d.0.queue == [Spec.RunNode(ns[0]), Spec.ChainFinish] && d.0.state[ns[0]] == Finish
  {
  }

  /** The handler, left with the chain's onFinish only, delivers it. */
  lemma DrainChainFinish<N>(c: Spec.Chain<N>)
    requires c.queue == [Spec.ChainFinish]
    ensures Spec.Drain(c).trace == c.trace + [ChainFinished] && Spec.Drain(c).current == c.current
  {
    Spec.DrainDelivers(c);
    assert c.queue[1..] == [];
  }

  /** The handler, left with the run task of a node finished before it ran
      and the chain's onFinish, delivers only the latter. */
  lemma DrainSkipped<N>(c: Spec.Chain<N>, n: N)
    requires c.queue == [Spec.RunNode(n), Spec.ChainFinish] && n in c.state && c.state[n] == Finish
    ensures Spec.Drain(c).trace == c.trace + [ChainFinished] && Spec.Drain(c).current == c.current
  {
    Spec.DrainDelivers(c);
    var q1 := c.queue[1..];
    assert q1 == [Spec.ChainFinish] && q1[1..] == [];
    assert Spec.Delivered(c.state, q1) == [ChainFinished];
    assert Spec.Delivered(c.state, c.queue) == [] + [ChainFinished];
  }

  /** The handler, left with a cancelled node's onCancel and onFinish and the
      chain's onFinish, delivers all three in that order. */
  lemma DrainCancelled<N>(c: Spec.Chain<N>, n: N)
    requires c.queue == [Spec.NodeCancel(n), Spec.NodeFinish(n), Spec.ChainFinish]
    ensures Spec.Drain(c).trace == c.trace + [Cancelled(n), Finished(n), ChainFinished]
    ensures Spec.Drain(c).current == c.current
  {
    Spec.DrainDelivers(c);
    var q1 := c.queue[1..];
    var q2 := q1[1..];
    assert q1 == [Spec.NodeFinish(n), Spec.ChainFinish] && q2 == [Spec.ChainFinish] && q2[1..] == [];
    assert Spec.Delivered(c.state, q2) == [ChainFinished];
    assert Spec.Delivered(c.state, q1) == [Finished(n), ChainFinished];
    assert Spec.Delivered(c.state, c.queue) == [Cancelled(n), Finished(n), ChainFinished];
  }

  /** Node `j` of a natural run has completed and cancels the chain from its
      onFinish: the next node, dispatched but not yet run, gets nothing, and
      after the last node cancel finds the chain idle. Either way the chain's
      onFinish is the only callback still delivered. */
  lemma CancelAfterFinish<N>(c: Spec.Chain<N>, ns: seq<N>, j: int)
    requires 0 <= j < |ns|
    requires j + 1 < |ns| ==> Spec.NaturalAt(c, ns, j + 1)
    requires j + 1 == |ns| ==>
      && c.current == Null && c.nodes == [] && c.queue == [Spec.ChainFinish] && c.trace == NaturalTrace(ns)
    ensures c.current.Some? ==> c.current.value in c.state && c.current.value in c.hasRun
    ensures var d := Spec.Cancel(c);
      && (forall x | x in d.queue && x.RunNode? :: x.node in d.state)
      && Spec.Drain(d).current == Null
      && Spec.Drain(d).trace == NaturalTrace(ns[..j + 1]) + [ChainFinished]
  {
    if j + 1 < |ns| {
      CancelQueued(c, ns, j + 1);
      DrainSkipped(Spec.Cancel(c), ns[j + 1]);
    } else {
      assert ns[..j + 1] == ns;
      DrainChainFinish(c);
    }
  }

  /** A fresh chain holding `k` fresh nodes, not started. */
  method Build(k: nat) returns (chain: FChain, ns: seq<Node>)
    ensures fresh(chain) && chain.Valid() && |ns| == k && Idle(chain.Snap(), ns)
  {
    chain := new FChain();
    ns := [];
    while |ns| < k
      invariant chain.Valid() && |ns| <= k && Idle(chain.Snap(), ns)
      decreases k - |ns|
    {
      var n := new Node();
      var r := chain.Add(n);
      ns := ns + [n];
    }
  }

  /** Node `j` runs: its onRun fires, it calls nextNode, and its onFinish
      fires. The chain then sits at the next node, or is idle with its own
      onFinish posted. */
  method Step(chain: FChain, ns: seq<Node>, j: int)
    requires chain.Valid() && Spec.NaturalAt(chain.Snap(), ns, j)
    modifies chain
    ensures chain.Valid() && chain.starts == old(chain.starts)
    ensures j + 1 < |ns| ==> Spec.NaturalAt(chain.Snap(), ns, j + 1)
    ensures j + 1 == |ns| ==>
      && chain.current == null && chain.nodes == []
      && chain.queue == [Spec.ChainFinish] && chain.trace == NaturalTrace(ns)
  {
    Spec.NaturalStep(chain.Snap(), ns, j);
    var fired := chain.Dispatch();
    var r := ns[j].NextNode();
    fired := chain.Dispatch();
  }

  /** Nodes `0` to `j - 1` of a natural run complete one after the other. */
  method RunUntil(chain: FChain, ns: seq<Node>, j: nat)
    requires chain.Valid() && Spec.NaturalAt(chain.Snap(), ns, 0) && j <= |ns|
    modifies chain
    ensures chain.Valid()
    ensures j < |ns| ==> Spec.NaturalAt(chain.Snap(), ns, j)
    ensures j == |ns| ==>
      && chain.current == null && chain.nodes == []
      && chain.queue == [Spec.ChainFinish] && chain.trace == NaturalTrace(ns)
  {
    var i := 0;
    while i < j
      invariant 0 <= i <= j && chain.Valid()
      invariant i < |ns| ==> Spec.NaturalAt(chain.Snap(), ns, i)
      invariant i == |ns| ==>
        && chain.current == null && chain.nodes == []
        && chain.queue == [Spec.ChainFinish] && chain.trace == NaturalTrace(ns)
      decreases j - i
    {
      Step(chain, ns, i);
      i := i + 1;
    }
  }

  /** Every node completes by itself (testRunNodes): each node's onRun then
      onFinish, in list order, then the chain's onFinish; afterwards the chain
      is idle. An empty chain does not start. */
  method RunAll(k: nat) returns (ns: seq<Node>, started: bool, trace: seq<Event<Node>>, running: bool)
    ensures |ns| == k && (started <==> k > 0) && !running
    ensures trace == if k == 0 then [] else NaturalTrace(ns) + [ChainFinished]
  {
    var chain;
    chain, ns := Build(k);
    if k > 0 {
      StartBegins(chain.Snap(), ns);
    }
    started := chain.Start();
    if started {
      RunUntil(chain, ns, k);
      DrainChainFinish(chain.Snap());
      chain.Drain();
    }
    trace := chain.trace;
    running := chain.IsRunning();
  }

  /** cancel right after start, before anything ran
      (testCancelAfterChainStart): the first node gets no callback, only the
      chain's onFinish is delivered. */
  method CancelAfterStart(k: nat) returns (trace: seq<Event<Node>>, running: bool)
    ensures !running && trace == if k == 0 then [] else [ChainFinished]
  {
    var chain, ns := Build(k);
    if k > 0 {
      StartBegins(chain.Snap(), ns);
    }
    var started := chain.Start();
    if started {
      CancelQueued(chain.Snap(), ns, 0);
      chain.Cancel();
      DrainSkipped(chain.Snap(), ns[0]);
      chain.Drain();
    } else {
      chain.Cancel();
    }
    trace := chain.trace;
    running := chain.IsRunning();
  }

  /** Node `j` cancels the chain from its onRun, then calls nextNode
      (testCancelOnRun): the nodes before it complete, it gets onRun, onCancel
      and onFinish, the nodes after it get nothing, then the chain's onFinish. */
  method CancelOnRun(k: nat, j: nat) returns (ns: seq<Node>, r: Spec.Outcome, trace: seq<Event<Node>>, running: bool)
    requires j < k
    ensures |ns| == k && r == Spec.Done && !running
    ensures trace == NaturalTrace(ns[..j]) + [Ran(ns[j]), Cancelled(ns[j]), Finished(ns[j]), ChainFinished]
  {
    var chain;
    chain, ns := Build(k);
    StartBegins(chain.Snap(), ns);
    var started := chain.Start();
    RunUntil(chain, ns, j);
    CancelInRun(chain.Snap(), ns, j);
    var fired := chain.Dispatch();
    chain.Cancel();
    r := ns[j].NextNode();
    chain.Drain();
    trace := chain.trace;
    running := chain.IsRunning();
  }

  /** Node `j` cancels the chain from its onFinish (testCancelOnFinish): the
      nodes up to it complete, the node after it, already dispatched, gets
      nothing, then the chain's onFinish. */
  method CancelOnFinish(k: nat, j: nat) returns (ns: seq<Node>, trace: seq<Event<Node>>, running: bool)
    requires j < k
    ensures |ns| == k && !running
    ensures trace == NaturalTrace(ns[..j + 1]) + [ChainFinished]
  {
    var chain;
    chain, ns := Build(k);
    StartBegins(chain.Snap(), ns);
    var started := chain.Start();
    RunUntil(chain, ns, j);
    Step(chain, ns, j);
    CancelAfterFinish(chain.Snap(), ns, j);
    chain.Cancel();
    chain.Drain();
    trace := chain.trace;
    running := chain.IsRunning();
  }

  /** start twice on a one-node chain (testStart): a chain is not running
      before its first start; the first call starts it, the second is refused
      because it is running; once the node has completed and the handler is
      idle, the chain is no longer running. */
  method StartTwice() returns (runningBefore: bool, first: bool, second: bool, runningBetween: bool, runningAfter: bool)
    ensures !runningBefore && first && !second && runningBetween && !runningAfter
  {
    var chain, ns := Build(1);
    runningBefore := chain.IsRunning();
    StartBegins(chain.Snap(), ns);
    first := chain.Start();
    second := chain.Start();
    runningBetween := chain.IsRunning();
    RunUntil(chain, ns, 1);
    DrainChainFinish(chain.Snap());
    chain.Drain();
    runningAfter := chain.IsRunning();
  }

  /** add of `k` fresh nodes gives a chain of size `k` (testSize, test node
      size). */
  method SizeAfterAdds(k: nat) returns (size: nat)
    ensures size == k
  {
    var chain, ns := Build(k);
    size := chain.Size();
  }

  /** add of a node already added, to the same chain or to another, is
      refused (testErrorAddNode, test add node); the chain keeps one copy. */
  method AddTwice() returns (first: Spec.Outcome, again: Spec.Outcome, elsewhere: Spec.Outcome, size: nat)
    ensures first == Spec.Done && again == Spec.AlreadyAdded && elsewhere == Spec.AlreadyAdded && size == 1
  {
    var chain := new FChain();
    var other := new FChain();
    var node := new Node();
    first := chain.Add(node);
    again := chain.Add(node);
    elsewhere := other.Add(node);
    size := chain.Size();
  }

  /** nextNode on a node never added, then on a node added but not yet run
      (testErrorNextNode): both are refused. */
  method NextNodeErrors() returns (unbound: Spec.Outcome, early: Spec.Outcome)
    ensures unbound == Spec.NotInitialized && early == Spec.NextBeforeRun
  {
    var node := new Node();
    unbound := node.NextNode();
    var chain := new FChain();
    var r := chain.Add(node);
    early := node.NextNode();
  }

  /** The only node calls nextNode after start but before its run task has
      run: since its onRun never fired, it gets no onFinish either; only the
      chain's onFinish is delivered. */
  method EarlyNextNode() returns (r: Spec.Outcome, trace: seq<Event<Node>>, running: bool)
    ensures r == Spec.Done && trace == [ChainFinished] && !running
  {
    var chain, ns := Build(1);
    StartBegins(chain.Snap(), ns);
    var started := chain.Start();
    EarlyNext(chain.Snap(), ns);
    r := ns[0].NextNode();
    DrainSkipped(chain.Snap(), ns[0]);
    chain.Drain();
    trace := chain.trace;
    running := chain.IsRunning();
  }
}
