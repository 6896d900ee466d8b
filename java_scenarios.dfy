/** Whole runs of the chain of FChain.java, driven the way the demo tests
    drive the chain: every node calls nextNode at the end of its onRun, a node
    may cancel the chain from one of its callbacks, and waiting for the main
    thread to go idle runs the handler until its queue is empty. Each scenario
    builds its own chain and nodes, and states the callbacks delivered in
    order. This revision has no onFinish of its own for the chain, and keeps
    its cursor on the last node once every node has completed. */
module JavaScenarios {
  import opened Lifecycle
  import Spec = JavaSpec
  import opened JavaChain

  /** Nodes `ns`, all distinct, listed in this order, bound and never
      dispatched; no cancel running, nothing posted, nothing delivered. */
  ghost predicate Idle<N>(c: Spec.Chain<N>, ns: seq<N>)
  {
    && c.nodes == ns && c.index == -1 && c.current == Null && !c.cancelling
    && c.queue == [] && c.trace == []
    && (forall a, b | 0 <= a < b < |ns| :: ns[a] != ns[b])
    && (forall i | 0 <= i < |ns| :: ns[i] in c.state && c.state[ns[i]] == None)
    && (forall i | 0 <= i < |ns| :: ns[i] in c.hasRun && !c.hasRun[ns[i]])
  }

  /** start on an idle, non-empty chain runs its first node: the natural run
      begins. */
  lemma StartBegins<N>(c: Spec.Chain<N>, ns: seq<N>)
    requires Idle(c, ns) && ns != []
    ensures Spec.Start(c).1 == Spec.Done && Spec.NaturalAt(Spec.Start(c).0, ns, 0)
  {
    assert ns[..0] == [];
  }

  /** cancel at node `j` of a natural run in which at most node `j` ran and
      had not finished: every node finishes, the list is cleared, and only
      node `j`, if its onRun fired, gets its onCancel-and-onFinish task. */
  lemma CancelAt<N>(c: Spec.Chain<N>, ns: seq<N>, j: int)
    requires c.nodes == ns && !c.cancelling
    requires forall k | 0 <= k < |ns| :: ns[k] in c.state && ns[k] in c.hasRun
    requires forall a, b | 0 <= a < b < |ns| :: ns[a] != ns[b]
    requires forall k | 0 <= k < |ns| && k != j :: !c.hasRun[ns[k]] || c.state[ns[k]] == Finish
    ensures var d := Spec.Cancel(c);
      && d.current == Null && d.nodes == [] && d.trace == c.trace && d.state.Keys == c.state.Keys
      && (forall k | 0 <= k < |ns| :: d.state[ns[k]] == Finish)
      && d.queue == c.queue + (if 0 <= j < |ns| && c.hasRun[ns[j]] && c.state[ns[j]] != Finish then [Spec.NodeCancel(ns[j])] else [])
  {
    Spec.CancelFromQuiet(c.(cancelling := true), ns, 0, j);
    Spec.CancelFromStates(c.(cancelling := true), ns, 0);
    Spec.CancelFromFrame(c.(cancelling := true), ns, 0);
  }

  /** cancel while the current node's run task is still queued: every node
      finishes without any callback, and nothing more is posted. */
  lemma CancelQueued<N>(c: Spec.Chain<N>, ns: seq<N>, j: int)
    requires Spec.NaturalAt(c, ns, j)
    ensures var d := Spec.Cancel(c);
      && d.current == Null && d.nodes == [] && d.trace == c.trace
      && d.queue == [Spec.RunNode(ns[j])] && ns[j] in d.state && d.state[ns[j]] == Finish
  {
    CancelAt(c, ns, j);
  }

  /** The node running in a natural run cancels the chain from its onRun,
      then calls nextNode, which finds it finished and does nothing. */
  lemma CancelInRun<N>(c: Spec.Chain<N>, ns: seq<N>, j: int)
    requires Spec.NaturalAt(c, ns, j)
    ensures var c1 := Spec.Dispatch(c).0;
      && c1.current == Some(ns[j]) && ns[j] in c1.state && ns[j] in c1.hasRun
      && var c2 := Spec.Cancel(c1);
      && ns[j] in c2.state && c2.index >= -1
      && Spec.NextNode(c2, ns[j]) == c2
      && c2.current == Null && c2.nodes == []
      && c2.queue == [Spec.NodeCancel(ns[j])]
      && Spec.Drain(c2).current == Null
      && Spec.Drain(c2).trace == NaturalTrace(ns[..j]) + [Ran(ns[j]), Cancelled(ns[j]), Finished(ns[j])]
  {
    Spec.RunTaskFires(c, ns[j]);
    var c1 := Spec.Dispatch(c).0;
    CancelAt(c1, ns, j);
    DrainCancelled(Spec.Cancel(c1), ns[j]);
  }

  /** The only node of a started chain calls nextNode before its run task
      has run: it finishes, its onFinish is posted behind the stale run
      task, and the cursor stays on it. */
  lemma EarlyNext<N>(c: Spec.Chain<N>, ns: seq<N>)
    requires Spec.NaturalAt(c, ns, 0) && |ns| == 1
    ensures ns[0] in c.state && c.index >= -1
    ensures var d := Spec.NextNode(c, ns[0]);
      && d.current == Some(ns[0]) && d.trace == [] && ns[0] in d.state && d.state[ns[0]] == Finish
      && d.queue == [Spec.RunNode(ns[0]), Spec.NodeFinish(ns[0])]
  {
  }

  /** The handler, left with the run task of a node finished before it ran,
      delivers nothing. */
  lemma DrainSkipped<N>(c: Spec.Chain<N>, n: N)
    requires c.queue == [Spec.RunNode(n)] && n in c.state && c.state[n] == Finish
    ensures Spec.Drain(c).trace == c.trace && Spec.Drain(c).current == c.current
  {
    Spec.DrainDelivers(c);
    assert c.queue[1..] == [];
    assert Spec.Delivered(c.state, c.queue) == [] + [];
  }

  /** The handler, left with the run task of a node finished before it ran
      and that node's onFinish, delivers the onFinish. */
  lemma DrainEarly<N>(c: Spec.Chain<N>, n: N)
    requires c.queue == [Spec.RunNode(n), Spec.NodeFinish(n)] && n in c.state && c.state[n] == Finish
    ensures Spec.Drain(c).trace == c.trace + [Finished(n)] && Spec.Drain(c).current == c.current
  {
    Spec.DrainDelivers(c);
    var q1 := c.queue[1..];
    assert q1 == [Spec.NodeFinish(n)] && q1[1..] == [];
    assert Spec.Delivered(c.state, q1) == [Finished(n)];
    assert Spec.Delivered(c.state, c.queue) == [] + [Finished(n)];
  }

  /** The handler, left with a cancelled node's task, delivers its onCancel
      and then its onFinish. */
  lemma DrainCancelled<N>(c: Spec.Chain<N>, n: N)
    requires c.queue == [Spec.NodeCancel(n)]
    ensures Spec.Drain(c).trace == c.trace + [Cancelled(n), Finished(n)]
    ensures Spec.Drain(c).current == c.current
  {
    Spec.DrainDelivers(c);
    assert c.queue[1..] == [];
    assert Spec.Delivered(c.state, c.queue) == [Cancelled(n), Finished(n)] + [];
  }

  /** Node `j` of a natural run has completed and cancels the chain from its
      onFinish: the next node, dispatched but not yet run, gets nothing, and
      after the last node cancel only clears the list. Nothing more is
      delivered either way. */
  lemma CancelAfterFinish<N>(c: Spec.Chain<N>, ns: seq<N>, j: int)
    requires 0 <= j < |ns|
    requires j + 1 < |ns| ==> Spec.NaturalAt(c, ns, j + 1)
    requires j + 1 == |ns| ==> Spec.NaturalEnd(c, ns)
    requires forall a, b | 0 <= a < b < |ns| :: ns[a] != ns[b]
    ensures forall k | 0 <= k < |c.nodes| :: c.nodes[k] in c.state && c.nodes[k] in c.hasRun
    ensures var d := Spec.Cancel(c);
      && (forall x | x in d.queue && x.RunNode? :: x.node in d.state)
      && Spec.Drain(d).current == Null
      && Spec.Drain(d).trace == NaturalTrace(ns[..j + 1])
  {
    if j + 1 < |ns| {
      CancelQueued(c, ns, j + 1);
      DrainSkipped(Spec.Cancel(c), ns[j + 1]);
    } else {
      assert ns[..j + 1] == ns;
      CancelAt(c, ns, -1);
      Spec.DrainDelivers(Spec.Cancel(c));
    }
  }

  /** A fresh chain holding `k` fresh nodes, not started. */
  method Build(k: nat) returns (chain: FChain, ns: seq<Node>)
    ensures fresh(chain) && chain.Valid() && |ns| == k && Idle(chain.Snap(), ns)
  {
    chain := new FChain();
    ns := [];
    while |ns| < k
      invariant chain.Valid() && |ns| <= k && Idle(chain.Snap(), ns)
      decreases k - |ns|
    {
      var n := new Node();
      var r := chain.Add(n);
      ns := ns + [n];
    }
  }

  /** Node `j` runs: its onRun fires, it calls nextNode, and its onFinish
      fires. The chain then sits at the next node, or stays on the last one
      with nothing posted. */
  method Step(chain: FChain, ns: seq<Node>, j: int)
    requires chain.Valid() && Spec.NaturalAt(chain.Snap(), ns, j)
    modifies chain
    ensures chain.Valid()
    ensures j + 1 < |ns| ==> Spec.NaturalAt(chain.Snap(), ns, j + 1)
    ensures j + 1 == |ns| ==> Spec.NaturalEnd(chain.Snap(), ns)
  {
    Spec.NaturalStep(chain.Snap(), ns, j);
    var fired := chain.Dispatch();
    var r := ns[j].NextNode();
    fired := chain.Dispatch();
  }

  /** Nodes `0` to `j - 1` of a natural run complete one after the other. */
  method RunUntil(chain: FChain, ns: seq<Node>, j: nat)
    requires chain.Valid() && Spec.NaturalAt(chain.Snap(), ns, 0) && j <= |ns|
    modifies chain
    ensures chain.Valid()
    ensures j < |ns| ==> Spec.NaturalAt(chain.Snap(), ns, j)
    ensures j == |ns| ==> Spec.NaturalEnd(chain.Snap(), ns)
  {
    var i := 0;
    while i < j
      invariant 0 <= i <= j && chain.Valid()
      invariant i < |ns| ==> Spec.NaturalAt(chain.Snap(), ns, i)
      invariant i == |ns| ==> Spec.NaturalEnd(chain.Snap(), ns)
      decreases j - i
    {
      Step(chain, ns, i);
      i := i + 1;
    }
  }

  /** Every node completes by itself: each node's onRun then onFinish, in
      list order. An empty chain does not start; a chain that ran to its end
      does not start again, its cursor still on the last node. */
  method RunAll(k: nat) returns (ns: seq<Node>, started: Spec.Outcome, trace: seq<Event<Node>>, again: Spec.Outcome)
    ensures |ns| == k
    ensures started == (if k > 0 then Spec.Done else Spec.NotStarted)
    ensures trace == NaturalTrace(ns) && again == Spec.NotStarted
  {
    var chain;
    chain, ns := Build(k);
    if k > 0 {
      StartBegins(chain.Snap(), ns);
    }
    started := chain.Start();
    if k > 0 {
      RunUntil(chain, ns, k);
    }
    trace := chain.trace;
    again := chain.Start();
  }

  /** cancel right after start, before anything ran: no node gets any
      callback. */
  method CancelAfterStart(k: nat) returns (trace: seq<Event<Node>>, size: nat)
    ensures trace == [] && size == 0
  {
    var chain, ns := Build(k);
    if k > 0 {
      StartBegins(chain.Snap(), ns);
    }
    var started := chain.Start();
    if k > 0 {
      CancelQueued(chain.Snap(), ns, 0);
      chain.Cancel();
      DrainSkipped(chain.Snap(), ns[0]);
      chain.Drain();
    } else {
      chain.Cancel();
    }
    trace := chain.trace;
    size := chain.Size();
  }

  /** Node `j` cancels the chain from its onRun, then calls nextNode: the
      nodes before it complete, it gets onRun, onCancel and onFinish, the
      nodes after it get nothing. */
  method CancelOnRun(k: nat, j: nat) returns (ns: seq<Node>, r: Spec.Outcome, trace: seq<Event<Node>>)
    requires j < k
    ensures |ns| == k && r == Spec.Done
    ensures trace == NaturalTrace(ns[..j]) + [Ran(ns[j]), Cancelled(ns[j]), Finished(ns[j])]
  {
    var chain;
    chain, ns := Build(k);
    StartBegins(chain.Snap(), ns);
    var started := chain.Start();
    RunUntil(chain, ns, j);
    CancelInRun(chain.Snap(), ns, j);
    var fired := chain.Dispatch();
    chain.Cancel();
    r := ns[j].NextNode();
    chain.Drain();
    trace := chain.trace;
  }

  /** Node `j` cancels the chain from its onFinish: the nodes up to it
      complete, and the node after it, already dispatched, gets nothing. */
  method CancelOnFinish(k: nat, j: nat) returns (ns: seq<Node>, trace: seq<Event<Node>>)
    requires j < k
    ensures |ns| == k
    ensures trace == NaturalTrace(ns[..j + 1])
  {
    var chain;
    chain, ns := Build(k);
    StartBegins(chain.Snap(), ns);
    var started := chain.Start();
    RunUntil(chain, ns, j);
    Step(chain, ns, j);
    CancelAfterFinish(chain.Snap(), ns, j);
    chain.Cancel();
    chain.Drain();
    trace := chain.trace;
  }

  /** start twice on a one-node chain: the first call starts it, the second
      is refused, and so is a third once the node has completed. */
  method StartTwice() returns (first: Spec.Outcome, second: Spec.Outcome, afterRun: Spec.Outcome)
    ensures first == Spec.Done && second == Spec.NotStarted && afterRun == Spec.NotStarted
  {
    var chain, ns := Build(1);
    StartBegins(chain.Snap(), ns);
    first := chain.Start();
    second := chain.Start();
    RunUntil(chain, ns, 1);
    afterRun := chain.Start();
  }

  /** add of `k` fresh nodes gives a chain of size `k`. */
  method SizeAfterAdds(k: nat) returns (size: nat)
    ensures size == k
  {
    var chain, ns := Build(k);
    size := chain.Size();
  }

  /** add of a node already added, to the same chain or to another, is
      refused; the chain keeps one copy. */
  method AddTwice() returns (first: Spec.Outcome, again: Spec.Outcome, elsewhere: Spec.Outcome, size: nat)
    ensures first == Spec.Done && again == Spec.AlreadyAdded && elsewhere == Spec.AlreadyAdded && size == 1
  {
    var chain := new FChain();
    var other := new FChain();
    var node := new Node();
    first := chain.Add(node);
    again := chain.Add(node);
    elsewhere := other.Add(node);
    size := chain.Size();
  }

  /** nextNode on a node never added is refused; on a node added but not yet
      run it is accepted and changes nothing. */
  method NextNodeErrors() returns (unbound: Spec.Outcome, early: Spec.Outcome, stateAfter: NodeState, queued: nat)
    ensures unbound == Spec.NotInitialized && early == Spec.Done && stateAfter == None && queued == 0
  {
    var node := new Node();
    unbound := node.NextNode();
    var chain := new FChain();
    var r := chain.Add(node);
    early := node.NextNode();
    stateAfter := chain.StateOf(node);
    queued := |chain.queue|;
  }

  /** The only node calls nextNode after start but before its run task has
      run: its onRun never fires, yet its onFinish is delivered. */
  method EarlyNextNode() returns (r: Spec.Outcome, ns: seq<Node>, trace: seq<Event<Node>>)
    ensures r == Spec.Done && |ns| == 1 && trace == [Finished(ns[0])]
  {
    var chain;
    chain, ns := Build(1);
    StartBegins(chain.Snap(), ns);
    var started := chain.Start();
    EarlyNext(chain.Snap(), ns);
    r := ns[0].NextNode();
    DrainEarly(chain.Snap(), ns[0]);
    chain.Drain();
    trace := chain.trace;
  }
}
