/** Vocabulary shared by both revisions of the chain of nodes: the phase of a node,
    the user callbacks a chain delivers on its handler, and the callback trace of
    a chain whose every node completes by itself. */
module Lifecycle {

  /** The phase of a node: bound but not yet dispatched (`None`), dispatched
      (`Run`, its onRun may or may not have fired yet), terminal (`Finish`). */
  datatype NodeState = None | Run | Finish

  /** The moves a phase may make in one step: stay, None to Run, or Run to
      Finish. Finish is never left and None never re-entered. */
  predicate Moves(s: NodeState, s2: NodeState)
  {
    s2 == s || (s == None && s2 == Run) || (s == Run && s2 == Finish)
  }

  /** Every node of `st` is still there in `st2`, and made at most one of the
      moves above. */
  ghost predicate Steps<N>(st: map<N, NodeState>, st2: map<N, NodeState>)
  {
    forall n | n in st :: n in st2 && Moves(st[n], st2[n])
  }

  /** Every node of `st` is still there in `st2`, and either kept its phase or
      finished. */
  ghost predicate Finishes<N>(st: map<N, NodeState>, st2: map<N, NodeState>)
  {
    forall n | n in st :: n in st2 && (st2[n] == st[n] || st2[n] == Finish)
  }

  /** A user callback that actually ran on the handler's thread. `N` is the
      node type of the revision. */
  datatype Event<N> = Ran(node: N) | Cancelled(node: N) | Finished(node: N) | ChainFinished

  /** A nullable reference of the source. */
  datatype Opt<T> = Null | Some(value: T)

  /** The callbacks delivered for nodes `ns` when every node calls nextNode from
      inside its own onRun and nobody cancels: per node onRun then onFinish, in
      list order. */
  function NaturalTrace<N>(ns: seq<N>): seq<Event<N>>
  {
    if ns == [] then []
    else NaturalTrace(ns[..|ns| - 1]) + [Ran(ns[|ns| - 1]), Finished(ns[|ns| - 1])]
  }

  /** Nodes are run strictly in list order: node `i` is the `i`-th to run and it
      finishes before node `i + 1` runs. */
  lemma {:induction false} NaturalTraceAt<N>(ns: seq<N>, i: nat)
    requires i < |ns|
    ensures |NaturalTrace(ns)| == 2 * |ns|
    ensures NaturalTrace(ns)[2 * i] == Ran(ns[i])
    ensures NaturalTrace(ns)[2 * i + 1] == Finished(ns[i])
  {
    var init := ns[..|ns| - 1];
    if i < |ns| - 1 {
      NaturalTraceAt(init, i);
    } else if init != [] {
      NaturalTraceAt(init, 0);
    }
  }

  /** In a natural run of distinct nodes, each node gets exactly one onRun and
      one onFinish, no node gets onCancel, and no chain-level event appears. */
  lemma {:induction false} NaturalTraceOnce<N>(ns: seq<N>, n: N)
    requires forall i, j :: 0 <= i < j < |ns| ==> ns[i] != ns[j]
    ensures multiset(NaturalTrace(ns))[Ran(n)] == (if n in ns then 1 else 0)
    ensures multiset(NaturalTrace(ns))[Finished(n)] == (if n in ns then 1 else 0)
    ensures multiset(NaturalTrace(ns))[Cancelled(n)] == 0
    ensures multiset(NaturalTrace(ns))[ChainFinished] == 0
  {
    if ns != [] {
      var init := ns[..|ns| - 1];
      NaturalTraceOnce(init, n);
      assert ns == init + [ns[|ns| - 1]];
      assert ns[|ns| - 1] !in init;
    }
  }

  /** The natural trace of the first `j + 1` nodes extends that of the first
      `j` by node `j`'s onRun and onFinish. */
  lemma NaturalTraceStep<N>(ns: seq<N>, j: nat)
    requires j < |ns|
    ensures NaturalTrace(ns[..j + 1]) == NaturalTrace(ns[..j]) + [Ran(ns[j]), Finished(ns[j])]
    ensures j + 1 == |ns| ==> NaturalTrace(ns[..j + 1]) == NaturalTrace(ns)
  {
    assert ns[..j + 1][..j] == ns[..j];
    if j + 1 == |ns| {
      assert ns[..j + 1] == ns;
    }
  }
}
