# FChain: a verified model of a chain of nodes

FChain runs a list of nodes one after another on Android's main thread. A node
is added to exactly one chain. `start` dispatches the first node, and each node
calls `nextNode` when its work is done, which dispatches the next node. `cancel`
stops the chain. A node's phase goes `None` → `Run` → `Finish` (the older
revision's `cancel` can also finish a node that never ran). Its callbacks
(`onRun`, `onCancel`, `onFinish`) are posted to a handler bound to the main
looper and run later, in posting order, on that thread.

The repository holds two revisions of this class, and both are modelled:

- `lib/src/main/java/com/sd/lib/chain/FChain.kt`, the current one. It adds
  `isRunning` and a chain-level `onFinish`. When the last node finishes, or on
  `cancel`, it clears the list. A node that was finished before its `onRun` ran
  gets no `onCancel` or `onFinish`.
- `lib/src/main/java/com/sd/lib/chain/FChain.java`, the earlier one. It has a
  `mIsDispatchCancel` flag that guards `add` and `cancel`. Its `cancel` walks
  the whole list. After the last node the cursor stays on that node. Its
  `nextNode` on a node that is not running does nothing.

Each revision is modelled in three layers.

- `KotlinSpec` / `JavaSpec` model the chain as a value, `Chain<N>`. It holds:
  - the list and the cursor;
  - each bound node's `_state` and `_hasRun`, in maps keyed by node;
  - the handler's queue of posted tasks;
  - the trace of user callbacks delivered so far.

  Every function of the source is a pure function on this value. `Dispatch`
  runs the oldest posted task. `Drain` runs them all. An invariant `Valid`
  combines:
  - the bookkeeping;
  - list order (nodes before the cursor have finished, nodes after it are
    untouched);
  - a per-node ledger. The ledger counts, for each node, the callbacks
    delivered plus tasks still queued, against the node's phase.

  Every operation is proved to keep `Valid`. The user-visible promises follow
  from the ledger.
- `KotlinChain` / `JavaChain` hold the classes `Node` and `FChain`. Their fields
  are updated in place, with `modifies` frames. Each public method (`add`,
  `start`, `cancel`, `nextNode`, a handler step, draining the handler) needs
  and keeps `Valid()`. Its new state, read through `Snap()`, is the spec
  function of the same name applied to the old one. The internal steps
  (`notifyRun`, `notifyCancel`, `runNextNode`, `finish`, a node finishing,
  one task running, the cancel loop and one turn of it) are proved equal to
  the spec functions they implement, without needing `Valid()`:
  - `FinishAndRunNext` equals `NextNode`;
  - `CancelListed` and `CancelAt` equal the fold `CancelFrom`.

  `Node.Init` binds a node; its contract speaks of the node's `chain` field.
- `KotlinScenarios` / `JavaScenarios` replay the instrumented tests of
  `app/src/androidTest/java/com/sd/demo/chain/ChainTest.kt`. Each test builds
  its own chain and nodes. Every node calls `nextNode` at the end of its
  `onRun`. A node may call `cancel` from a callback. Waiting for the main
  thread to go idle drains the handler. Each scenario's contract states the
  exact sequence of callbacks delivered.

`Lifecycle` holds what both revisions share:
- the node phases;
- the callback events;
- `NaturalTrace`, the callbacks of an uninterrupted run: `onRun`, `onFinish`
  for each node, in list order.

The spec functions carry the source's own branches. Exceptions the public API
throws become `Outcome` values:
- `AlreadyAdded`: "Node has been added to";
- `NotInitialized`: "has not been added"/"initialized";
- `NextBeforeRun`: "Can not call nextNode() before onRun()";
- `CancelInProgress`: "Cannot add node when canceling.";
- `IllegalNodeState`: "Illegal node state".

The internal `check`s of the source are proved never to fail from a `Valid`
state, so they are not modelled as branches: `notifyRun`'s `None` check,
`checkFinish`, and the Java `runNextNode` "Current node has not finished"
check.

## Model

| member | source | states |
|---|---|---|
| Lifecycle.NaturalTraceAt | app/src/androidTest/java/com/sd/demo/chain/ChainTest.kt:94-102 | in an uninterrupted run, node `i`'s onRun and onFinish are at positions `2i` and `2i+1`: nodes run strictly in list order, each finishing before the next runs |
| Lifecycle.NaturalTraceOnce | app/src/androidTest/java/com/sd/demo/chain/ChainTest.kt:94-102 | in an uninterrupted run of distinct nodes, each listed node gets exactly one onRun and one onFinish, and never onCancel |
| Lifecycle.NaturalTraceStep | app/src/androidTest/java/com/sd/demo/chain/ChainTest.kt:94-102 | the trace of the first `j+1` nodes extends that of the first `j` by node `j`'s onRun then onFinish |
| KotlinSpec.DrainDelivers | lib/src/main/java/com/sd/lib/chain/FChain.kt:116-140 | running every posted task empties the queue, and appends exactly the callbacks the queue owed to the trace; list, cursor and node phases are unchanged |
| KotlinSpec.NotifyRunOwed | lib/src/main/java/com/sd/lib/chain/FChain.kt:116-130 | dispatching an untouched node keeps every node's ledger: the run task it posts is the node's only one |
| KotlinSpec.AddValid | lib/src/main/java/com/sd/lib/chain/FChain.kt:32-36 | adding an unbound node keeps the invariant: the node is last, untouched and owed nothing |
| KotlinSpec.StartValid | lib/src/main/java/com/sd/lib/chain/FChain.kt:42-52 | start keeps the invariant. It returns true exactly for an idle, non-empty chain. It then runs the first node, which was untouched, so notifyRun's check holds, and counts one more start. Otherwise the chain is unchanged |
| KotlinSpec.RunNextNodeValid | lib/src/main/java/com/sd/lib/chain/FChain.kt:64-79 | from a chain whose current node has just finished, runNextNode restores the invariant. It runs the next node, or after the last node finishes the chain; checkFinish holds |
| KotlinSpec.NotifyCancelOwed | lib/src/main/java/com/sd/lib/chain/FChain.kt:132-140 | cancelling the running node keeps every ledger. The node finishes. Counting queued and delivered, it has exactly one onCancel and one onFinish if its onRun ran, and none otherwise |
| KotlinSpec.FinishChainValid | lib/src/main/java/com/sd/lib/chain/FChain.kt:81-86 | once no node is running, finish keeps the invariant, with the chain's own onFinish posted |
| KotlinSpec.CancelValid | lib/src/main/java/com/sd/lib/chain/FChain.kt:57-62 | cancel keeps the invariant and leaves the chain idle; a running chain is also emptied |
| KotlinSpec.FinishNodeOwed | lib/src/main/java/com/sd/lib/chain/FChain.kt:151-155 | a running node that finishes keeps every ledger. Counting queued and delivered, it has exactly one onFinish if its onRun ran, and none otherwise |
| KotlinSpec.NextNodeValid | lib/src/main/java/com/sd/lib/chain/FChain.kt:145-160 | nextNode keeps the invariant. It is refused exactly for a node not yet dispatched. A finished node changes nothing. A running node is the current one; it finishes, and the node after it is untouched |
| KotlinSpec.FinishNodeAdvancing | lib/src/main/java/com/sd/lib/chain/FChain.kt:151-156 | the running node that finishes leaves the chain in the state runNextNode expects: the current node has finished |
| KotlinSpec.DispatchShape | lib/src/main/java/com/sd/lib/chain/FChain.kt:119-129 | running one task keeps the bookkeeping and the chain's own onFinish count consistent |
| KotlinSpec.DispatchValid | lib/src/main/java/com/sd/lib/chain/FChain.kt:119-129 | running one task keeps the invariant, and the callbacks it reports are exactly those appended to the trace |
| KotlinSpec.StartSteps | lib/src/main/java/com/sd/lib/chain/FChain.kt:42-52 | start, add and the handler keep every node's phase or make one legal move (None to Run, Run to Finish) |
| KotlinSpec.CancelSteps | lib/src/main/java/com/sd/lib/chain/FChain.kt:57-62 | cancel keeps every node's phase or moves it to Finish, and that move is a legal one: only a running node finishes |
| KotlinSpec.NextNodeSteps | lib/src/main/java/com/sd/lib/chain/FChain.kt:145-160 | nextNode keeps every node's phase or makes one legal move (None to Run, Run to Finish). With the two lemmas above, a node in this revision only goes None, Run, Finish, in that order |
| KotlinSpec.CallbacksNeedRun | lib/src/main/java/com/sd/lib/chain/FChain.kt:162-177 | in every reachable state, a node's onRun was delivered at most once, and its onCancel and onFinish at most as often as its onRun |
| KotlinSpec.DrainedNode | lib/src/main/java/com/sd/lib/chain/FChain.kt:162-177 | with nothing queued: onRun was delivered once iff the node ran, and a running node has had its onRun; onFinish once iff it ran and has finished; onCancel at most as often as onFinish |
| KotlinSpec.DrainedChain | lib/src/main/java/com/sd/lib/chain/FChain.kt:81-91 | with nothing queued, an idle chain has delivered its own onFinish exactly once per successful start |
| KotlinSpec.StartTwice | lib/src/main/java/com/sd/lib/chain/FChain.kt:42-52 | a second start right after the first returns false |
| KotlinSpec.CancelTwice | lib/src/main/java/com/sd/lib/chain/FChain.kt:57-62 | cancel is idempotent |
| KotlinSpec.NextNodeTwice | lib/src/main/java/com/sd/lib/chain/FChain.kt:148-150 | a running node calling nextNode twice: the second call succeeds and changes nothing |
| KotlinSpec.CancelThenNextNode | lib/src/main/java/com/sd/lib/chain/FChain.kt:145-160 | after cancel, the node that was running calling nextNode changes nothing |
| KotlinSpec.RunTaskFires | lib/src/main/java/com/sd/lib/chain/FChain.kt:119-129 | the run task of a running node records hasRun and delivers its onRun |
| KotlinSpec.FinishTaskFires | lib/src/main/java/com/sd/lib/chain/FChain.kt:154 | a queued finish task delivers the node's onFinish |
| KotlinSpec.NextNodeInRun | lib/src/main/java/com/sd/lib/chain/FChain.kt:145-160 | nextNode from inside the current node's onRun finishes it and posts its onFinish. It then runs the next node, or after the last node clears the chain and posts the chain's onFinish |
| KotlinSpec.NaturalStep | lib/src/main/java/com/sd/lib/chain/FChain.kt:116-160 | one node of an uninterrupted run: its onRun fires, it calls nextNode, its onFinish fires. The chain then sits at the next node, or is idle with the chain's onFinish queued and the full trace delivered |
| KotlinChain.Node.Init | lib/src/main/java/com/sd/lib/chain/FChain.kt:106-110 | binding succeeds exactly for an unbound node; a bound node keeps its binding |
| KotlinChain.Node.NextNode | lib/src/main/java/com/sd/lib/chain/FChain.kt:145-160 | an unbound node is refused with NotInitialized; otherwise the chain steps as the spec's nextNode |
| KotlinChain.FChain.constructor | lib/src/main/java/com/sd/lib/chain/FChain.kt:6-15 | a new chain is empty, idle and valid |
| KotlinChain.FChain.IsRunning | lib/src/main/java/com/sd/lib/chain/FChain.kt:20-21 | running iff the cursor is on a listed node, which is then in phase Run |
| KotlinChain.FChain.Size | lib/src/main/java/com/sd/lib/chain/FChain.kt:26-27 | the number of listed nodes; the cursor is inside the list while running |
| KotlinChain.FChain.Add | lib/src/main/java/com/sd/lib/chain/FChain.kt:32-36 | succeeds iff the node was unbound, then binds and appends it; otherwise AlreadyAdded, and nothing changes |
| KotlinChain.FChain.Start | lib/src/main/java/com/sd/lib/chain/FChain.kt:42-52 | the spec's start, keeping the invariant |
| KotlinChain.FChain.Cancel | lib/src/main/java/com/sd/lib/chain/FChain.kt:57-62 | the spec's cancel, keeping the invariant |
| KotlinChain.FChain.NextNodeOf | lib/src/main/java/com/sd/lib/chain/FChain.kt:147-159 | the spec's nextNode under the chain's monitor, keeping the invariant |
| KotlinChain.FChain.FinishNode | lib/src/main/java/com/sd/lib/chain/FChain.kt:151-155 | the running node finishes, and its onFinish is posted when its onRun ran |
| KotlinChain.FChain.RunNextNode | lib/src/main/java/com/sd/lib/chain/FChain.kt:64-79 | the spec's runNextNode |
| KotlinChain.FChain.FinishChain | lib/src/main/java/com/sd/lib/chain/FChain.kt:81-86 | the spec's finish |
| KotlinChain.FChain.NotifyRun | lib/src/main/java/com/sd/lib/chain/FChain.kt:116-130 | the spec's notifyRun |
| KotlinChain.FChain.NotifyCancel | lib/src/main/java/com/sd/lib/chain/FChain.kt:132-140 | the spec's notifyCancel |
| KotlinChain.FChain.Dispatch | lib/src/main/java/com/sd/lib/chain/FChain.kt:119-129 | the handler runs one task as the spec's Dispatch, keeping the invariant |
| KotlinChain.FChain.RunTask | lib/src/main/java/com/sd/lib/chain/FChain.kt:119-129 | the oldest task runs; a run task re-reads its node's phase under the monitor |
| KotlinChain.FChain.Drain | app/src/androidTest/java/com/sd/demo/chain/ChainTest.kt:92 | waiting for idle runs every task, ending as the spec's Drain |
| KotlinScenarios.StartBegins | lib/src/main/java/com/sd/lib/chain/FChain.kt:42-52 | start on an idle, non-empty chain begins an uninterrupted run at node 0 |
| KotlinScenarios.CancelQueued | lib/src/main/java/com/sd/lib/chain/FChain.kt:57-62 | cancel while the current node's run task is queued finishes it silently and posts only the chain's onFinish |
| KotlinScenarios.CancelInRun | app/src/androidTest/java/com/sd/demo/chain/ChainTest.kt:165-197 | a node cancelling from its onRun gets onCancel then onFinish, and the chain's onFinish follows |
| KotlinScenarios.EarlyNext | lib/src/main/java/com/sd/lib/chain/FChain.kt:145-160 | the only node calling nextNode before its onRun ran finishes the chain with no callback of its own queued |
| KotlinScenarios.DrainChainFinish | lib/src/main/java/com/sd/lib/chain/FChain.kt:85 | the chain's queued onFinish is delivered |
| KotlinScenarios.DrainSkipped | lib/src/main/java/com/sd/lib/chain/FChain.kt:119-129 | the run task of a node finished before it ran delivers nothing |
| KotlinScenarios.DrainCancelled | lib/src/main/java/com/sd/lib/chain/FChain.kt:136-137 | a cancelled node's onCancel, onFinish and the chain's onFinish arrive in that order |
| KotlinScenarios.CancelAfterFinish | app/src/androidTest/java/com/sd/demo/chain/ChainTest.kt:199-231 | cancel from node `j`'s onFinish leaves only the chain's onFinish to deliver, after the first `j+1` nodes' callbacks |
| KotlinScenarios.Build | app/src/androidTest/java/com/sd/demo/chain/ChainTest.kt:86-89 | `k` fresh nodes added to a fresh chain: listed in order, distinct, untouched |
| KotlinScenarios.Step | app/src/androidTest/java/com/sd/demo/chain/ChainTest.kt:234-261 | one node of an uninterrupted run, on the class |
| KotlinScenarios.RunUntil | app/src/androidTest/java/com/sd/demo/chain/ChainTest.kt:73-103 | after `j` steps the chain sits at node `j`, or at the end has delivered the full trace |
| KotlinScenarios.RunAll | app/src/androidTest/java/com/sd/demo/chain/ChainTest.kt:73-103 | start returns true iff there are nodes. Draining delivers onRun, onFinish per node in order, then the chain's onFinish, and the chain is no longer running |
| KotlinScenarios.CancelAfterStart | app/src/androidTest/java/com/sd/demo/chain/ChainTest.kt:105-133 | start then cancel delivers only the chain's onFinish |
| KotlinScenarios.CancelOnRun | app/src/androidTest/java/com/sd/demo/chain/ChainTest.kt:165-197 | cancel from node `j`'s onRun: earlier nodes run and finish, node `j` gets onRun, onCancel, onFinish, then the chain's onFinish; later nodes get nothing |
| KotlinScenarios.CancelOnFinish | app/src/androidTest/java/com/sd/demo/chain/ChainTest.kt:199-231 | cancel from node `j`'s onFinish: nodes up to `j` run and finish, then only the chain's onFinish |
| KotlinScenarios.StartTwice | app/src/androidTest/java/com/sd/demo/chain/ChainTest.kt:36-49 | not running before start; start returns true then false; running until the handler is idle, then not running |
| KotlinScenarios.SizeAfterAdds | app/src/androidTest/java/com/sd/demo/chain/ChainTest.kt:14-20 | after `k` adds the size is `k` |
| KotlinScenarios.AddTwice | app/src/androidTest/java/com/sd/demo/chain/ChainTest.kt:22-34 | adding a node again, to the same or another chain, is refused and the size stays 1 |
| KotlinScenarios.NextNodeErrors | app/src/androidTest/java/com/sd/demo/chain/ChainTest.kt:51-71 | nextNode on an unbound node fails with NotInitialized, and on a bound node before onRun with NextBeforeRun |
| KotlinScenarios.EarlyNextNode | lib/src/main/java/com/sd/lib/chain/FChain.kt:150-155 | a node calling nextNode before its onRun ran: only the chain's onFinish is delivered, no onFinish of the node |
| JavaSpec.CancelFromFrame | lib/src/main/java/com/sd/lib/chain/FChain.java:84-86 | the cancel loop changes only node phases and the queue: trace, list, cursor and flag stay |
| JavaSpec.DrainDelivers | lib/src/main/java/com/sd/lib/chain/FChain.java:152-224 | running every posted task empties the queue and appends exactly the callbacks the queue owed; list, cursor, phases and flag are unchanged |
| JavaSpec.NotifyRunOwed | lib/src/main/java/com/sd/lib/chain/FChain.java:152-174 | notifyRun keeps every ledger, whatever the node's phase |
| JavaSpec.NotifyCancelOwed | lib/src/main/java/com/sd/lib/chain/FChain.java:176-199 | notifyCancel keeps every ledger. A node that had not finished then has, counting queued and delivered, exactly one onCancel and one onFinish if its onRun ran, and none otherwise |
| JavaSpec.FinishNodeOwed | lib/src/main/java/com/sd/lib/chain/FChain.java:207-221 | a running node that finishes keeps every ledger. Counting queued and delivered, it then has exactly one onFinish, whether or not its onRun ran |
| JavaSpec.AddValid | lib/src/main/java/com/sd/lib/chain/FChain.java:35-46 | add keeps the invariant. It succeeds iff no cancel runs and the node is unbound, appending it last. It fails with CancelInProgress while cancelling, else AlreadyAdded. A refused add changes nothing |
| JavaSpec.StartValid | lib/src/main/java/com/sd/lib/chain/FChain.java:53-72 | start keeps the invariant and never throws "Illegal node state". It succeeds iff the chain is non-empty with no current node, running node 0. Otherwise nothing changes |
| JavaSpec.RunNextNodeValid | lib/src/main/java/com/sd/lib/chain/FChain.java:94-113 | from a valid chain whose current node has finished, runNextNode keeps the invariant; the "has not finished" check holds |
| JavaSpec.FinishNodeValid | lib/src/main/java/com/sd/lib/chain/FChain.java:207-221 | the running node that finishes keeps the invariant, and the cursor stays on it |
| JavaSpec.NextNodeValid | lib/src/main/java/com/sd/lib/chain/FChain.java:204-224 | nextNode keeps the invariant. It changes nothing unless the node was running. A running node is the current one; it finishes, and the node after it is untouched |
| JavaSpec.CancelFromStates | lib/src/main/java/com/sd/lib/chain/FChain.java:84-86 | the cancel loop finishes every node it visits and changes no other phase |
| JavaSpec.CancelValid | lib/src/main/java/com/sd/lib/chain/FChain.java:77-92 | cancel keeps the invariant and the flag. A cancel already in progress changes nothing. Otherwise every listed node is finished and the list and cursor are cleared |
| JavaSpec.FlagStaysDown | lib/src/main/java/com/sd/lib/chain/FChain.java:77-92 | after any sequence of add, start, cancel, nextNode and handler tasks the cancel flag is still down, so add never answers CancelInProgress |
| JavaSpec.DispatchValid | lib/src/main/java/com/sd/lib/chain/FChain.java:164-197 | running one task keeps the invariant, and the callbacks it reports are those appended to the trace |
| JavaSpec.StartSteps | lib/src/main/java/com/sd/lib/chain/FChain.java:53-72 | start, add and the handler keep every node's phase or make one legal move (None to Run, Run to Finish) |
| JavaSpec.NextNodeSteps | lib/src/main/java/com/sd/lib/chain/FChain.java:204-224 | nextNode keeps every node's phase or makes one legal move (None to Run, Run to Finish) |
| JavaSpec.CancelFinishes | lib/src/main/java/com/sd/lib/chain/FChain.java:77-92 | cancel keeps every node's phase or moves it to Finish. In this revision an untouched node can finish without ever running, but no node leaves Finish or returns to None |
| JavaSpec.CallbacksOnce | lib/src/main/java/com/sd/lib/chain/FChain.java:226-241 | in every reachable state a node's onRun and its onFinish were each delivered at most once, and its onCancel no more often than either |
| JavaSpec.DrainedNode | lib/src/main/java/com/sd/lib/chain/FChain.java:226-241 | with nothing queued: a running node had onRun and no onFinish; a node that ran and finished had one onFinish; an untouched node had no callback |
| JavaSpec.StartTwice | lib/src/main/java/com/sd/lib/chain/FChain.java:53-72 | a second start right after the first does not start |
| JavaSpec.CancelTwice | lib/src/main/java/com/sd/lib/chain/FChain.java:77-92 | cancel is idempotent |
| JavaSpec.NextNodeTwice | lib/src/main/java/com/sd/lib/chain/FChain.java:207-213 | a running node calling nextNode twice: the second call changes nothing |
| JavaSpec.CancelThenNextNode | lib/src/main/java/com/sd/lib/chain/FChain.java:204-224 | after cancel, the node that was running calling nextNode changes nothing |
| JavaSpec.RunTaskFires | lib/src/main/java/com/sd/lib/chain/FChain.java:164-172 | the run task of a running node records hasRun and delivers its onRun |
| JavaSpec.FinishTaskFires | lib/src/main/java/com/sd/lib/chain/FChain.java:216-221 | a queued finish task delivers the node's onFinish |
| JavaSpec.NaturalStep | lib/src/main/java/com/sd/lib/chain/FChain.java:94-224 | one node of an uninterrupted run: onRun fires, nextNode, onFinish fires. The chain sits at the next node, or at the end with the cursor on the last node and the full trace delivered |
| JavaSpec.CancelFromQuiet | lib/src/main/java/com/sd/lib/chain/FChain.java:84-86 | the cancel loop posts onCancel/onFinish only for a node that ran and has not finished |
| JavaChain.Node.Init | lib/src/main/java/com/sd/lib/chain/FChain.java:134-141 | binding succeeds exactly for an unbound node; a bound node keeps its binding |
| JavaChain.Node.NextNode | lib/src/main/java/com/sd/lib/chain/FChain.java:204-224 | an unbound node fails checkInit with NotInitialized; otherwise the chain steps as the spec's nextNode |
| JavaChain.FChain.constructor | lib/src/main/java/com/sd/lib/chain/FChain.java:11-23 | a new chain is empty, idle, not cancelling and valid |
| JavaChain.FChain.StateOf | lib/src/main/java/com/sd/lib/chain/FChain.java:130-132 | a node reported Run is the current one; a node reported None is not at or before the cursor |
| JavaChain.FChain.Size | lib/src/main/java/com/sd/lib/chain/FChain.java:28-30 | the number of listed nodes; the cursor is inside the list while there is a current node |
| JavaChain.FChain.Add | lib/src/main/java/com/sd/lib/chain/FChain.java:35-46 | the spec's add: binds and appends on success, changes nothing otherwise |
| JavaChain.FChain.Start | lib/src/main/java/com/sd/lib/chain/FChain.java:53-72 | the spec's start, keeping the invariant |
| JavaChain.FChain.Cancel | lib/src/main/java/com/sd/lib/chain/FChain.java:77-92 | the spec's cancel, keeping the invariant |
| JavaChain.FChain.CancelAll | lib/src/main/java/com/sd/lib/chain/FChain.java:78-91 | the spec's cancel; no node is unbound |
| JavaChain.FChain.CancelListed | lib/src/main/java/com/sd/lib/chain/FChain.java:84-86 | the loop notifies every listed node in order, as the spec's fold |
| JavaChain.FChain.CancelAt | lib/src/main/java/com/sd/lib/chain/FChain.java:85 | one turn of the loop advances the fold by one node |
| JavaChain.FChain.RunNextNode | lib/src/main/java/com/sd/lib/chain/FChain.java:94-113 | the spec's runNextNode |
| JavaChain.FChain.NotifyRun | lib/src/main/java/com/sd/lib/chain/FChain.java:152-174 | the spec's notifyRun |
| JavaChain.FChain.NotifyCancel | lib/src/main/java/com/sd/lib/chain/FChain.java:176-199 | the spec's notifyCancel |
| JavaChain.FChain.NextNodeOf | lib/src/main/java/com/sd/lib/chain/FChain.java:205-223 | the spec's nextNode, keeping the invariant |
| JavaChain.FChain.FinishAndRunNext | lib/src/main/java/com/sd/lib/chain/FChain.java:207-223 | the spec's nextNode on a bound node |
| JavaChain.FChain.Dispatch | lib/src/main/java/com/sd/lib/chain/FChain.java:164-221 | the handler runs one task as the spec's Dispatch, keeping the invariant |
| JavaChain.FChain.RunTask | lib/src/main/java/com/sd/lib/chain/FChain.java:164-221 | the oldest task runs; a run task re-reads its node's phase |
| JavaChain.FChain.Drain | app/src/androidTest/java/com/sd/demo/chain/ChainTest.kt:92 | waiting for idle runs every task, ending as the spec's Drain |
| JavaScenarios.StartBegins | lib/src/main/java/com/sd/lib/chain/FChain.java:53-72 | start on an idle, non-empty chain begins an uninterrupted run at node 0 |
| JavaScenarios.CancelAt | lib/src/main/java/com/sd/lib/chain/FChain.java:77-92 | cancelling a list whose only ran-and-unfinished node is node `j` finishes every node and posts onCancel/onFinish for node `j` alone |
| JavaScenarios.CancelQueued | lib/src/main/java/com/sd/lib/chain/FChain.java:77-92 | cancel while the current node's run task is queued finishes it with no callback posted |
| JavaScenarios.CancelInRun | app/src/androidTest/java/com/sd/demo/chain/ChainTest.kt:165-197 | a node cancelling from its onRun gets onCancel then onFinish, and its own later nextNode changes nothing |
| JavaScenarios.EarlyNext | lib/src/main/java/com/sd/lib/chain/FChain.java:204-224 | the only node calling nextNode before its onRun ran finishes, with its run task and an onFinish queued, and the cursor stays on it |
| JavaScenarios.DrainSkipped | lib/src/main/java/com/sd/lib/chain/FChain.java:164-172 | the run task of a node finished before it ran delivers nothing |
| JavaScenarios.DrainEarly | lib/src/main/java/com/sd/lib/chain/FChain.java:216-221 | a skipped run task followed by a finish task delivers onFinish alone |
| JavaScenarios.DrainCancelled | lib/src/main/java/com/sd/lib/chain/FChain.java:188-197 | a cancel task delivers onCancel then onFinish |
| JavaScenarios.CancelAfterFinish | app/src/androidTest/java/com/sd/demo/chain/ChainTest.kt:199-231 | cancel from node `j`'s onFinish delivers nothing more after the first `j+1` nodes' callbacks |
| JavaScenarios.Build | app/src/androidTest/java/com/sd/demo/chain/ChainTest.kt:86-89 | `k` fresh nodes added to a fresh chain: listed in order, distinct, untouched |
| JavaScenarios.Step | app/src/androidTest/java/com/sd/demo/chain/ChainTest.kt:234-261 | one node of an uninterrupted run, on the class |
| JavaScenarios.RunUntil | app/src/androidTest/java/com/sd/demo/chain/ChainTest.kt:73-103 | after `j` steps the chain sits at node `j`, or at the end has delivered the full trace |
| JavaScenarios.RunAll | app/src/androidTest/java/com/sd/demo/chain/ChainTest.kt:73-103 | start succeeds iff there are nodes; draining delivers onRun, onFinish per node in order; a later start is refused because the cursor stays on the last node |
| JavaScenarios.CancelAfterStart | app/src/androidTest/java/com/sd/demo/chain/ChainTest.kt:105-133 | start then cancel delivers no callback and leaves no node listed |
| JavaScenarios.CancelOnRun | app/src/androidTest/java/com/sd/demo/chain/ChainTest.kt:165-197 | cancel from node `j`'s onRun: earlier nodes run and finish, node `j` gets onRun, onCancel, onFinish; later nodes get nothing |
| JavaScenarios.CancelOnFinish | app/src/androidTest/java/com/sd/demo/chain/ChainTest.kt:199-231 | cancel from node `j`'s onFinish: nodes up to `j` run and finish, later nodes get nothing |
| JavaScenarios.StartTwice | app/src/androidTest/java/com/sd/demo/chain/ChainTest.kt:36-49 | start succeeds, a second start is refused, and start stays refused after the run |
| JavaScenarios.SizeAfterAdds | app/src/test/java/com/sd/demo/chain/ChainTest.kt:42-49 | after `k` adds the size is `k` |
| JavaScenarios.AddTwice | app/src/test/java/com/sd/demo/chain/ChainTest.kt:28-40 | adding a node again, to the same or another chain, is refused and the size stays 1 |
| JavaScenarios.NextNodeErrors | lib/src/main/java/com/sd/lib/chain/FChain.java:143-150 | nextNode on an unbound node fails with NotInitialized. On a bound node before onRun it silently does nothing: the phase stays None and nothing is posted |
| JavaScenarios.EarlyNextNode | lib/src/main/java/com/sd/lib/chain/FChain.java:204-224 | a node calling nextNode before its onRun ran is delivered onFinish without onRun |

## Left out

- The handler and the main looper are a FIFO queue of posted tasks, drained on
  demand. Threads, `synchronized` monitors and `volatile` are not modelled.
  Every public call and every handler task is one atomic step. So the Java
  `add`, which takes the monitor twice, is modelled as atomic.
- The Java `add` answer CancelInProgress (FChain.java:38) is unreachable in
  the source: `cancel` is `synchronized` and lowers `mIsDispatchCancel` before
  it releases the monitor, its loop calls only `notifyCancel`, and `add` reads
  the flag under the same monitor. The model keeps it only as a branch of
  `JavaSpec.Add`; `JavaSpec.FlagStaysDown` proves that it is never taken.
- User callback bodies are not modelled. `Drain` assumes callbacks do not call
  back into the chain. The scenarios interleave such calls explicitly, as the
  tests do.
- Exception messages are not modelled; each exception is an `Outcome` value.
  The tests' "Node has been initialized." message, `onStart` and `isStarted`
  belong to a revision of the chain that is not part of this model. The tests
  are matched on the behaviour both revisions share, with `isRunning` in place
  of `isStarted`.
- `testCancelChainOnStart` needs the chain's `onStart`, which neither revision
  has; it is not replayed.
- The Java `checkInit` branch "Node's handler is null." cannot fire: the
  handler is bound together with the chain. The only case modelled is the
  unbound node.
- The internal `check(...)` calls (`notifyRun`, `checkFinish`) and the Java
  "Current node has not finished" check are not branches of the model. Lemmas
  prove they hold in every valid state (`KotlinSpec.StartValid`,
  `KotlinSpec.NextNodeValid`, `JavaSpec.RunNextNodeValid`).
- A node's `_state` and `_hasRun` live in maps of the chain it is bound to,
  not in the node object. A node is bound to at most one chain, so this loses
  nothing.
- The abstract callback declarations (`onRun`, `onCancel`, `onFinish`, the
  chain's `onFinish`) appear only as events in the trace.
- `lib/src/main/assets/WebViewJavascriptBridge.js` and
  `app/src/main/java/com/sd/demo/chain/MainActivity.kt` are not part of this
  model: the bridge script is unrelated to the chain, and the activity is a
  demo UI.

## Findings

| source | as written | input that shows it | evidently intended | confidence | as-written member | corrected member |
|---|---|---|---|---|---|---|
| lib/src/main/java/com/sd/lib/chain/FChain.java:204-224 | `nextNode` posts the node's `onFinish` whenever the node was in phase Run. A node can be in Run before its `onRun` has been delivered. | a one-node chain, started, whose node calls `nextNode` before the handler has run its run task | a node gets no `onFinish` unless its `onRun` ran. The later revision guards the post with `_hasRun` (FChain.kt:153) and documents the rule (FChain.kt:173-176) | medium; not executed | JavaScenarios.EarlyNextNode | KotlinSpec.CallbacksNeedRun |
