# Flow execution engine of the visual flow editor

This project models the engine behind the editor's "Run" button, in
`frontend_app/src/App.js`. A diagram is a list of nodes and a list of
directed edges. A node has an id, a type (`js`, `input`, `output`, or
anything else), a label and script code.

Running the diagram has three parts:

- **Scheduling.** The engine builds an adjacency list and in-degree counts.
  It then does a depth-first traversal from every node with no incoming
  edge, in node-list order. Each node goes to the *front* of the execution
  order once all its successors are done.
- **The run loop.** The engine walks that order and threads a context
  through the scripts of `js` nodes. It numbers a step for each script run
  and for each input or output node. It stops at the first script that
  throws.
- **Logging.** Every line goes to the execution log. The log keeps its
  last 120 entries. The run also sets a status and a short output summary.

The editor's list edits that change the diagram before a run are modelled
too: creating an edge, deleting a node, and replacing an edited node.

Modules:

- `Wrappers` holds `Option` and `Result`.
- `Graph` holds nodes, edges, lookup, successors, in-degree, roots and reachability.
- `Scheduler` has two parts:
  - the traversal as functions (`Visit`, `VisitAll`, `VisitRoots`, `Order`);
  - the table-building loops and recursive visit as methods proved equal to those functions.
- `SchedulerProofs` holds what the order is.
- `ExecutionLog` holds `appendLog` and its 120-entry window.
- `GraphEdits` holds the three list edits.
- `Executor` has three parts:
  - what a run produces (`RunFrom`, `RunWith`, `Run`);
  - the imperative run (`RunLoop`, `Execute`), proved to produce exactly that;
  - lemmas on the shape of the log.

The script evaluator (`new Function(...)`) is a parameter `runner`. It maps
a node's code and the current context to an outcome:

- a return, `Returned(value, written)`. `value` is the returned value, or
  `None` when it is falsy. `written` is the context as the script left it.
  The script receives the context object itself, so its writes to it stay:
  after `ctx = fn(ctx) || ctx`, a truthy return becomes the new context,
  and a falsy one leaves the context as written (`Executor.CtxAtNext`);
- a throw: an error with a message, a value without one, or `null`/`undefined`.

A throw of `null` or `undefined` makes the inner `catch` itself throw when
it reads `err.message`. The outer `catch` then reports the failure, and no
closing banner follows. The model keeps this path.

Three behaviours of the code that a reader might not expect, which the model
keeps:

- Edges to or from missing nodes are not skipped. An edge from a missing
  node makes `adj[e.from].push` throw. An edge to a missing node makes
  `visit(undefined)` throw once a visited node reaches it. Both end the run
  in the outer `catch` (`Scheduler.Fault`, `Executor.CrashCauses`).
- Without edges, the order is the node list reversed, because every
  visited node goes to the front of the order
  (`SchedulerProofs.NoEdgesOrderIsReversed`).
- Node ids are not checked for uniqueness, and the model does not assume
  it. Lookups return the first node with the id, as `Array.prototype.find`
  does. Only the lemmas that need distinct ids require them.

## Model

| member | source | states |
|---|---|---|
| Graph.Find | frontend_app/src/App.js:772 | `nodes.find` by id: `None` exactly when no node has the id, otherwise the first node with that id |
| Graph.SuccessorsMembers | frontend_app/src/App.js:758-761 | an id is in a node's adjacency list exactly when an edge leads there from that node |
| Graph.InDegreeZero | frontend_app/src/App.js:758-764 | a node's counted in-degree is 0 exactly when no edge ends at it |
| Graph.Roots | frontend_app/src/App.js:764 | the start nodes are exactly the nodes with in-degree 0, kept in node-list order |
| Graph.FilterMultiset | frontend_app/src/App.js:697-698 | `filter` keeps every copy of each element that passes the test and no copy of one that fails |
| Scheduler.Order | frontend_app/src/App.js:752-776 | the order fails with the `push` fault exactly when some edge leaves an id that is no node |
| Scheduler.Visit | frontend_app/src/App.js:768-775 | a visit that succeeds leaves the node marked visited, and marks only node ids |
| Scheduler.VisitAll | frontend_app/src/App.js:771-773 | after visiting a node's successors, every one of them is marked visited |
| Scheduler.VisitRoots | frontend_app/src/App.js:776 | after `inputNodes.forEach(visit)`, every start node is marked visited |
| Scheduler.VisitRootsFault | frontend_app/src/App.js:768-776 | the traversal itself never raises the `push` fault, only the missing-target fault |
| Scheduler.InitTables | frontend_app/src/App.js:754-757 | both tables have one key per node id, each with an empty list and a count of 0 |
| Scheduler.AddEdges | frontend_app/src/App.js:758-761 | the edge loop succeeds exactly when every edge leaves a node; then `adj` lists each node's targets in edge order and `indeg` counts incoming edges |
| Scheduler.ComputeOrder | frontend_app/src/App.js:752-776 | the imperative scheduler returns exactly `Order` |
| Scheduler.VisitNode | frontend_app/src/App.js:768-775 | the recursive `visit` returns exactly the functional `Visit` |
| SchedulerProofs.VisitRootsSound | frontend_app/src/App.js:768-776 | the traversal keeps its invariant: the order lists each visited node once, and the visited set is closed under edges and reachable from the roots; the traversal succeeds whenever every edge target is a node |
| SchedulerProofs.OrderIsReachableSet | frontend_app/src/App.js:764-776 | a successful order holds diagram nodes with distinct ids, and an id is in it exactly when it is reachable from a node with in-degree 0 |
| SchedulerProofs.OrderFailsOnlyOnMissingNodes | frontend_app/src/App.js:758-773 | scheduling fails with the `push` fault exactly when an edge leaves a missing node, and fails at all only when some edge names a missing node |
| SchedulerProofs.NoEdgesOrderIsReversed | frontend_app/src/App.js:764-776 | with no edges and distinct ids the order is the node list reversed |
| SchedulerProofs.NoRootsEmptyOrder | frontend_app/src/App.js:764-776 | when every node has an incoming edge (a pure cycle, say), the order is empty |
| SchedulerProofs.AcyclicOrderRespectsEdges | frontend_app/src/App.js:752-776 | in an acyclic diagram whose edges name existing nodes, scheduling succeeds, every node id is in the order, and every edge goes from an earlier to a later position |
| ExecutionLog.AppendLog | frontend_app/src/App.js:665-672 | appending keeps the previous entries when under 120; otherwise it drops the oldest so that 120 remain; the new entry is last |
| ExecutionLog.AppendAllConcat | frontend_app/src/App.js:665-672 | two runs of appends in a row equal one run of appends over both lists |
| ExecutionLog.AppendAllKeepsLast | frontend_app/src/App.js:665-672 | any run of appends to a log of at most 120 entries leaves the last 120 entries of the old log followed by the new ones, in order |
| GraphEdits.CreateEdge | frontend_app/src/App.js:703-710 | the edge is present afterwards; nothing else is added; an existing edge is not duplicated; the old edges keep their positions |
| GraphEdits.CreateEdgeIdempotent | frontend_app/src/App.js:703-710 | creating the same edge twice equals creating it once |
| GraphEdits.CreateEdgeKeepsNoDuplicates | frontend_app/src/App.js:704-708 | edge creation never introduces a duplicate edge |
| GraphEdits.CreateEdgeKeepsEdgesValid | frontend_app/src/App.js:708 | an edge between existing nodes keeps every edge's ends valid |
| GraphEdits.DeleteNode | frontend_app/src/App.js:696-701 | no node with the id and no edge touching it remain; every other node and edge remains with all its copies, in order |
| GraphEdits.DeleteNodeKeepsEdgesValid | frontend_app/src/App.js:697-698 | deleting a node from a diagram whose edges are valid leaves no dangling edge |
| GraphEdits.ChangeNode | frontend_app/src/App.js:689-694 | the list keeps its length and ids; every node with the updated id is replaced by the updated node; every other node keeps its place |
| GraphEdits.ChangeNodeKeepsEdgesValid | frontend_app/src/App.js:689-692 | editing a node's settings never makes an edge dangle |
| GraphEdits.ChangeAbsentNode | frontend_app/src/App.js:690-692 | replacing a node whose id is absent changes nothing |
| Executor.NatToString | frontend_app/src/App.js:791-809 | the step number in a message is a non-empty string of decimal digits, with a leading zero only for 0 |
| Executor.NatToStringValue | frontend_app/src/App.js:791-809 | the digits of a step number read back as that number |
| Executor.Name | frontend_app/src/App.js:791-809 | a node is named by its label when the label is non-empty, and by its id otherwise (`node.label || node.id`); the name is empty only when both are |
| Executor.StepEntry | frontend_app/src/App.js:791-811 | a step line is logged as `stdout` |
| Executor.StepEntryNumber | frontend_app/src/App.js:791-811 | a step line starts with "Step " and the number after it reads back as the step number |
| Executor.StepEntryText | frontend_app/src/App.js:791-809 | after "Step " and its number, a step line says "Ran JS node" for a script, "Input node" for an input and "Output node" for an output, then gives the node's name (label, or id when the label is empty) in quotes |
| Executor.StepEntriesDiffer | frontend_app/src/App.js:791-811 | lines of different step numbers differ |
| Executor.ErrorEntry | frontend_app/src/App.js:795-797 | an error line is logged as `stderr` |
| Executor.ErrorEntryText | frontend_app/src/App.js:795 | an error line starts with the error mark and the node's name, and ends with the thrown message |
| Executor.RunFrom | frontend_app/src/App.js:785-813 | the loop's step counter rises by one per step line; a `break` leaves one `stderr` line last; a throw out of the loop carries the `null`/`undefined` message |
| Executor.RunFromKinds | frontend_app/src/App.js:785-813 | every line the loop logs is `stdout` except the error line of a `break`; none is a notification |
| Executor.StepsNumbered | frontend_app/src/App.js:791-811 | the k-th step line carries step number `step + k` and names the k-th logged node |
| Executor.RunFromFinished | frontend_app/src/App.js:785-813 | a loop that runs to the end logs one step per script, input or output node, numbered without gaps |
| Executor.CtxAtNext | frontend_app/src/App.js:789-790 | after a script returns, a truthy return value is the next context and a falsy one leaves the context as the script wrote it; any other node leaves the context unchanged |
| Executor.FirstThrow | frontend_app/src/App.js:785-803 | a position it returns is within the order and holds a script that throws on the context the loop holds there |
| Executor.FirstThrowIsFirst | frontend_app/src/App.js:785-803 | `FirstThrow` finds no position exactly when no script throws on its context, and otherwise no earlier script throws |
| Executor.RunFromStops | frontend_app/src/App.js:785-813 | the loop stops at the first throwing script, with the context threaded so far: an error breaks after the earlier steps and the error line with the thrown message; `null`/`undefined` throws out after the earlier steps; otherwise it runs to the end with the context after every node |
| Executor.RunFromFinishes | frontend_app/src/App.js:785-813 | the loop runs to the end exactly when no script throws on the context it is given |
| Executor.RunFromBroke | frontend_app/src/App.js:785-803 | a loop that breaks stopped at the first script that throws, which threw something other than `null`/`undefined`; it logs the steps before it and then the error naming it with the thrown message |
| Executor.RunFromFatal | frontend_app/src/App.js:785-831 | a loop that throws out stopped at the first throwing script, which threw `null`/`undefined`; it logs the steps before it, and the failure message is the one for that value |
| Executor.RunWith | frontend_app/src/App.js:739-832 | an empty diagram logs only the `stderr` error; otherwise the start banner comes first; a completed run ends with the completion message and the closing banner; a failed run ends with the error then the banner; a crash ends with the failure line, which is also the whole output |
| Executor.Run | frontend_app/src/App.js:739-832 | a scheduling fault in a diagram with nodes ends the run right after the start banner with the failure line; a run only completes or fails in a script when scheduling succeeded |
| Executor.RunBanners | frontend_app/src/App.js:749-831 | the notification entries of a run are exactly: none; start, done, end; start, end; or just start, for no nodes, completed, script failed and crashed |
| Executor.CompletedRunLog | frontend_app/src/App.js:785-824 | a completed run logs start, the numbered steps of every logged scheduled node, done, end |
| Executor.CompletesWithoutThrow | frontend_app/src/App.js:785-824 | a diagram with nodes completes exactly when it schedules and no scheduled script throws on the context it is given |
| Executor.FailedRunLog | frontend_app/src/App.js:785-824 | a failed run stopped at the first scheduled script that throws; it logs start, the steps before that script, the error naming it with the thrown message, end |
| Executor.CrashCauses | frontend_app/src/App.js:758-831 | a run crashes only on an edge from a missing node, on an edge to a missing node, or on a `null`/`undefined` throw |
| Executor.NoRootsRun | frontend_app/src/App.js:764-824 | a diagram in which every node has an incoming edge completes with start, done and end, and no step |
| Executor.WellFormedRunCompletes | frontend_app/src/App.js:752-824 | an acyclic diagram with distinct ids and valid edges, whose scripts never throw, completes and steps through every loggable node |
| Executor.NeverThrowsFinishes | frontend_app/src/App.js:785-813 | a loop whose scripts never throw runs to the end |
| Executor.RunLoop | frontend_app/src/App.js:778-813 | the imperative loop appends to the log exactly the lines `RunFrom` describes, builds the same summary lines and ends the same way |
| Executor.Execute | frontend_app/src/App.js:739-832 | `handleExecute` leaves the log, status and output that `Run` describes, appended one entry at a time |
| Executor.Finish | frontend_app/src/App.js:747-831 | after the empty check, the run appends the start banner, then either the failure line or the loop and its closing lines |
| Executor.FinishOrder | frontend_app/src/App.js:778-824 | the loop over a computed order, then done and end, or end alone, or the failure line |

## Left out

- Rendering, drag and drop, node positions, selection state and
  scrolling. They do not affect what a run does.
- `new Function(...)` and JavaScript evaluation. These become the `runner`
  parameter. Which writes a script makes is not modelled; only the context
  it leaves behind (`written`) and its return value are.
- State a script keeps outside the context: globals, the clock, randomness.
  `runner` is a function of the code and the context, so two runs of the
  same code on equal contexts give the same outcome here. In the browser
  they need not.
- Exhaustion of the JavaScript call stack. The recursive `visit` can
  overflow on a long chain of edges, and the outer `catch` then reports a
  `RangeError`. `Scheduler.Visit` recurses without such a limit, so the
  model never fails that way.
- Timestamps of log entries, which come from the clock.
- `pushNotification`, `setError` and the "Executing..." placeholder. The
  model returns a `Status` that says which of them a run would show.
- The output summary is a list of lines. The code joins it with newlines
  into one string.
- The exact wording of the engine's own `TypeError` messages (`push`,
  `id` and `message` reads) follows the V8 JavaScript engine. Other engines
  word them differently.
- Ids that clash with built-in object keys such as `constructor` or
  `__proto__`. In the code, these make the plain-object tables behave
  differently.
- Labels and code that are not strings.
- The edit handlers' notifications and the selection changes in
  `handleNodeChange` and `handleNodeDelete`.
- `GraphEdits.CreateEdge` checks for duplicates against the list it is
  given. The code checks the `edges` of the render that created the
  handler, which can be stale if two edges are created before a re-render.
- React's batching of state updates. Each handler's update is applied
  as one step.
- Saving and loading diagrams and the clear-log button. They are outside
  the engine.
