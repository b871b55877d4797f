# FlowMesh in Dafny

A model of the parts of FlowMesh that hold real algorithms and state machines, with proofs about
every input, every run and every reachable state. Code that mutates objects, dictionaries or tables
is modelled by classes and loops, each proved against a specification function or predicate; the
main results are lemmas about those.

`dafny verify dfyconfig.toml` checks the project.

| file | what it models |
|---|---|
| `schema.dfy`, `kahn.dfy`, `validation.dfy` | workflow definitions as multigraphs, walks and cycles; Kahn's loop; the schema check, the pre-flight check, reachability and depth |
| `templates.dfy`, `engine.dfy`, `resume.dfy` | template resolution and edge conditions; the resumable executor over persisted step records; what holds over whole run histories |
| `statuses.dfy`, `gates.dfy` | what a run record says after each event of a history: status, output, error and steps; which approval gate a decision settles |
| `uninterrupted.dfy`, `refinement.dfy`, `stability.dfy` | the run that never stops; resumed runs refine it exactly when edge conditions are stable; when they are |
| `stateful.dfy` | passes and histories whose nodes change what later nodes meet |
| `breaker.dfy`, `retry.dfy`, `retried.dfy` | the circuit breaker twice, in dictionaries and in Redis keys; the retry loop with backoff and dead letters; whole histories whose nodes run under it |
| `typo.dfy`, `ordering.dfy`, `index.dfy`, `search.dfy`, `fusion.dfy` | edit distance and typo matching; sorted vocabularies and bisection; the inverted index; lexical search; reciprocal rank fusion |
| `commands.dfy`, `buffer.dfy`, `agent.dfy`, `protocol.dfy`, `losses.dfy` | the edge command table, the agent's offline buffer, the agent's loops, the whole protocol over an unreliable network, and the results it loses |
| `ratelimit.dfy`, `traces.dfy`, `versions.dfy` | the sliding window, first-in first-out trace eviction, deploy, rollback and listing of versions |

## How the parts are represented

- One method models Kahn's loop of the schema check and of the pre-flight check, which differ only in
  what they report from the order it returns.
- A run is its step records, a status and an output. Connectors are a function from node, resolved
  configuration and context to success, failure or a crash. A history is a sequence of execute,
  approve and reject events, each with the life of its process: it may end within a dispatch, after
  any turn of the traversal, or between saving a decision and acting on it.
- Nodes that change what later nodes meet, such as breakers and retries, are a handler that threads a
  state through passes and histories. Since a pass runs each node at most once, it is also a pass over
  some world in the sense above, so every property of passes and histories holds of it.
- An attempt at a node may produce its output and still fail, when an exception comes while the success
  is being recorded; the same handler catches it and the node is attempted again.
- The uninterrupted run takes the planned output of every node and never stops. `Stable` says that no
  condition out of a visited node changes its value when the outputs of nodes visited later are
  already known. Resuming is transparent exactly under it. `ConditionsReadNotLater` (conditions read
  only the input and nodes the run visits no later than the edge's source) implies it, and so does
  `ConditionsLookBack`, a condition on the definition alone, checkable before any run.
- The protocol is a total step function over nineteen kinds of step. Requests and replies never leave
  the network, so each may arrive late, twice, or after a crash; poll responses are delivered at
  most once. A layer before the endpoint may turn any request away with one of the codes its setting
  allows, as the rate limiter does with 429, and the body limits refuse a request on sight of it. The
  history of executions, results, acknowledgements and losses is part of the state.
- Clocks, random jitter, network answers, local write failures and tokenizers are parameters.
- Scores, times and intervals are reals.

## Where the code does not do what its documentation suggests

- A resumed run re-evaluates the conditions of completed nodes against everything now recorded, so a
  condition that reads a node visited later than the edge's source may fire only on resume
  (`Stability.LateOutputsChangeTheRun`). `Refinement.TransparentIffStable` is the exact condition.
- Executing a run that waits for approval records a second waiting step, and a decision settles the
  first: of two approvals the second, meant for the next gate, overwrites the first, and the next gate
  stays open (`Gates.StaleStepTakesTheDecision`). `Gates.ApprovalCompletesItsGateExactly` is the exact
  condition.
- A node refused by an open circuit reports one attempt in its dead letter although nothing was
  dispatched, and a negative maximum is reported as it stands (`Retry.LetterCountsExactly`).
- An exception while a node's success is being recorded runs the node again, so it may deliver its
  output twice and still be reported as failed (`Retry.DeliversOnceExactly`, `Retry.UnbookedRunsAgain`).
- `fixed` backoff ignores the maximum interval (`Retry.BackoffShape`).
- A failure reported with a larger threshold than the one that opened the circuit reads CLOSED while
  the circuit stays OPEN (`Breaker.MisreportsExactlyWhen`, reached in `Breaker.MisreportIsReached`).
  That takes a caller with another threshold: the engine always passes three.
- A success on Redis is three commands. Failures between them can leave a tripped circuit CLOSED, above
  all while it recovers (`Breaker.InterleavedSuccessExactly`, `Breaker.RecoveryHidesTrip`), and a trip
  before the last of them loses its time (`Breaker.InterleavedSuccessLosesTheTime`).
- The pre-flight check reports a cycle, without naming a node on it, when an id is declared twice
  (`Validation.Preflight`). Only a definition object changed after its construction gets that far: a
  dictionary, which is what the endpoints pass, is refused by the schema first.
- Indexing a document under an id already there leaves the old postings behind
  (`Index.AddKeepsConsistentExactly`).
- Matching a prefix before the whole term can report more typos than the term has
  (`Typo.OverreportsExactly`), never more than twice as many (`Typo.PrefixAtMostDoubles`), and twice as
  many it can be (`Typo.PrefixDoubles`). The distance is the restricted form and violates the
  triangle inequality (`Typo.TriangleFails`).
- The agent takes every answer below 500 for delivery, and several of them deliver nothing. A throttled
  report is answered 429, not buffered, and never recorded (`Protocol.ThrottledIsDropped`); a body too
  large or too deep is answered 413 or 400; and the drain sends no tenant header, so a server that
  demands one answers 401 and the drain deletes the result (`Protocol.DrainedIsDropped`). `Protocol.AckedIsRecordedExactly`
  is the exact condition.
- The failed local write of a result is ignored, and a crash forgets the result in hand; these are the
  only steps that lose one (`Losses.LostExactly`), after which it is in no place of the agent
  (`Losses.LostIsNowhere`) and reaches the server only if a report of it is already under way
  (`Losses.RecoverableExactly`). `Losses.FailedWriteLoses` is a run in which it is gone for good.
- Twenty results at the head of the buffer that are never answered below 500, or carry no command id and
  so are never sent, stop the drain for good
  (`Agent.HeadBlocksForEver`).
- A command whose poll response is lost, or that is in hand at a crash, stays dispatched and is never
  executed (`Protocol.StrandedExactly`, `Protocol.StrandedForEver`).
- After a rollback below the newest version every deploy clashes with the unique index
  (`Versions.RollbackBlocksDeploys`).
- A workflow created by a webhook stores no version. Unless its versions are listed before the first
  deploy, its first definition is lost and cannot be rolled back to
  (`Versions.FirstDefinitionKeptExactly`, `Versions.IngressLosesItsDefinition`).
- The rate limiter's text promises the shared state store; the code keeps a module-level dictionary.
  With a limit of zero or less it fails instead of answering (`RateLimit.FaultsExactly`).

## Model

| member | source | states |
|---|---|---|
| `Kahn.VisitOrder` | packages/workflow-schema/flowmesh_workflow/schema.py:59-76 | Kahn's loop terminates with a duplicate-free topological order of exactly the declared nodes that are neither on a directed cycle nor downstream of one; it is complete if and only if ids are unique and the edges between declared nodes have no cycle |
| `Kahn.Adjacency` | services/workflow-engine/flowmesh_engine/validation.py:77-83 | the adjacency and in-degree dictionaries hold, per node, the targets of its edges in order and the number of edges into it, counting duplicates and skipping dangling edges |
| `Kahn.LeftOutBelowCycle` | services/workflow-engine/flowmesh_engine/validation.py:84-99 | any node the loop leaves out lies on a cycle or downstream of one |
| `Kahn.ExhaustedOrderCoversAcyclic` | services/workflow-engine/flowmesh_engine/validation.py:94-99 | a duplicate-free topological order after which every remaining node still waits for another remaining one holds exactly the nodes no cycle feeds, and all nodes exactly when the edges are acyclic |
| `Validation.ValidateDag` | packages/workflow-schema/flowmesh_workflow/schema.py:47-78 | accepts exactly well-formed acyclic definitions; otherwise reports duplicate ids first, then the first dangling edge (source before target), then a cycle |
| `Validation.ReachableFrom` | services/workflow-engine/flowmesh_engine/validation.py:107-122 | the breadth-first search returns exactly the nodes some entry reaches |
| `Validation.Distances` | services/workflow-engine/flowmesh_engine/validation.py:225-241 | every final distance is the number of nodes on a longest walk into that node through nodes no cycle feeds, duplicate edges allowed |
| `Validation.MaxDepth` | services/workflow-engine/flowmesh_engine/validation.py:219-241 | on an acyclic graph the estimated depth is the number of nodes on a longest directed path; on any other it is the longest path no cycle feeds |
| `Validation.Preflight` | services/workflow-engine/flowmesh_engine/validation.py:65-122 | for any definition: no duplicate, dangling edge or cycle is reported exactly when the schema check accepts; a cycle is reported exactly on a duplicate id or a cycle among the edges between declared nodes; the repeated ids and the dangling edges are listed in order, and the nodes a cycle feeds and the nodes no chosen entry reaches are listed exactly |
| `Validation.SourcesReachAll` | services/workflow-engine/flowmesh_engine/validation.py:101-122 | in an acyclic definition every node is reached from a node without incoming edges |
| `Templates.ResolveFrame` | services/workflow-engine/flowmesh_engine/engine.py:75-109 | two contexts that agree on every path a template names resolve it, nested dictionaries and lists included, to the same value |
| `Templates.NestedExactly` | services/workflow-engine/flowmesh_engine/engine.py:100-109 | a dotted path yields the value the named keys lead to, and `None` exactly when one of them is missing |
| `Templates.InterpolateConcat` | services/workflow-engine/flowmesh_engine/engine.py:86-91 | text is put together from left to right |
| `Templates.InterpolateOne` | services/workflow-engine/flowmesh_engine/engine.py:86-91 | a literal stands for itself; a hole shows a string as it is, `None` as nothing and anything else as it prints |
| `Templates.ResolveTextExactly` | services/workflow-engine/flowmesh_engine/engine.py:80-91 | a text that is one hole with only white space around it yields the hole's own value, whatever its type; any other text yields its segments put together |
| `Templates.ResolveEachExactly` | services/workflow-engine/flowmesh_engine/engine.py:93-97 | dictionaries keep their keys and lists their length and order, every entry resolved on its own; other values stay as they are |
| `Templates.ConditionFrame` | services/workflow-engine/flowmesh_engine/engine.py:112-123 | an edge condition depends only on the paths it names |
| `Templates.ConditionExactly` | services/workflow-engine/flowmesh_engine/engine.py:112-123 | when an edge fires, by the type of what its condition resolves to: a truth value decides, `None` never fires, a string fires unless it is false, 0, no, none, null or empty, anything else fires if it prints as true, 1 or yes, or prints as none of the former and is neither zero nor empty |
| `Templates.LiteralCondition` | services/workflow-engine/flowmesh_engine/engine.py:112-123 | a literal condition fires exactly when it is none of the six ways of saying no |
| `Templates.YesAndNo` | services/workflow-engine/flowmesh_engine/engine.py:119-123 | every text on the two lists decides as listed, in any case of letters |
| `Engine.RunStore.LoadCompleted` | services/workflow-engine/flowmesh_engine/engine.py:194-202 | recovery rebuilds exactly the steps recorded SUCCESS, the latest winning |
| `Engine.LatestSuccessWins` | services/workflow-engine/flowmesh_engine/engine.py:194-202 | recovery knows exactly the nodes with a SUCCESS record, each with the data of its latest one |
| `Engine.ContextExactly` | services/workflow-engine/flowmesh_engine/engine.py:187-192 | a path finds the input of the run, its tenant, its trace and its steps in the context, each under its own key, and nothing else |
| `Engine.StepsExactly` | services/workflow-engine/flowmesh_engine/engine.py:195-260 | of a completed step the context knows the output, key by key, and the duration; of any other node it knows nothing |
| `Engine.StartsExactly` | services/workflow-engine/flowmesh_engine/engine.py:209-216 | a pass starts at the nodes no edge points at, in the order of the definition, or at the first node when there is none |
| `Engine.FiringExactly` | services/workflow-engine/flowmesh_engine/engine.py:262-263 | exactly the edges that leave the node and whose condition holds fire, each once, in the order of the definition |
| `Engine.UnvisitedExactly` | services/workflow-engine/flowmesh_engine/engine.py:262-265 | the targets of fired edges that were not visited yet are enqueued, one for each edge, in order |
| `Engine.RunStore.WalkTurns` | services/workflow-engine/flowmesh_engine/engine.py:216-265 | the traversal loop equals the specified turns for as long as the process lives: same records, visiting order, fired edges, stop reason |
| `Engine.RunStore.Walk` | services/workflow-engine/flowmesh_engine/engine.py:194-265 | recovery and the loop together equal the specified pass, however long the process lives |
| `Engine.RunStore.Execute` | services/workflow-engine/flowmesh_engine/engine.py:145-314 | the run after one pass is the specified one, with status SUCCESS, FAILED or WAITING_APPROVAL and the output of the last node |
| `Engine.RunStore.ResumeApproval` | services/workflow-engine/flowmesh_engine/engine.py:340-426 | an approval settles the first waiting step and resumes; a rejection ends the run; a run that is not waiting is left alone |
| `Statuses.PassStopsBecause` | services/workflow-engine/flowmesh_engine/engine.py:222-265 | a pass breaks exactly with the error its last step records and the connector gave for that node's resolved configuration, parks only at a gate, and dies in a dispatch only at a node being run |
| `Statuses.PassExplained` | services/workflow-engine/flowmesh_engine/engine.py:222-265 | every record a pass adds, however long the process lives, has the node's configuration resolved in the context of exactly the successes recorded before it and the status the world gave it there; only the last one may be anything but a success |
| `Statuses.StatusAfter` | services/workflow-engine/flowmesh_engine/engine.py:237-275 | what each event makes of status, output and error: finished passes succeed with their last output, parked ones wait and broken ones fail, both without an output, rejected runs keep the reason as their error, and events that do not act change none of the three |
| `Statuses.RejectionEndsTheRun` | services/workflow-engine/flowmesh_engine/engine.py:364-382 | rejecting a waiting run ends it REJECTED, without an output and with the reason as its error; the first waiting step is rejected and every other step stays |
| `Statuses.DecisionIsSaved` | services/workflow-engine/flowmesh_engine/engine.py:358-393 | a decision is saved in the first waiting step, an approval as a success with the decision for output and a duration of one, before anything else happens |
| `Statuses.RejectedExactly` | services/workflow-engine/flowmesh_engine/engine.py:340-426 | after any history a run is REJECTED if and only if the last event that acted on it is a rejection |
| `Statuses.StatusIsHonest` | services/workflow-engine/flowmesh_engine/engine.py:237-382 | in every reachable state a run that succeeded has an output and no error, one that failed has the error of its last step, which FAILED, one that waits has neither, and one that was rejected has a reason |
| `Engine.TurnProgress` | services/workflow-engine/flowmesh_engine/engine.py:222-265 | every turn either shortens the queue or visits a new node, so the traversal terminates on any graph |
| `Resume.PassDispatchesOnce` | services/workflow-engine/flowmesh_engine/engine.py:222-265 | within one pass, wherever it is cut off, no node is dispatched twice and none recorded SUCCESS is dispatched; earlier records and outputs stay |
| `Resume.NeverDispatchedAgain` | services/workflow-engine/flowmesh_engine/engine.py:194-265 | across any history of execute, approve, reject, park and fail, in which the process may die after any turn, a node whose SUCCESS is recorded is never dispatched again, and its output stays unless an approval overwrites a completed gate |
| `Resume.OutputsKeptExactly` | services/workflow-engine/flowmesh_engine/engine.py:355-393 | one event keeps every recorded output exactly when it is not an approval that settles a waiting step of a gate completed before, with a different decision |
| `Resume.VisitsLeastClosedSet` | services/workflow-engine/flowmesh_engine/engine.py:204-265 | a completed pass visits exactly the least set containing the start nodes and closed under the edges that fired |
| `Resume.StartsAreSources` | services/workflow-engine/flowmesh_engine/engine.py:209-214 | for an accepted definition the start nodes are the nodes without incoming edges; the fallback to the first node is never taken |
| `Resume.EveryNodeDispatchedOnce` | services/workflow-engine/flowmesh_engine/engine.py:204-275 | over an accepted definition, a first pass that runs to the end with every edge out of a visited node firing dispatches every node exactly once and ends in SUCCESS |
| `Resume.NothingInTheWay` | services/workflow-engine/flowmesh_engine/engine.py:204-275 | without gates, conditions and failures the first pass is such a pass |
| `Gates.WaitingIsParked` | services/workflow-engine/flowmesh_engine/engine.py:314-338 | over any history in which no process dies between a decision and its effect, a run that waits for approval is parked at a gate without a decision |
| `Gates.GatesAreNeverDispatched` | services/workflow-engine/flowmesh_engine/engine.py:222-265 | no event hands a gate to a connector |
| `Gates.ApprovalCompletesItsGateExactly` | services/workflow-engine/flowmesh_engine/engine.py:355-393 | an approval completes the gate the run is parked at and keeps every recorded output if and only if the first step still waiting is that gate's |
| `Gates.StaleStepTakesTheDecision` | services/workflow-engine/flowmesh_engine/engine.py:355-393 | executed twice and approved twice, a run over two gates overwrites the first decision with the second and still waits at the second gate |
| `Uninterrupted.Simulate` | services/workflow-engine/flowmesh_engine/engine.py:216-265 | a pass resumed with the first nodes completed follows the uninterrupted run to its end or to the node that stops it |
| `Refinement.HistoryAgrees` | services/workflow-engine/flowmesh_engine/engine.py:194-426 | after every event of a history whose dispatches and decisions come out as planned, the records are those of the uninterrupted run up to some position |
| `Refinement.ResumeRefinesUninterrupted` | services/workflow-engine/flowmesh_engine/engine.py:194-265 | any chain of failed, crashed, parked, rejected and resumed passes that ends in SUCCESS has the visiting order, fired edges, step outputs and last output of one pass that never stops |
| `Refinement.ResumeRefinesUnderItsDecisions` | services/workflow-engine/flowmesh_engine/engine.py:194-426 | the same for any decisions actually taken, as long as no gate gets a second, different one: the run equals the uninterrupted one under the decisions it recorded |
| `Refinement.TransparentIffStable` | services/workflow-engine/flowmesh_engine/engine.py:262-265 | resuming follows the uninterrupted run from every interruption point, for all records, connectors and lives of the process, if and only if the edge conditions are stable |
| `Stability.ReadingNotLaterIsStable` | services/workflow-engine/flowmesh_engine/engine.py:262-265 | if conditions read only the input and nodes visited no later than the edge's source, they are stable |
| `Stability.ReadingNotLaterRefines` | services/workflow-engine/flowmesh_engine/engine.py:194-426 | with such conditions any chain of interrupted passes that ends in SUCCESS has the visiting order, fired edges, step outputs and last output of the uninterrupted run under the decisions it recorded |
| `Stability.LookingBackIsStable` | services/workflow-engine/flowmesh_engine/engine.py:262-265 | if conditions read only the input and nodes that dominate the edge's source, resuming never changes the run, whatever the connectors return |
| `Stability.LateOutputsChangeTheRun` | services/workflow-engine/flowmesh_engine/engine.py:262-265 | a concrete accepted definition whose resumed run visits a node the uninterrupted run never visits |
| `Breaker.MemoryStateStore.GetState` | packages/state-store/flowmesh_state/interface.py:98-107 | reading turns OPEN into HALF-OPEN exactly when the cooldown has elapsed, returns what is stored, and touches no other connection |
| `Breaker.MemoryStateStore.RecordFailure` | packages/state-store/flowmesh_state/interface.py:109-124 | a failure reopens a half-open circuit, or counts and trips at the threshold |
| `Breaker.RedisStateStore.RecordFailure` | packages/state-store/flowmesh_state/interface.py:218-244 | the script on three flat keys does the same to the connection they encode |
| `Breaker.KeysDistinct` | packages/state-store/flowmesh_state/interface.py:185-255 | no two connections share a key, whatever characters their ids contain |
| `Breaker.Lockstep` | packages/state-store/flowmesh_state/interface.py:185-255 | after any sequence of operations on any connections both stores have reported the same states, each the one its connection's history says, and both hold on every connection what its own events make of it |
| `Breaker.StateOfHistory` | packages/state-store/flowmesh_state/interface.py:98-136 | at a fixed threshold of at least one, after any history the circuit is not CLOSED exactly when that many failures came since the last success or reset, and HALF-OPEN exactly when the latest failure has cooled down as well |
| `Breaker.ReportsAreStored` | packages/state-store/flowmesh_state/interface.py:98-136 | at a fixed threshold every operation returns the state it leaves stored |
| `Breaker.MisreportsExactlyWhen` | packages/state-store/flowmesh_state/interface.py:109-124 | after any history with differing thresholds, the report of a failure is wrong exactly when an open circuit meets one below its own threshold |
| `Breaker.MisreportIsReached` | packages/state-store/flowmesh_state/interface.py:109-124 | one failure at threshold one and one at threshold five read CLOSED on an open circuit |
| `Breaker.InterleavedSuccessExactly` | packages/state-store/flowmesh_state/interface.py:246-250 | from any cell and with any operations between the three commands of a success, the circuit ends not CLOSED exactly when at least the threshold of failures came since the last success, unless the interleaving hides the trip, which is characterised by what came where; it never opens falsely |
| `Breaker.InterleavedSuccessLosesTheTime` | packages/state-store/flowmesh_state/interface.py:246-250 | an interleaving that leaves the circuit open has deleted the time of the trip, so the next query half-opens it |
| `Breaker.RecoveryHidesTrip` | packages/state-store/flowmesh_state/interface.py:246-250 | on a half-open circuit, the threshold of failures between the first two commands reopens it and ends CLOSED with the counter one short |
| `Breaker.HalfOpenIsReached` | packages/state-store/flowmesh_state/interface.py:98-124 | failures up to the threshold and a query after the cooldown half-open the circuit |
| `Retry.BackoffShape` | services/workflow-engine/flowmesh_engine/errors.py:77-105 | without jitter intervals never shrink; exponential and linear ones never exceed the maximum, fixed ones ignore it; jitter stays in the upper half |
| `Retry.IntervalExactly` | services/workflow-engine/flowmesh_engine/errors.py:92-99 | exponential backoff starts at the initial interval and doubles, linear backoff is the initial interval times the attempt, both up to the maximum; fixed backoff is the initial interval |
| `Retry.JitterExactly` | services/workflow-engine/flowmesh_engine/errors.py:101-105 | without jitter the pause is the interval, with jitter the point between half of it and all of it that the draw gives |
| `Retry.NodeRunner.BackOff` | services/workflow-engine/flowmesh_engine/engine.py:497-500 | sleeps the lesser of that pause and two seconds |
| `Retry.FinalAttemptIs` | services/workflow-engine/flowmesh_engine/engine.py:495-560 | the attempt counter stops at the first dispatch that is not a transient failure, or one past the maximum |
| `Retry.NodeRunner.Attempts` | services/workflow-engine/flowmesh_engine/engine.py:484-560 | the loop ends at that attempt with that outcome, leaves the breaker as the failures before it and the successes it was told of do, and sleeps the sum of the pauses before its repeats |
| `Retry.NodeRunner.ExecuteNode` | services/workflow-engine/flowmesh_engine/engine.py:428-608 | one execution's result, dispatches, dead letters, step status and breaker state as a function of the environment, exceptions while a success is being recorded included |
| `Retry.PausesAddUp` | services/workflow-engine/flowmesh_engine/engine.py:495-500 | no pause before the first dispatch, and before each further one the lesser of its backoff and two seconds |
| `Retry.CellExactly` | services/workflow-engine/flowmesh_engine/engine.py:456-560 | an open circuit stays as it was queried, with one dead letter for one attempt and no dispatch; a success closes the circuit; otherwise the transient failures count, unless the last attempt told the breaker of its output |
| `Retry.DeadLetterTellsTheTruth` | services/workflow-engine/flowmesh_engine/engine.py:484-637 | when the circuit is not open, a failure leaves exactly one dead letter and a success none, there are at most the maximum dispatches, all but the last transient failures, and the letter counts them exactly when the maximum is not negative |
| `Retry.LetterCountsExactly` | services/workflow-engine/flowmesh_engine/engine.py:456-482 | over all inputs, the letter counts the dispatches exactly when the node was not refused and the maximum is not negative |
| `Retry.DeliversOnceExactly` | services/workflow-engine/flowmesh_engine/engine.py:500-560 | a node that succeeds has produced its output once, and one that fails never, if and only if no dispatch was thrown away by an exception while its success was being recorded |
| `Retry.UnbookedRunsAgain` | services/workflow-engine/flowmesh_engine/engine.py:500-560 | one transient exception of that kind and the node delivers twice |
| `Retry.ThreeFailuresOpen` | services/workflow-engine/flowmesh_engine/engine.py:534-547 | three or more transient failures in a row leave the circuit open, counted from the last, whatever it was before; with a success recorded in between, exactly when three came since |
| `Retry.ExhaustionProtectsTheNext` | services/workflow-engine/flowmesh_engine/engine.py:456-560 | after a node has burnt three or more attempts the circuit is open exactly when three of them came since the breaker last took a success; then the next node on the connection within the cooldown is refused without a dispatch |
| `Stateful.StatefulPassIsAPass` | services/workflow-engine/flowmesh_engine/engine.py:216-265 | a pass over nodes whose execution changes what later nodes meet is, however long the process lives, a pass over some fixed world that follows every plan the nodes follow |
| `Stateful.StatefulHistoriesRefine` | services/workflow-engine/flowmesh_engine/engine.py:194-426 | any chain of interrupted passes over such nodes that ends in SUCCESS has the visiting order, fired edges, step outputs and last output of one pass that never stops, under the decisions it recorded |
| `Retried.TurnsTell` | services/workflow-engine/flowmesh_engine/engine.py:428-637 | over a whole pass under retries and breakers, the dead letter queue gains exactly one letter, naming the node last dispatched, if the pass failed, and none otherwise; the breakers stay consistent |
| `Retried.EveryFailureHasItsLetter` | services/workflow-engine/flowmesh_engine/engine.py:428-637 | over any history under retries and breakers, the dead letters that came in name exactly the nodes of the FAILED steps, one each, in order |
| `Typo.DamerauLevenshtein` | packages/search-engine/flowmesh_search/typo.py:22-55 | the table filled in place yields the distance of the recurrence, early exits included |
| `Typo.DistanceIsLeastCost` | packages/search-engine/flowmesh_search/typo.py:36-55 | that distance is the cost of some left-to-right script of keeping, substituting, inserting, deleting and swapping neighbours, and no script is cheaper |
| `Typo.Symmetric` | packages/search-engine/flowmesh_search/typo.py:36-55 | the distance is symmetric |
| `Typo.ZeroOnlyOnEqual` | packages/search-engine/flowmesh_search/typo.py:29-30 | it is zero exactly on equal words |
| `Typo.LengthBounds` | packages/search-engine/flowmesh_search/typo.py:28-55 | it is at least the difference of the lengths and at most the longer length |
| `Typo.TriangleFails` | packages/search-engine/flowmesh_search/typo.py:52-53 | for any three distinct letters, the way from CA over AC to ABC costs two and the direct way three |
| `Typo.MatchWithTypo` | packages/search-engine/flowmesh_search/typo.py:58-87 | a term is accepted exactly when it, or its requested prefix, equals the query or is within the allowance; the count is the true distance of the alternative reported, which is the prefix whenever that is acceptable and the term differs |
| `Typo.MatchesByLength` | packages/search-engine/flowmesh_search/typo.py:14-19 | below five letters only an equal term or a requested prefix matches, from five to eight whatever is within one typo of the term or its requested prefix, from nine on within two, never more than the caller allows |
| `Typo.MatchedExactly` | packages/search-engine/flowmesh_search/typo.py:58-87 | those facts determine the match |
| `Typo.NoTyposExactly` | packages/search-engine/flowmesh_search/typo.py:71-75 | no typos are reported exactly on an equal term or a requested prefix |
| `Typo.OverreportsExactly` | packages/search-engine/flowmesh_search/typo.py:77-87 | a match reports more typos than the whole term has exactly when its prefix is farther from the query than the term is and within the allowance |
| `Typo.PrefixAtMostDoubles` | packages/search-engine/flowmesh_search/typo.py:77-81 | a prefix match never reports more than twice the distance of the whole term |
| `Typo.PrefixDoubles` | packages/search-engine/flowmesh_search/typo.py:77-81 | a letter in front of nine others that never repeat their neighbour is one typo away and reported as two |
| `Ordering.BisectLeft` | packages/search-engine/flowmesh_search/index.py:110 | in a sorted list the result separates the words below from the others |
| `Ordering.PrefixRun` | packages/search-engine/flowmesh_search/index.py:110-117 | the words with a prefix form one run from the insertion point: none before it and none after the first miss |
| `Ordering.LessExactly` | packages/search-engine/flowmesh_search/index.py:48-72 | the order of the vocabulary: character by character, a proper prefix first |
| `Index.InvertedIndex.AddDocument` | packages/search-engine/flowmesh_search/index.py:29-51 | posts every occurrence of every token of every non-empty field behind what is posted, and nothing else; postings stay free of empty maps and the sorted terms equal the posting keys |
| `Index.InvertedIndex.RemoveDocument` | packages/search-engine/flowmesh_search/index.py:53-71 | takes out the document and all its postings, drops emptied terms from the map and the vocabulary, and leaves an unknown id alone |
| `Index.ScanExact` | packages/search-engine/flowmesh_search/index.py:33-51 | an occurrence at an attribute and position is listed for a term exactly when tokenizing that attribute yields the term there |
| `Index.OccurrencesExactly` | packages/search-engine/flowmesh_search/index.py:33-51 | a document contains a term exactly where tokenizing its id, title, joined tags, description or status yields it |
| `Index.OccurrencesInOrder` | packages/search-engine/flowmesh_search/index.py:33-51 | occurrences come attribute by attribute in that order, each from left to right |
| `Index.EveryHistoryIsConsistent` | packages/search-engine/flowmesh_search/index.py:29-71 | after any history of fresh adds and removes, the index posts exactly what scanning the surviving documents yields |
| `Index.AddKeepsConsistentExactly` | packages/search-engine/flowmesh_search/index.py:29-51 | adding keeps the index consistent if and only if the id is fresh or its old document yields no token |
| `Index.ConsistentIsUnique` | packages/search-engine/flowmesh_search/index.py:20-27 | a consistent index is determined by its documents |
| `Index.AddThenRemoveRestores` | packages/search-engine/flowmesh_search/index.py:29-71 | adding a fresh document and removing it restores the index |
| `Search.PrefixScan` | packages/search-engine/flowmesh_search/index.py:108-117 | bisecting and scanning to the first miss finds what filtering the whole vocabulary finds, in the same order |
| `Search.MatchingTerms` | packages/search-engine/flowmesh_search/index.py:101-123 | the collected terms equal those of plain scans of the vocabulary |
| `Search.MatchesExact` | packages/search-engine/flowmesh_search/index.py:105-123 | a term is collected exactly when it equals the query term, extends the last query term, or is accepted by the typo rules where few direct matches make the search look for typos, and is reported as those rules say |
| `Search.EachTermOnce` | packages/search-engine/flowmesh_search/index.py:119-123 | no term is collected twice, so no occurrence counts twice |
| `Search.LooksForTyposExactly` | packages/search-engine/flowmesh_search/index.py:119-123 | typos are looked for exactly when the query term has at least four letters and fewer than three vocabulary terms equal it or, for the last one, start with it |
| `Search.MatchesInOrder` | packages/search-engine/flowmesh_search/index.py:105-123 | the query term comes first, then the terms it is a prefix of, then those found only by the typo rules, all with at least one typo, each group in vocabulary order |
| `Search.SearchLexical` | packages/search-engine/flowmesh_search/index.py:79-158 | returns the best of the eligible documents that show a signal, best first by the ranker's score of their signals, cut as the limit says: no document left out scores higher than one returned; a query without tokens finds every eligible document, all alike |
| `Search.SearchAgreesWithScan` | packages/search-engine/flowmesh_search/index.py:95-144 | on a consistent index the signals are what scanning every document finds: a document is a candidate exactly when it is eligible and a matched term occurs in it, with all those occurrences |
| `Search.ScanReportsExactly` | packages/search-engine/flowmesh_search/index.py:125-144 | a signal is among a document's if and only if some query term, some term it matches and some occurrence of that term in the document have exactly its fields; there are as many signals as such occurrences |
| `Search.SearchIsTopOfScan` | packages/search-engine/flowmesh_search/index.py:79-158 | on a consistent index a search returns the best of what scanning every document finds |
| `Search.RankedExactly` | packages/search-engine/flowmesh_search/index.py:90-158 | what is ranked are the documents of the wanted types in which a term that some query term matches occurs, by the ranker's score of what the scan reports, or all of them alike for a query without tokens; the limit works as slicing does, negative ones included |
| `Fusion.Fuse` | packages/search-engine/flowmesh_search/fusion.py:15-36 | every id of either ranking comes out exactly once with the sum of its weighted reciprocal ranks, in non-increasing order; fails exactly when a rank makes the divisor zero |
| `Fusion.ScoresByRank` | packages/search-engine/flowmesh_search/fusion.py:26-32 | an id scores the lexical weight over k plus its lexical rank, plus the semantic weight over k plus its semantic rank; a ranking without it adds nothing |
| `Fusion.SortIsStable` | packages/search-engine/flowmesh_search/fusion.py:35 | the descending sort permutes its input and keeps equal scores in first-met order |
| `Fusion.RankedNoWorseScoresNoLower` | packages/search-engine/flowmesh_search/fusion.py:26-35 | an id ranked no worse than another in both lists, absence being worst, never scores lower |
| `Fusion.RankedBetterScoresHigher` | packages/search-engine/flowmesh_search/fusion.py:26-35 | with positive weights, an id ranked strictly better in one list and no worse in the other scores strictly higher and comes out earlier |
| `Commands.CommandTable.CreateCommand` | apps/api/app/repositories/tenant_scoped.py:646-676 | queues one more command behind the others, and an id already there changes nothing |
| `Commands.CommandTable.PollCommands` | apps/api/app/routers/agents.py:428-449 | hands out the pending commands and leaves exactly those dispatched |
| `Commands.PollHandsOutOnce` | apps/api/app/repositories/tenant_scoped.py:678-698 | a poll hands out at most ten distinct queued commands of that agent, changes nothing else, and leaves none queued when fewer than ten come back |
| `Commands.OldestFirst` | apps/api/app/repositories/tenant_scoped.py:678-688 | what is handed out is everything pending in an initial part of the table |
| `Commands.CommandTable.RecordResult` | apps/api/app/repositories/tenant_scoped.py:700-717 | overwrites status and result of a known command, reports an unknown one |
| `Buffer.OfflineBuffer.Delete` | apps/agent/internal/buffer/buffer.go:110-137 | exactly the rows asked for go, the rest stay in order, ids are never reused |
| `Buffer.EnqueuedInOrder` | apps/agent/internal/buffer/buffer.go:50-68 | what is put in comes last, in the order it came, under consecutive ids, and what was there stays |
| `Buffer.DrainedPrefix` | apps/agent/internal/buffer/buffer.go:70-137 | deleting what a peek shows leaves the rest in the order it came |
| `Agent.EdgeAgent.ReportResult` | apps/agent/internal/agent/agent.go:398-435 | the buffer gains the result exactly when no answer below 500 came and the local write succeeded |
| `Agent.EdgeAgent.PollAndExecute` | apps/agent/internal/agent/agent.go:243-271 | every command of the reply is processed once, in order, and reported |
| `Agent.ReportedAllExactly` | apps/agent/internal/agent/agent.go:243-271 | after the results of a poll are reported, the buffer holds what it held and behind that, in order, exactly those without an answer below 500 whose local write succeeded |
| `Agent.EdgeAgent.DrainBuffer` | apps/agent/internal/agent/agent.go:437-474 | the buffer loses the settled ones of its first twenty events |
| `Agent.DrainRemovesSettled` | apps/agent/internal/agent/agent.go:447-472 | exactly the heartbeats and the results answered below 500 among the first twenty events go |
| `Agent.DrainKeepsRow` | apps/agent/internal/agent/agent.go:447-472 | row by row: what stays is everything behind the first twenty, and of those the results without a command id, without an answer, or answered with 500 or more |
| `Agent.DrainIsStuckExactly` | apps/agent/internal/agent/agent.go:437-474 | a drain changes nothing if and only if none of the first twenty events is settled |
| `Agent.HeadBlocksForEver` | apps/agent/internal/agent/agent.go:437-474 | as long as the first twenty stay unsettled, no number of drains changes the buffer |
| `Agent.DrainsEmptyTheBuffer` | apps/agent/internal/agent/agent.go:437-474 | while everything sent is answered below 500, each drain takes the next twenty events, until none is left |
| `Protocol.ExecutedAtMostOnce` | apps/agent/internal/agent/agent.go:243-271 | in every run no command is executed twice, and none that no poll handed out |
| `Protocol.EveryResultAccountedFor` | apps/agent/internal/agent/agent.go:398-474 | in every reachable state the result of each executed command is in hand, in the buffer, acknowledged below 500, or lost |
| `Losses.LostExactly` | apps/agent/internal/agent/agent.go:398-435 | in every run a result is lost if and only if the agent crashed while it was in hand, or a report of it stayed unacknowledged and its local write failed |
| `Losses.LostIsNowhere` | apps/agent/internal/agent/agent.go:398-474 | in every run the lost results are exactly those executed that are neither in hand, nor in the buffer, nor acknowledged |
| `Losses.RecoverableExactly` | apps/api/app/routers/agents.py:466-498 | a lost result can still be recorded in some continuation if and only if it already is, or an unrefused request carrying it is under way |
| `Losses.FailedWriteLoses` | apps/agent/internal/agent/agent.go:412-435 | a concrete run: no answer, a failed local write, and no continuation ever records the result |
| `Protocol.RecordedIsProduced` | apps/api/app/repositories/tenant_scoped.py:700-717 | whatever result the server holds for a command is the one produced for it |
| `Protocol.NothingReturnsToTheQueue` | apps/api/app/repositories/tenant_scoped.py:690-717 | redelivery is idempotent: a dispatched command never returns to QUEUED and a row with its result never changes again |
| `Protocol.StrandedExactly` | apps/api/app/routers/agents.py:428-449 | in every run, a command handed out is on its way, in hand or executed, unless the response carrying it was lost or the agent crashed holding it |
| `Protocol.StrandedForEver` | apps/api/app/routers/agents.py:428-449 | a command lost in one of those ways is never executed later |
| `Protocol.AckedIsRecordedOrTurnedAway` | apps/agent/internal/agent/agent.go:413-461 | on any server and in every run, an acknowledged result is recorded, or a request carrying it was answered below 500 by a refusal the server's setting allows |
| `Protocol.AckedIsRecordedExactly` | apps/api/app/routers/agents.py:466-498 | an acknowledged result is a recorded one in every run if and only if no refusal below 500 can reach a report (the server accepts requests without the tenant header, no layer before it turns requests away, and the body limits let every result through) or the agent's own header gets it no commands |
| `Protocol.ThrottledIsDropped` | apps/api/app/middleware/rate_limiter.py:61-76 | a concrete run on any server that throttles: the report is answered 429, taken for delivered, not buffered, and never recorded |
| `Protocol.DrainedIsDropped` | apps/agent/internal/agent/agent.go:452-461 | a concrete run on a server that demands the header: the result is acknowledged, gone from the buffer, and not recorded |
| `Protocol.ReportIsARun` | apps/agent/internal/agent/agent.go:398-435 | whatever reporting a result does to the buffer is a run of the protocol |
| `Protocol.PollIsARun` | apps/agent/internal/agent/agent.go:243-271 | so is whatever the loop over a poll's commands does to it |
| `Protocol.DrainIsARun` | apps/agent/internal/agent/agent.go:437-474 | so is whatever the drain loop does to it |
| `RateLimit.RateLimiter.Dispatch` | apps/api/app/middleware/rate_limiter.py:50-78 | verdict and window are the specified ones and no other key's window changes |
| `RateLimit.NeverOverLimit` | apps/api/app/middleware/rate_limiter.py:54-78 | under a non-decreasing clock and a limit of at least one, no closed sixty-second interval of any run holds more admissions for one key than the limit |
| `RateLimit.AdmittedExactly` | apps/api/app/middleware/rate_limiter.py:50-83 | a request is admitted exactly when fewer than the limit were admitted for its key in the sixty seconds up to it, and is told how many more are left |
| `RateLimit.RetryAfterIsRight` | apps/api/app/middleware/rate_limiter.py:61-76 | after a rejection the key's next request is admitted exactly when the oldest counted admission is more than sixty seconds old; the advertised time suffices and one second less does not |
| `RateLimit.FaultsExactly` | apps/api/app/middleware/rate_limiter.py:61-62 | asking an empty window for its oldest entry happens exactly when the limit is not positive |
| `Traces.TraceStore.RecordSpan` | apps/api/app/observability/tracing.py:80-90 | appends to a held trace, admits a new one, evicts the oldest when full, and fails on an empty store without room |
| `Traces.RunHoldsNewest` | apps/api/app/observability/tracing.py:75-90 | after any spans the order is duplicate-free, equals the keys, and is the newest admissions up to the cap, each trace holding exactly its spans since it was admitted, in order |
| `Traces.SizeAndFailure` | apps/api/app/observability/tracing.py:80-90 | the store never exceeds its cap; with a cap below one it stays empty and fails on every span |
| `Versions.WorkflowRepository.DeployVersion` | apps/api/app/repositories/tenant_scoped.py:235-283 | appends the next version as the only active one, or leaves everything as it was on a clash |
| `Versions.WorkflowRepository.RollbackToVersion` | apps/api/app/repositories/tenant_scoped.py:285-330 | makes an existing version the only active and current one, with its stored definition |
| `Versions.WorkflowRepository.ListVersions` | apps/api/app/routers/workflows.py:433-448 | listing the versions of a workflow without any stores the current one as active |
| `Versions.StartsAreCoherent` | apps/api/app/routers/workflows.py:229-263 | workflows start coherent, whether created, seeded at any version number, or created by a webhook without a version |
| `Versions.AtMostOneActive` | apps/api/app/repositories/tenant_scoped.py:235-330 | from any coherent start, over any deploys, rollbacks and listings, at most one version is active and it is the current one; the workflow's definition is the one stored under the current number unless nothing was ever stored |
| `Versions.OperationsActivate` | apps/api/app/repositories/tenant_scoped.py:235-330 | a successful deploy or rollback leaves exactly the deployed or target version active, current, and with its definition in force |
| `Versions.DeploysExactlyAtTheTop` | apps/api/app/models/workflow.py:80-83 | a deploy succeeds exactly when the current version is the newest one stored, or none is; otherwise it changes nothing |
| `Versions.StoredForEver` | apps/api/app/repositories/tenant_scoped.py:235-330 | stored numbers and definitions never change; later operations only append |
| `Versions.RollbackBlocksDeploys` | apps/api/app/repositories/tenant_scoped.py:250-283 | rolled back below the newest version, no number of deploys changes anything |
| `Versions.FirstDefinitionKeptExactly` | apps/api/app/routers/webhooks.py:106-118 | a workflow that starts without a version can be rolled back to its first definition if and only if its versions were listed before the first deploy |
| `Versions.IngressLosesItsDefinition` | apps/api/app/routers/webhooks.py:106-118 | a concrete run: after the first deploy of such a workflow, rolling back to version 1 fails |

## Left out

- Breaker.RedisStateStore.RecordSuccess: taken as one atomic step, where the source sends three commands; the lemmas about interleaving say exactly what that hides.
- Retry.CalculateBackoff: real arithmetic without the rounding to three digits; the random draw is a parameter.
- Retry.NodeRunner.ExecuteNode: exceptions while a failure is being recorded, which leave the loop; for the run they are a process that dies in the dispatch.
- Fusion.Fuse: real arithmetic, so no rounding of the sums.
- Search.SearchLexical: the order among equal scores, which is the dictionaries' iteration order; the score itself is a parameter.
- Index.InvertedIndex.AddDocument: the tokenizer is any function from text to tokens, so its regular expressions, camel-case splitting and stop words are not modelled; `None` descriptions and statuses are empty strings.
- Engine.RunStore.Execute: timestamps, durations of the run, metrics, logs and spans; a step's measured duration is part of what the connector returns.
- Engine.RunStore.ResumeApproval: the definition is the one the run was started with; looking it up by version is not part of this model.
- Templates.Resolve: template strings are sequences of literal and hole segments; the regular expression that finds the holes and the text form of nested values are a parameter.
- Agent.EdgeAgent.DrainBuffer: an agent without a buffer; for reports it behaves like a failed local write.
- Protocol.ExecutedAtMostOnce: one agent, one tenant; signature and policy checks only decide which result a command produces.
- Protocol.AckedIsRecordedExactly: which requests the rate limiter turns away is left to the environment instead of its window, and a poll it turns away is a poll that does not happen; the other layers of the server answer nothing of their own.
- Commands.CommandTable.GetPending: creation times are the order of insertion; the tenant filter of the queries is a separate table per tenant.
- Versions.WorkflowRepository.DeployVersion: one workflow; the clash is found before the rows are touched instead of undone by the database.
- Versions.WorkflowRepository.ListVersions: the list it returns; only what it stores is modelled.
- RateLimit.RateLimiter.Dispatch: the exempt paths, the choice of key and the response headers other than the verdict.
- Validation.MaxDepth: every edge names declared nodes, which the schema check guarantees of any definition that can be built.
- Traces.TraceStore.RecordSpan: `get_trace` sorts a copy by start time and `get_summary` aggregates it; both only read.
- Error categories: the keyword lists that classify an exception; a dispatch says which category it raised.
- Connectors, edge dispatch of nodes, parallel branches inside a node, incidents, and HTTP plumbing: foreign calls.
- Concurrency between API requests and SQL sessions: each repository method is one atomic step.
- Cron scheduling and the agent's policy evaluator: pure functions that would add easy members.
- Cryptography, role checks, connector code, the web console and the worker services: library primitives, finite tables or no state of their own.
