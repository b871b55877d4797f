/** Passes and histories whose nodes run under retries and circuit breakers. */
module Retried {
  import opened Templates
  import opened Schema
  import opened Engine
  import opened Stateful
  import Breaker
  import Retry

  // --- Nodes under retries ---

  /** The breakers of the connections, the dead letter queue, and how many nodes have been run. */
  datatype Bench = Bench(cells: map<string, Breaker.Cell>, letters: seq<Retry.DeadLetter>, ran: nat)

  /** How nodes are set up, and what running them meets. `meets` numbers the executions. */
  datatype Plant = Plant(
    connection: Node -> Option<string>,
    policy: Node -> Retry.Policy,
    cooldown: real,
    meets: (nat, Node, Value, Value) -> Retry.Environment,
    data: (string, nat) -> StepData,
    reason: (Node, Retry.Execution) -> string)

  function CellAt(b: Bench, connection: Option<string>): Breaker.Cell {
    if connection.Some? && connection.value in b.cells then b.cells[connection.value] else Breaker.FRESH
  }

  function Execution(plant: Plant, b: Bench, node: Node, config: Value, context: Value): Retry.Execution {
    var connection := plant.connection(node);
    Retry.Executed(node.id, connection.Some?, CellAt(b, connection), plant.cooldown, plant.policy(node),
                   plant.meets(b.ran, node, config, context))
  }

  /** One node of a pass, run as the node runner runs it. */
  function Ran(plant: Plant, b: Bench, node: Node, e: Retry.Execution): (Bench, Outcome) {
    var connection := plant.connection(node);
    (Bench(if connection.Some? then b.cells[connection.value := e.cell] else b.cells, b.letters + e.letters, b.ran + 1),
     if e.result.success && e.result.output.Some? then Succeeded(plant.data(e.result.output.value, b.ran))
     else FailedWith(plant.reason(node, e)))
  }

  function RunRetried(plant: Plant): Handler<Bench> {
    (b: Bench, node: Node, config: Value, context: Value) => Ran(plant, b, node, Execution(plant, b, node, config, context))
  }

  /** The dead letters tell how a pass ended: one more, for the node last handed out, if it failed,
      and none otherwise. */
  ghost predicate LettersTell(before: seq<Retry.DeadLetter>, p: Pass, after: seq<Retry.DeadLetter>) {
    if p.phase.Broken? then
      && p.dispatched != [] && |after| == |before| + 1 && after[..|before|] == before
      && after[|before|].nodeId == p.dispatched[|p.dispatched| - 1]
    else after == before
  }

  ghost predicate CellsConsistent(b: Bench) {
    forall id | id in b.cells :: Retry.Consistent(b.cells[id])
  }

  lemma ExecutedTells(nodeId: string, connected: bool, c: Breaker.Cell, cooldown: real, policy: Retry.Policy,
                      env: Retry.Environment)
    requires Retry.Consistent(c)
    ensures var e := Retry.Executed(nodeId, connected, c, cooldown, policy, env);
            && (e.result.success <==> e.result.output.Some?)
            && (if e.result.success then e.letters == [] else |e.letters| == 1 && e.letters[0].nodeId == nodeId)
            && Retry.Consistent(e.cell)
  {
    Retry.FinalAttemptPositive(env.dispatch, policy.maxAttempts);
    var f := Retry.FinalAttempt(env.dispatch, 1, policy.maxAttempts);
    var entry := if connected then Breaker.Queried(c, env.clock(0), cooldown) else c;
    Retry.ThreeFailuresOpen(entry, env, f - 1);
    hide Retry.FinalAttempt, Retry.AfterFailures, Retry.Streak;
  }

  lemma FreshConsistent()
    ensures Retry.Consistent(Breaker.FRESH)
  {
  }

  lemma RunTells(plant: Plant, b: Bench, node: Node, config: Value, context: Value)
    requires CellsConsistent(b)
    ensures var (b', outcome) := RunRetried(plant)(b, node, config, context);
            && CellsConsistent(b') && !outcome.Crashed?
            && (if outcome.Succeeded? then b'.letters == b.letters
                else |b'.letters| == |b.letters| + 1 && b'.letters[..|b.letters|] == b.letters
                     && b'.letters[|b.letters|].nodeId == node.id)
  {
    hide Retry.Executed, Retry.Consistent;
    var connection := plant.connection(node);
    FreshConsistent();
    ExecutedTells(node.id, connection.Some?, CellAt(b, connection), plant.cooldown, plant.policy(node),
                  plant.meets(b.ran, node, config, context));
    var e := Execution(plant, b, node, config, context);
    hide Execution;
    assert RunRetried(plant)(b, node, config, context) == Ran(plant, b, node, e);
    assert (b.letters + e.letters)[..|b.letters|] == b.letters;
  }

  lemma TurnTells(d: Definition, st: Engine.Setting, plant: Plant, completed: set<NodeId>, p: Pass, b: Bench)
    requires p.queue != [] && p.queue[0] in Ids(d.nodes) && completed <= p.steps.Keys
    requires p.phase == Going && CellsConsistent(b)
    ensures var h := RunRetried(plant);
            var b' := After(d, st, h, completed, p, b);
            LettersTell(b.letters, Turn(d, st, Facing(h, b), completed, p), b'.letters) && CellsConsistent(b')
  {
    hide Context, Resolve, Fired, Unvisited, RunRetried, CellsConsistent;
    if Runs(d, completed, p) {
      var node := NodeOf(d.nodes, p.queue[0]);
      var context := Context(st, p.steps);
      RunTells(plant, b, node, Resolve(node.config, context, st.render), context);
    }
  }

  /** Over a whole pass under retries, wherever it is cut off. */
  lemma {:induction false} TurnsTell(d: Definition, st: Engine.Setting, plant: Plant, completed: set<NodeId>, p: Pass, b: Bench,
                                     n: nat)
    requires WellFormed(d) && QueueKnown(d, p.queue) && completed <= p.steps.Keys
    requires p.phase == Going && CellsConsistent(b)
    ensures var (q, b') := TurnsWith(d, st, RunRetried(plant), completed, p, b, n);
            LettersTell(b.letters, q, b'.letters) && CellsConsistent(b')
    decreases n
  {
    if n > 0 && p.queue != [] {
      var h := RunRetried(plant);
      TurnProgress(d, st, Facing(h, b), completed, p);
      TurnTells(d, st, plant, completed, p, b);
      var q, b' := Turn(d, st, Facing(h, b), completed, p), After(d, st, h, completed, p, b);
      if q.phase == Going {
        TurnsTell(d, st, plant, completed, q, b', n - 1);
      } else {
        assert TurnsWith(d, st, h, completed, q, b', n - 1) == (q, b');
      }
    }
    hide Turn, After, RunRetried, Facing, WellFormed, CellsConsistent;
  }

  // --- The dead letter queue over a whole history ---

  /** The nodes of the FAILED steps, in order. */
  function FailedNodes(records: seq<StepRecord>): seq<NodeId> {
    if records == [] then []
    else
      var r := records[|records| - 1];
      FailedNodes(records[..|records| - 1]) + if r.status.Failed? then [r.nodeId] else []
  }

  /** The nodes that dead letters name, in order. */
  function Named(letters: seq<Retry.DeadLetter>): seq<string> {
    if letters == [] then [] else Named(letters[..|letters| - 1]) + [letters[|letters| - 1].nodeId]
  }

  lemma FailedSnoc(records: seq<StepRecord>, r: StepRecord)
    ensures FailedNodes(records + [r]) == FailedNodes(records) + if r.status.Failed? then [r.nodeId] else []
  {
    assert (records + [r])[..|records|] == records;
  }

  lemma NamedSnoc(letters: seq<Retry.DeadLetter>, letter: Retry.DeadLetter)
    ensures Named(letters + [letter]) == Named(letters) + [letter.nodeId]
  {
    assert (letters + [letter])[..|letters|] == letters;
  }

  lemma {:induction false} DecidingFailsNothing(records: seq<StepRecord>, i: nat, status: StepStatus)
    requires i < |records| && records[i].status.WaitingApproval? && !status.Failed?
    ensures FailedNodes(records[i := records[i].(status := status)]) == FailedNodes(records)
  {
    var n := |records| - 1;
    var r := records[i].(status := status);
    if i == n {
      assert records[i := r][..n] == records[..n];
    } else {
      assert records[i := r][..n] == records[..n][i := r];
      DecidingFailsNothing(records[..n], i, status);
    }
  }

  lemma SettlingFailsNothing(records: seq<StepRecord>, status: StepStatus)
    requires !status.Failed?
    ensures FailedNodes(Settle(records, status)) == FailedNodes(records)
  {
    if FirstWaiting(records) < |records| {
      DecidingFailsNothing(records, FirstWaiting(records), status);
    }
  }

  /** One letter for every FAILED step since the bench was in its first state. */
  ghost predicate Tallies(before: Bench, records: seq<StepRecord>, b: Bench) {
    CellsConsistent(b) && Named(b.letters) == Named(before.letters) + FailedNodes(records)
  }

  /** What a turn adds to the records. */
  lemma TurnRecords(d: Definition, st: Engine.Setting, w: World, completed: set<NodeId>, p: Pass)
    requires p.queue != [] && p.queue[0] in Ids(d.nodes) && completed <= p.steps.Keys
    ensures var q := Turn(d, st, w, completed, p);
            if p.queue[0] in p.visited || p.queue[0] in completed then q.records == p.records
            else q.records == p.records + [Attempted(d, st, w, p.queue[0], p.steps).record]
  {
    hide Fired, Unvisited, Attempted;
  }

  lemma TalliesMeansConsistent(before: Bench, records: seq<StepRecord>, b: Bench)
    requires Tallies(before, records, b)
    ensures CellsConsistent(b)
  {
  }

  lemma OneMoreTallied(before: Bench, records: seq<StepRecord>, r: StepRecord, b: Bench, b': Bench)
    requires Tallies(before, records, b) && CellsConsistent(b')
    requires if r.status.Failed? then
               && |b'.letters| == |b.letters| + 1 && b'.letters[..|b.letters|] == b.letters
               && b'.letters[|b.letters|].nodeId == r.nodeId
             else b'.letters == b.letters
    ensures Tallies(before, records + [r], b')
  {
    hide CellsConsistent, Named, FailedNodes;
    FailedSnoc(records, r);
    if r.status.Failed? {
      assert b'.letters == b.letters + [b'.letters[|b.letters|]];
      NamedSnoc(b.letters, b'.letters[|b.letters|]);
    }
  }

  lemma TurnTallies(d: Definition, st: Engine.Setting, plant: Plant, completed: set<NodeId>, p: Pass, before: Bench, b: Bench)
    requires p.queue != [] && p.queue[0] in Ids(d.nodes) && completed <= p.steps.Keys
    requires Tallies(before, p.records, b)
    ensures var h := RunRetried(plant);
            Tallies(before, Turn(d, st, Facing(h, b), completed, p).records, After(d, st, h, completed, p, b))
  {
    var h, u := RunRetried(plant), p.queue[0];
    var w := Facing(h, b);
    TurnRecords(d, st, w, completed, p);
    TalliesMeansConsistent(before, p.records, b);
    hide Turn, Resolve, Context, RunRetried, Tallies, CellsConsistent, NodeOf;
    if u !in p.visited && u !in completed {
      var node, context := NodeOf(d.nodes, u), Context(st, p.steps);
      if node.kind != APPROVAL {
        RunTells(plant, b, node, Resolve(node.config, context, st.render), context);
      }
      OneMoreTallied(before, p.records, Attempted(d, st, w, u, p.steps).record, b, After(d, st, h, completed, p, b));
    }
  }

  lemma {:induction false} TurnsTally(d: Definition, st: Engine.Setting, plant: Plant, completed: set<NodeId>, p: Pass,
                                      before: Bench, b: Bench, n: nat)
    requires WellFormed(d) && QueueKnown(d, p.queue) && completed <= p.steps.Keys
    requires Tallies(before, p.records, b)
    ensures var (q, b') := TurnsWith(d, st, RunRetried(plant), completed, p, b, n); Tallies(before, q.records, b')
    decreases n
  {
    var h := RunRetried(plant);
    hide *;
    UnfoldTurns(d, st, h, completed, p, b, n);
    if n > 0 && p.queue != [] && p.phase == Going {
      TurnTallies(d, st, plant, completed, p, before, b);
      TurnsTally(d, st, plant, completed, Turn(d, st, Facing(h, b), completed, p), before,
                 After(d, st, h, completed, p, b), n - 1);
    }
  }

  lemma PassTallies(d: Definition, st: Engine.Setting, plant: Plant, life: Life, records: seq<StepRecord>, before: Bench, b: Bench)
    requires Executable(d) && Tallies(before, records, b)
    ensures var (p, b') := PassWith(d, st, RunRetried(plant), life, records, b); Tallies(before, p.records, b')
  {
    var h := RunRetried(plant);
    PassIs(d, st, Facing(h, b), life, records);
    var completed, start := Completed(records).Keys, StartPass(d, records);
    hide Tallies, TurnsWith, TraverseWith, RunRetried, Completed, StartPass, Turns, Traverse, PassUntil, Facing;
    if life.Dies? {
      TurnsTally(d, st, plant, completed, start, before, b, life.turns);
    } else {
      var n := EnoughTurns(d, st, h, completed, start, b);
      TurnsTally(d, st, plant, completed, start, before, b, n);
    }
  }

  lemma ExecutedTallies(d: Definition, st: Engine.Setting, plant: Plant, life: Life, run: Run, before: Bench, b: Bench)
    requires Executable(d) && Tallies(before, run.steps, b)
    ensures var (run', b') := ExecutedWith(d, st, RunRetried(plant), life, run, b); Tallies(before, run'.steps, b')
  {
    hide Tallies, PassWith, RunRetried, Executable;
    PassTallies(d, st, plant, life, run.steps, before, b);
  }

  lemma SettledTallies(before: Bench, records: seq<StepRecord>, b: Bench, status: StepStatus)
    requires Tallies(before, records, b) && !status.Failed?
    ensures Tallies(before, Settle(records, status), b)
  {
    SettlingFailsNothing(records, status);
  }

  lemma CallTallies(d: Definition, st: Engine.Setting, plant: Plant, run: Run, call: Call, before: Bench, b: Bench)
    requires Executable(d) && Tallies(before, run.steps, b)
    ensures var (run', b') := ApplyWith(d, st, RunRetried(plant), run, call, b); Tallies(before, run'.steps, b')
  {
    hide Tallies, ExecutedWith, Executed, RunRetried, Settle, Executable;
    match call
    case ExecuteRun(life) =>
      ExecutedTallies(d, st, plant, life, run, before, b);
    case ApproveRun(decision, life) =>
      var status := Success(StepData(decision, APPROVAL_MS));
      SettledTallies(before, run.steps, b, status);
      ExecutedTallies(d, st, plant, life, run.(steps := Settle(run.steps, status)), before, b);
    case RejectRun(_, _) =>
      SettledTallies(before, run.steps, b, Rejected);
  }

  lemma {:induction false} HistoryTallies(d: Definition, st: Engine.Setting, plant: Plant, calls: seq<Call>, b: Bench)
    requires Executable(d) && CellsConsistent(b)
    ensures var (run, b') := HistoryWith(d, st, RunRetried(plant), calls, b); Tallies(b, run.steps, b')
  {
    if calls == [] {
      assert FailedNodes([]) == [];
    } else {
      var n := |calls| - 1;
      HistoryTallies(d, st, plant, calls[..n], b);
      var (run, t) := HistoryWith(d, st, RunRetried(plant), calls[..n], b);
      CallTallies(d, st, plant, run, calls[n], b, t);
    }
    hide Tallies, ApplyWith, RunRetried, CellsConsistent, Executable;
  }

  /** Over any history under retries and breakers: the dead letters that came in name exactly the
      nodes of the FAILED steps, one for each, in the order they failed. */
  lemma EveryFailureHasItsLetter(d: Definition, st: Engine.Setting, plant: Plant, calls: seq<Call>, b: Bench)
    requires Executable(d) && CellsConsistent(b)
    ensures var (run, b') := HistoryWith(d, st, RunRetried(plant), calls, b);
            && Named(b'.letters) == Named(b.letters) + FailedNodes(run.steps)
            && CellsConsistent(b')
  {
    HistoryTallies(d, st, plant, calls, b);
    hide HistoryWith, RunRetried, CellsConsistent, Named, FailedNodes;
  }
}
