/** Resuming refines the uninterrupted run: over whole histories, under the decisions they took,
    and exactly when it does. */
module Refinement {
  import opened Templates
  import opened Schema
  import opened Engine
  import opened Resume
  import opened Uninterrupted

  // --- Whole histories ---

  lemma StartInStep(d: Definition, st: Setting, plan: Plan, records: seq<StepRecord>, k: nat)
    requires Executable(d)
    requires var r := IdealRun(d, st, plan);
             Sound(d, plan, r) && k <= |r.visited| && RecordsAgree(d, records, r, k)
    ensures QueueKnown(d, Starts(d))
    ensures var r := IdealRun(d, st, plan);
            && InStep(d, st, plan, r, k, Ideal([], map[], []), StartPass(d, records))
            && Completed(records).Keys == Elements(r.visited[..k])
  {
    var r := IdealRun(d, st, plan);
    StartsKnown(d);
    AgreeCompleted(d, records, r, k);
    assert Completed(records).Keys == Elements(r.visited[..k]);
    hide IdealFrom, RecordsAgree, WellFormed;
    assert r.visited[..0] == [];
    assert At(r.steps, []) == map[];
  }

  ghost predicate PassReaches(d: Definition, p: Pass, r: Ideal, k: nat)
    requires |r.visited| == |r.fired| && forall v | v in r.visited :: v in Ids(d.nodes) && v in r.steps
  {
    exists j: nat :: k <= j <= |r.visited| && ReachedPosition(d, p, r, j)
  }

  lemma PassAgrees(d: Definition, st: Setting, plan: Plan, w: World, life: Life, records: seq<StepRecord>, k: nat)
    requires Executable(d) && Follows(w, plan)
    requires var r := IdealRun(d, st, plan);
             Sound(d, plan, r) && k <= |r.visited| && RecordsAgree(d, records, r, k) && StableAt(d, st, r, k)
    ensures PassReaches(d, PassUntil(d, st, w, life, records), IdealRun(d, st, plan), k)
  {
    var r := IdealRun(d, st, plan);
    StartInStep(d, st, plan, records, k);
    PassIs(d, st, w, life, records);
    hide InStep, RecordsAgree, IdealRun, StableAt, WellFormed, ReachedPosition, Completed, Turns, Traverse, PassUntil;
    var start := StartPass(d, records);
    if life.Dies? {
      SimulateTurns(d, st, plan, w, r, k, Ideal([], map[], []), start, life.turns);
    } else {
      Simulate(d, st, plan, w, r, k, Ideal([], map[], []), start);
    }
  }

  ghost predicate AgreesUpTo(d: Definition, plan: Plan, run: Run, r: Ideal, j: nat)
    requires Sound(d, plan, r) && r.visited != [] && j <= |r.visited|
  {
    && RecordsAgree(d, run.steps, r, j)
    && (run.status == RunSuccess ==>
          && j == |r.visited| && run.visited == r.visited && run.fired == r.fired
          && run.output == Some(r.steps[r.visited[|r.visited| - 1]].output))
  }

  /** The run's records are those of the uninterrupted run up to some position, and a run
      that ended in SUCCESS got to its end by the same route with the same result. */
  ghost predicate RunAgrees(d: Definition, plan: Plan, run: Run, r: Ideal)
    requires Sound(d, plan, r) && r.visited != []
  {
    exists j: nat :: j <= |r.visited| && AgreesUpTo(d, plan, run, r, j)
  }

  /** Dispatches and approval decisions come out as planned; which of them fail, where the process
      dies, what is rejected, and how often the run is executed again, is up to the environment. */
  ghost predicate EventFollows(run: Run, plan: Plan, event: Event) {
    match event
    case Execute(w, _) => Follows(w, plan)
    case Approve(decision, w, _) =>
      && Follows(w, plan)
      && var i := FirstWaiting(run.steps);
         run.status == RunWaitingApproval && i < |run.steps| ==> decision == plan.approval(run.steps[i].nodeId)
    case Reject(_, _) => true
  }

  ghost predicate HistoryFollows(d: Definition, st: Setting, plan: Plan, events: seq<Event>)
    requires Executable(d)
  {
    forall i | 0 <= i < |events| :: EventFollows(History(d, st, events[..i]), plan, events[i])
  }

  lemma ConcludeAgrees(d: Definition, plan: Plan, run: Run, p: Pass, r: Ideal, k: nat)
    requires Sound(d, plan, r) && r.visited != [] && PassReaches(d, p, r, k)
    ensures RunAgrees(d, plan, Conclude(run, p), r)
  {
    var j: nat :| k <= j <= |r.visited| && ReachedPosition(d, p, r, j);
    hide RecordsAgree;
    assert AgreesUpTo(d, plan, Conclude(run, p), r, j);
  }

  lemma ExecutedAgrees(d: Definition, st: Setting, plan: Plan, w: World, life: Life, run: Run, k: nat)
    requires Executable(d) && Follows(w, plan) && Stable(d, st, plan)
    requires var r := IdealRun(d, st, plan);
             Sound(d, plan, r) && r.visited != [] && k <= |r.visited| && RecordsAgree(d, run.steps, r, k)
    requires life.DiesDeciding? ==> run.status != RunSuccess
    ensures RunAgrees(d, plan, Executed(d, st, w, life, run), IdealRun(d, st, plan))
  {
    var r := IdealRun(d, st, plan);
    if life.DiesDeciding? {
      assert AgreesUpTo(d, plan, run, r, k);
    } else {
      PassAgrees(d, st, plan, w, life, run.steps, k);
      ConcludeAgrees(d, plan, run, PassUntil(d, st, w, life, run.steps), r, k);
    }
    hide AgreesUpTo, RecordsAgree, PassUntil, IdealRun;
  }

  lemma SettleMembers(steps: seq<StepRecord>, status: StepStatus)
    requires FirstWaiting(steps) < |steps|
    ensures var old0 := steps[FirstWaiting(steps)];
            forall s :: s in Settle(steps, status) ==> s in steps || s == old0.(status := status)
    ensures forall s | s in steps && s.status.Success? :: s in Settle(steps, status)
    ensures steps[FirstWaiting(steps)].(status := status) in Settle(steps, status)
  {
    var i := FirstWaiting(steps);
    var after := Settle(steps, status);
    assert after[i] == steps[i].(status := status);
    forall s | s in steps && s.status.Success?
      ensures s in after
    {
      var k :| 0 <= k < |steps| && steps[k] == s;
      assert after[k] == s;
    }
  }

  /** Replacing a waiting record by its decided form keeps the records in agreement, one node
      further when the decision was an approval of the node being waited for. */
  lemma ReplacedAgrees(d: Definition, plan: Plan, steps: seq<StepRecord>, after: seq<StepRecord>, waiting: StepRecord,
                       status: StepStatus, r: Ideal, k: nat) returns (j: nat)
    requires Sound(d, plan, r) && k <= |r.visited| && RecordsAgree(d, steps, r, k)
    requires waiting in steps && waiting.status.WaitingApproval? && !status.WaitingApproval?
    requires status.Success? ==> status.data == StepData(plan.approval(waiting.nodeId), APPROVAL_MS)
    requires forall s :: s in after ==> s in steps || s == waiting.(status := status)
    requires forall s | s in steps && s.status.Success? :: s in after
    requires waiting.(status := status) in after
    ensures j <= |r.visited| && RecordsAgree(d, after, r, j)
  {
    var v := waiting.nodeId;
    assert AtGate(d, r, k, v);
    if status.Success? && v !in r.visited[..k] {
      j := k + 1;
      PrefixSnoc(r.visited, k);
    } else {
      j := k;
    }
    forall u | u in r.visited[..j]
      ensures exists s | s in after :: s.status.Success? && s.nodeId == u
    {
      if u == v && status.Success? {
        assert waiting.(status := status) in after;
      } else {
        var s :| s in steps && s.status.Success? && s.nodeId == u;
        assert s in after;
      }
    }
  }

  lemma SettleAgrees(d: Definition, plan: Plan, steps: seq<StepRecord>, status: StepStatus, r: Ideal, k: nat) returns (j: nat)
    requires Sound(d, plan, r) && k <= |r.visited| && RecordsAgree(d, steps, r, k)
    requires !status.WaitingApproval?
    requires status.Success? && FirstWaiting(steps) < |steps| ==>
               status.data == StepData(plan.approval(steps[FirstWaiting(steps)].nodeId), APPROVAL_MS)
    ensures j <= |r.visited| && RecordsAgree(d, Settle(steps, status), r, j)
  {
    var i := FirstWaiting(steps);
    if i == |steps| {
      return k;
    }
    SettleMembers(steps, status);
    assert steps[i] in steps && steps[i].status.WaitingApproval?;
    hide *;
    j := ReplacedAgrees(d, plan, steps, Settle(steps, status), steps[i], status, r, k);
  }

  lemma ApplyAgrees(d: Definition, st: Setting, plan: Plan, run: Run, event: Event)
    requires Executable(d) && Stable(d, st, plan) && EventFollows(run, plan, event)
    requires var r := IdealRun(d, st, plan);
             Sound(d, plan, r) && r.visited != [] && RunAgrees(d, plan, run, r)
    ensures RunAgrees(d, plan, Apply(d, st, run, event), IdealRun(d, st, plan))
  {
    var r := IdealRun(d, st, plan);
    var k: nat :| k <= |r.visited| && AgreesUpTo(d, plan, run, r, k);
    match event
    case Execute(w, life) =>
      if !life.DiesDeciding? {
        ExecutedAgrees(d, st, plan, w, life, run, k);
      }
    case Approve(decision, w, life) =>
      if run.status == RunWaitingApproval {
        var status := Success(StepData(decision, APPROVAL_MS));
        var j := SettleAgrees(d, plan, run.steps, status, r, k);
        ExecutedAgrees(d, st, plan, w, life, run.(steps := Settle(run.steps, status)), j);
      }
    case Reject(reason, life) =>
      if run.status == RunWaitingApproval {
        var j := SettleAgrees(d, plan, run.steps, Rejected, r, k);
        assert AgreesUpTo(d, plan, Apply(d, st, run, event), r, j);
      }
  }

  lemma NewRunAgrees(d: Definition, st: Setting, plan: Plan, r: Ideal)
    requires Executable(d) && Sound(d, plan, r) && r.visited != []
    ensures RunAgrees(d, plan, History(d, st, []), r)
  {
    assert r.visited[..0] == [];
    assert AgreesUpTo(d, plan, NEW_RUN, r, 0);
  }

  lemma LastEvent(d: Definition, st: Setting, plan: Plan, events: seq<Event>)
    requires Executable(d) && HistoryFollows(d, st, plan, events) && events != []
    ensures var earlier := events[..|events| - 1];
            var run := History(d, st, earlier);
            && HistoryFollows(d, st, plan, earlier)
            && EventFollows(run, plan, events[|events| - 1])
            && History(d, st, events) == Apply(d, st, run, events[|events| - 1])
  {
    hide Apply, EventFollows;
    assert forall i | 0 <= i < |events| - 1 :: events[..|events| - 1][..i] == events[..i];
  }

  lemma {:induction false} HistoryAgrees(d: Definition, st: Setting, plan: Plan, events: seq<Event>)
    requires Executable(d) && Stable(d, st, plan) && HistoryFollows(d, st, plan, events)
    requires var r := IdealRun(d, st, plan); Sound(d, plan, r) && r.visited != []
    ensures RunAgrees(d, plan, History(d, st, events), IdealRun(d, st, plan))
  {
    hide *;
    if events == [] {
      NewRunAgrees(d, st, plan, IdealRun(d, st, plan));
    } else {
      var n := |events| - 1;
      LastEvent(d, st, plan, events);
      HistoryAgrees(d, st, plan, events[..n]);
      ApplyAgrees(d, st, plan, History(d, st, events[..n]), events[n]);
    }
  }

  lemma FinishedAgrees(d: Definition, plan: Plan, run: Run, r: Ideal)
    requires Sound(d, plan, r) && r.visited != [] && RunAgrees(d, plan, run, r) && run.status == RunSuccess
    ensures run.visited == r.visited && run.fired == r.fired && Completed(run.steps) == r.steps
    ensures r.visited[|r.visited| - 1] in r.steps
    ensures run.output == Some(r.steps[r.visited[|r.visited| - 1]].output)
  {
    var j: nat :| j <= |r.visited| && AgreesUpTo(d, plan, run, r, j);
    AgreeCompleted(d, run.steps, r, j);
    assert r.visited[..j] == r.visited;
    assert At(r.steps, r.visited) == r.steps;
  }

  /** Any chain of failed, crashed, parked, rejected and resumed passes that ends in SUCCESS
      has the visiting order, fired edges, step outputs and last output of one pass that
      never stops. */
  lemma ResumeRefinesUninterrupted(d: Definition, st: Setting, plan: Plan, events: seq<Event>)
    requires Executable(d) && Stable(d, st, plan) && HistoryFollows(d, st, plan, events)
    requires History(d, st, events).status == RunSuccess
    ensures var run, r := History(d, st, events), IdealRun(d, st, plan);
            && run.visited == r.visited && run.fired == r.fired
            && Completed(run.steps) == r.steps
            && r.visited != [] && r.visited[|r.visited| - 1] in r.steps
            && run.output == Some(r.steps[r.visited[|r.visited| - 1]].output)
  {
    hide *;
    IdealRunSound(d, st, plan);
    HistoryAgrees(d, st, plan, events);
    FinishedAgrees(d, plan, History(d, st, events), IdealRun(d, st, plan));
  }

  // --- The decisions a history itself took ---

  /** Connectors produce what is planned, and no gate gets a second, different decision. */
  ghost predicate EventConsistent(run: Run, plan: Plan, event: Event) {
    && (!event.Reject? ==> Follows(event.world, plan))
    && (event.Approve? && run.status == RunWaitingApproval ==>
          var i := FirstWaiting(run.steps);
          i < |run.steps| && run.steps[i].nodeId in Completed(run.steps) ==>
            Completed(run.steps)[run.steps[i].nodeId] == StepData(event.decision, APPROVAL_MS))
  }

  ghost predicate HistoryConsistent(d: Definition, st: Setting, plan: Plan, events: seq<Event>)
    requires Executable(d)
  {
    forall i | 0 <= i < |events| :: EventConsistent(History(d, st, events[..i]), plan, events[i])
  }

  /** The plan with the decisions that the run has recorded. */
  function WithDecisions(plan: Plan, run: Run): Plan {
    var done := Completed(run.steps);
    Plan(plan.output, v => if v in done then done[v].output else plan.approval(v))
  }

  lemma ConsistentKeeps(run: Run, plan: Plan, event: Event)
    requires EventConsistent(run, plan, event)
    ensures !Overwrites(run, event)
  {
  }

  /** A decision is recorded by the event that takes it. */
  lemma DecisionRecorded(d: Definition, st: Setting, run: Run, plan: Plan, event: Event)
    requires Executable(d) && EventConsistent(run, plan, event)
    requires event.Approve? && run.status == RunWaitingApproval && FirstWaiting(run.steps) < |run.steps|
    ensures var v := run.steps[FirstWaiting(run.steps)].nodeId;
            var after := Completed(Apply(d, st, run, event).steps);
            v in after && after[v] == StepData(event.decision, APPROVAL_MS)
  {
    var i := FirstWaiting(run.steps);
    var v := run.steps[i].nodeId;
    CompletedUpdate(run.steps, i, Success(StepData(event.decision, APPROVAL_MS)));
    if LaterSuccess(run.steps, i, v) {
      LaterIsCompleted(run.steps, i, v);
    }
    ApplyExtends(d, st, run, event);
    hide Completed, LaterSuccess, Apply, Dispatched, FirstWaiting;
  }

  lemma DecisionsFollow(d: Definition, st: Setting, plan: Plan, events: seq<Event>, i: nat)
    requires Executable(d) && HistoryConsistent(d, st, plan, events) && i < |events|
    ensures EventFollows(History(d, st, events[..i]), WithDecisions(plan, History(d, st, events)), events[i])
  {
    var run, event := History(d, st, events[..i]), events[i];
    assert EventConsistent(run, plan, event);
    forall j | 0 <= j < |events| ensures !Overwrites(History(d, st, events[..j]), events[j]) {
      ConsistentKeeps(History(d, st, events[..j]), plan, events[j]);
    }
    CompletedGrows(d, st, events, i + 1);
    assert events[..i + 1][..i] == events[..i];
    assert History(d, st, events[..i + 1]) == Apply(d, st, run, event);
    if event.Approve? && run.status == RunWaitingApproval && FirstWaiting(run.steps) < |run.steps| {
      DecisionRecorded(d, st, run, plan, event);
    }
    hide Completed, History, Apply, Overwrites, EventConsistent, FirstWaiting;
  }

  lemma EventsFollow(d: Definition, st: Setting, plan: Plan, events: seq<Event>)
    requires Executable(d)
    requires forall i | 0 <= i < |events| :: EventFollows(History(d, st, events[..i]), plan, events[i])
    ensures HistoryFollows(d, st, plan, events)
  {
  }

  /** The same for any history in which no gate gets a second, different decision: the run equals
      the uninterrupted one under the decisions it recorded, whatever they were. */
  lemma ResumeRefinesUnderItsDecisions(d: Definition, st: Setting, plan: Plan, events: seq<Event>)
    requires Executable(d) && HistoryConsistent(d, st, plan, events)
    requires Stable(d, st, WithDecisions(plan, History(d, st, events)))
    requires History(d, st, events).status == RunSuccess
    ensures var run, r := History(d, st, events), IdealRun(d, st, WithDecisions(plan, History(d, st, events)));
            && run.visited == r.visited && run.fired == r.fired
            && Completed(run.steps) == r.steps
            && r.visited != [] && r.visited[|r.visited| - 1] in r.steps
            && run.output == Some(r.steps[r.visited[|r.visited| - 1]].output)
  {
    hide *;
    var decided := WithDecisions(plan, History(d, st, events));
    forall i | 0 <= i < |events| ensures EventFollows(History(d, st, events[..i]), decided, events[i]) {
      DecisionsFollow(d, st, plan, events, i);
    }
    EventsFollow(d, st, decided, events);
    ResumeRefinesUninterrupted(d, st, decided, events);
  }

  // --- Stability is exactly what resuming needs ---

  function PlanWorld(plan: Plan): World {
    (n, config, context) => Succeeded(plan.output(n, config, context))
  }

  /** The records of a run interrupted after the first `k` nodes. */
  function PrefixRecords(r: Ideal, k: nat): seq<StepRecord>
    requires k <= |r.visited| && forall v | v in r.visited :: v in r.steps
  {
    seq(k, x requires 0 <= x < k => StepRecord(r.visited[x], Null, Success(r.steps[r.visited[x]])))
  }

  /** From any records of the first `k` nodes, in any world that produces what is planned and
      however long the process lives, the pass is the uninterrupted run as far as it gets: the
      same nodes in the same order, the same edges, and records that agree with it. */
  ghost predicate ResumesAlike(d: Definition, st: Setting, plan: Plan, r: Ideal, k: nat)
    requires Executable(d)
    requires k <= |r.visited| == |r.fired| && forall v | v in r.visited :: v in Ids(d.nodes) && v in r.steps
  {
    forall w: World, life: Life, records: seq<StepRecord> | Follows(w, plan) && RecordsAgree(d, records, r, k) ::
      PassReaches(d, PassUntil(d, st, w, life, records), r, k)
  }

  lemma PrefixRecordsAgree(d: Definition, plan: Plan, r: Ideal, k: nat)
    requires Sound(d, plan, r) && k <= |r.visited|
    ensures RecordsAgree(d, PrefixRecords(r, k), r, k)
  {
    var records, order := PrefixRecords(r, k), r.visited[..k];
    forall v | v in order
      ensures exists s | s in records :: s.status.Success? && s.nodeId == v
    {
      var x :| 0 <= x < k && order[x] == v;
      assert records[x] in records;
    }
  }

  lemma {:induction false} FiredGrows(d: Definition, st: Setting, w: World, completed: set<NodeId>, p: Pass)
    requires WellFormed(d) && QueueKnown(d, p.queue) && completed <= p.steps.Keys
    ensures p.fired <= Traverse(d, st, w, completed, p).fired
    decreases Elements(Ids(d.nodes)) - Elements(p.visited), |p.queue|
  {
    if p.queue != [] && p.phase == Going {
      TraverseTurn(d, st, w, completed, p);
      hide Fired, Attempted;
      var q := Turn(d, st, w, completed, p);
      assert p.fired <= q.fired;
      FiredGrows(d, st, w, completed, q);
    }
  }

  lemma AlikeTurn(d: Definition, st: Setting, plan: Plan, r: Ideal, k: nat, i: Ideal, p: Pass)
    requires InStep(d, st, plan, r, k, i, p)
    requires |r.fired| == |r.visited| && Elements(r.visited[..k]) <= p.steps.Keys
    requires |i.visited| < k && p.queue != [] && p.queue[0] !in p.visited
    requires Traverse(d, st, PlanWorld(plan), Elements(r.visited[..k]), p).fired <= r.fired
    ensures p.queue[0] in Ids(d.nodes)
    ensures var u := p.queue[0];
            var q := Turn(d, st, PlanWorld(plan), Elements(r.visited[..k]), p);
            && r.visited[|i.visited|] == u
            && Fired(d, st, u, At(r.steps, r.visited[..k])) == r.fired[|i.visited|]
            && InStep(d, st, plan, r, k, IdealVisit(d, st, plan, i, u), q)
            && Elements(r.visited[..k]) <= q.steps.Keys
  {
    var w, completed := PlanWorld(plan), Elements(r.visited[..k]);
    hide Fired, IdealFrom, RecordsAgree, WellFormed, NoDuplicates, Sound, QueueKnown, At, InStep,
         Traverse, Turn, Complete, IdealVisit;
    var u := p.queue[0];
    InStepFacts(d, st, plan, r, k, i, p);
    TraverseTurn(d, st, w, completed, p);
    NextVisit(d, st, plan, r, p.queue, i);
    InPrefix(r.visited, |i.visited|, k);
    TurnOnCompleted(d, st, w, completed, p);
    var q := Turn(d, st, w, completed, p);
    FiredGrows(d, st, w, completed, q);
    assert q.fired[|i.visited|] == r.fired[|i.visited|];
    SkipCompleted(d, st, plan, w, r, k, i, p);
  }

  lemma IdealEnd(d: Definition, st: Setting, plan: Plan, i: Ideal)
    requires WellFormed(d)
    ensures IdealFrom(d, st, plan, [], i) == i
  {
  }

  lemma IdealVisitOrder(d: Definition, st: Setting, plan: Plan, i: Ideal, u: NodeId)
    requires u in Ids(d.nodes)
    ensures IdealVisit(d, st, plan, i, u).visited == i.visited + [u]
  {
  }

  lemma StableFromLog(d: Definition, st: Setting, r: Ideal, k: nat)
    requires k <= |r.visited| == |r.fired|
    requires forall x | 0 <= x < k :: Fired(d, st, r.visited[x], At(r.steps, r.visited[..k])) == r.fired[x]
    ensures StableAt(d, st, r, k)
  {
  }

  lemma {:induction false} AlikeIsStable(d: Definition, st: Setting, plan: Plan, r: Ideal, k: nat, i: Ideal, p: Pass)
    requires InStep(d, st, plan, r, k, i, p)
    requires |r.fired| == |r.visited| && Elements(r.visited[..k]) <= p.steps.Keys
    requires Traverse(d, st, PlanWorld(plan), Elements(r.visited[..k]), p).fired <= r.fired
    requires forall x | 0 <= x < k && x < |i.visited| ::
               Fired(d, st, r.visited[x], At(r.steps, r.visited[..k])) == r.fired[x]
    ensures StableAt(d, st, r, k)
    decreases Elements(Ids(d.nodes)) - Elements(p.visited), |p.queue|
  {
    hide *;
    InStepFacts(d, st, plan, r, k, i, p);
    var w, completed := PlanWorld(plan), Elements(r.visited[..k]);
    if |i.visited| >= k {
      StableFromLog(d, st, r, k);
    } else if p.queue == [] {
      IdealEnd(d, st, plan, i);
      StableFromLog(d, st, r, k);
    } else {
      TraverseTurn(d, st, w, completed, p);
      var u := p.queue[0];
      var q := Turn(d, st, w, completed, p);
      if u in p.visited {
        TurnOnVisited(d, st, w, completed, p);
        VisitedStep(d, st, plan, r, k, i, p);
        AlikeIsStable(d, st, plan, r, k, i, q);
      } else {
        AlikeTurn(d, st, plan, r, k, i, p);
        var i' := IdealVisit(d, st, plan, i, u);
        InStepFacts(d, st, plan, r, k, i', q);
        IdealVisitOrder(d, st, plan, i, u);
        AlikeIsStable(d, st, plan, r, k, i', q);
      }
    }
  }

  lemma ReachesPrefix(d: Definition, p: Pass, r: Ideal, k: nat)
    requires |r.visited| == |r.fired| && forall v | v in r.visited :: v in Ids(d.nodes) && v in r.steps
    requires PassReaches(d, p, r, k)
    ensures p.fired <= r.fired
  {
  }

  lemma AlikeMeansStable(d: Definition, st: Setting, plan: Plan, k: nat)
    requires Executable(d)
    requires var r := IdealRun(d, st, plan); Sound(d, plan, r) && k <= |r.visited|
    requires ResumesAlike(d, st, plan, IdealRun(d, st, plan), k)
    ensures StableAt(d, st, IdealRun(d, st, plan), k)
  {
    var r := IdealRun(d, st, plan);
    var records, w := PrefixRecords(r, k), PlanWorld(plan);
    PrefixRecordsAgree(d, plan, r, k);
    assert Follows(w, plan);
    assert PassReaches(d, PassUntil(d, st, w, Full, records), r, k);
    PassIs(d, st, w, Full, records);
    hide IdealRun, PassUntil, PrefixRecords, StableAt, PassReaches, RecordsAgree, InStep, Traverse;
    ReachesPrefix(d, PassUntil(d, st, w, Full, records), r, k);
    StartInStep(d, st, plan, records, k);
    AlikeIsStable(d, st, plan, r, k, Ideal([], map[], []), StartPass(d, records));
  }

  lemma PrefixTransparent(d: Definition, st: Setting, plan: Plan, k: nat)
    requires Executable(d)
    requires var r := IdealRun(d, st, plan); Sound(d, plan, r) && k <= |r.visited|
    ensures StableAt(d, st, IdealRun(d, st, plan), k) <==> ResumesAlike(d, st, plan, IdealRun(d, st, plan), k)
  {
    var r := IdealRun(d, st, plan);
    hide IdealRun, PassOver, PassUntil, PrefixRecords, StableAt, PassReaches, RecordsAgree, InStep;
    if StableAt(d, st, r, k) {
      forall w: World, life: Life, records: seq<StepRecord> | Follows(w, plan) && RecordsAgree(d, records, r, k)
        ensures PassReaches(d, PassUntil(d, st, w, life, records), r, k)
      {
        PassAgrees(d, st, plan, w, life, records, k);
      }
    }
    if ResumesAlike(d, st, plan, r, k) {
      AlikeMeansStable(d, st, plan, k);
    }
  }

  /** Resuming is transparent at every interruption point if and only if no condition out of
      a visited node changes when outputs of later nodes are already known. */
  lemma TransparentIffStable(d: Definition, st: Setting, plan: Plan)
    requires Executable(d)
    ensures var r := IdealRun(d, st, plan);
            && |r.visited| == |r.fired| && (forall v | v in r.visited :: v in Ids(d.nodes) && v in r.steps)
            && (Stable(d, st, plan) <==> forall k | 0 <= k <= |r.visited| :: ResumesAlike(d, st, plan, r, k))
  {
    IdealRunSound(d, st, plan);
    var r := IdealRun(d, st, plan);
    hide IdealRun, ResumesAlike, StableAt;
    forall k | 0 <= k <= |r.visited|
      ensures StableAt(d, st, r, k) <==> ResumesAlike(d, st, plan, r, k)
    {
      PrefixTransparent(d, st, plan, k);
    }
  }
}
