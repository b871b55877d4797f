/** What a run record says after each event: status, output, error, and the steps. */
module Statuses {
  import opened Templates
  import opened Schema
  import opened Engine
  import opened Resume

  // --- Why a pass stops ---

  /** The last record is of the last visited node, with its configuration resolved in the context of
      what was complete by then. */
  ghost predicate LastAttempt(d: Definition, st: Setting, p: Pass) {
    && p.records != [] && p.visited != []
    && var last := p.records[|p.records| - 1];
    && last.nodeId == p.visited[|p.visited| - 1] && last.nodeId in Ids(d.nodes)
    && last.inputSnapshot == Resolve(NodeOf(d.nodes, last.nodeId).config, Context(st, p.steps), st.render)
  }

  /** What the node of the last record was answered. */
  function Answered(d: Definition, st: Setting, w: World, p: Pass): Outcome
    requires p.records != [] && p.records[|p.records| - 1].nodeId in Ids(d.nodes)
  {
    var last := p.records[|p.records| - 1];
    w(NodeOf(d.nodes, last.nodeId), last.inputSnapshot, Context(st, p.steps))
  }

  /** A pass that goes on has nothing to explain; one that broke did so at a node whose connector
      failed with that error, one that parked at a gate, and one that died in a dispatch at a node that
      was being run. */
  ghost predicate StopsBecause(d: Definition, st: Setting, w: World, p: Pass) {
    p.phase != Going ==>
      && LastAttempt(d, st, p)
      && var last := p.records[|p.records| - 1];
      && var gate := NodeOf(d.nodes, last.nodeId).kind == "action.approval";
      match p.phase
      case Broken(error) => !gate && last.status == Failed(error) && Answered(d, st, w, p) == FailedWith(error)
      case Parked => gate && last.status == WaitingApproval
      case Died => !gate && last.status == Running && Answered(d, st, w, p) == Crashed
      case Going => false
  }

  lemma TurnStopsBecause(d: Definition, st: Setting, w: World, completed: set<NodeId>, p: Pass)
    requires p.queue != [] && p.queue[0] in Ids(d.nodes) && completed <= p.steps.Keys && p.phase == Going
    ensures StopsBecause(d, st, w, Turn(d, st, w, completed, p))
  {
    hide Context, Resolve, NodeOf, Fired, Unvisited;
    var q, u := Turn(d, st, w, completed, p), p.queue[0];
    if u !in p.visited && u !in completed {
      var a := Attempted(d, st, w, u, p.steps);
      if a.phase != Going {
        assert q.records == p.records + [a.record] && q.visited == p.visited + [u] && q.steps == p.steps;
      }
    }
  }

  lemma {:induction false} TraverseStopsBecause(d: Definition, st: Setting, w: World, completed: set<NodeId>, p: Pass)
    requires WellFormed(d) && QueueKnown(d, p.queue) && completed <= p.steps.Keys && StopsBecause(d, st, w, p)
    ensures StopsBecause(d, st, w, Traverse(d, st, w, completed, p))
    decreases Elements(Ids(d.nodes)) - Elements(p.visited), |p.queue|
  {
    if p.queue != [] && p.phase == Going {
      TraverseTurn(d, st, w, completed, p);
      TurnStopsBecause(d, st, w, completed, p);
      TraverseStopsBecause(d, st, w, completed, Turn(d, st, w, completed, p));
    }
    hide Turn, StopsBecause, WellFormed;
  }

  /** Whenever the process lives on, a pass stops for the reason its last step gives. */
  lemma PassStopsBecause(d: Definition, st: Setting, w: World, life: Life, records: seq<StepRecord>)
    requires Executable(d) && !life.Dies?
    ensures StopsBecause(d, st, w, PassUntil(d, st, w, life, records))
  {
    PassIs(d, st, w, life, records);
    var start := StartPass(d, records);
    assert StopsBecause(d, st, w, start);
    hide Turns, Traverse, PassUntil, StopsBecause, StartPass;
    TraverseStopsBecause(d, st, w, Completed(records).Keys, start);
  }

  // --- What a pass records ---

  /** The `i`-th record is of a declared node, with its configuration resolved in the context of the
      successes recorded before it, and has the status that node got there: waiting at a gate, else
      whatever the connector answered. */
  ghost predicate Explained(d: Definition, st: Setting, w: World, records: seq<StepRecord>, i: nat)
    requires i < |records|
  {
    var r := records[i];
    && r.nodeId in Ids(d.nodes)
    && var node, context := NodeOf(d.nodes, r.nodeId), Context(st, Completed(records[..i]));
    && r.inputSnapshot == Resolve(node.config, context, st.render)
    && if node.kind == "action.approval" then r.status == WaitingApproval
       else match w(node, r.inputSnapshot, context)
            case Succeeded(data) => r.status == Success(data)
            case FailedWith(error) => r.status == Failed(error)
            case Crashed => r.status == Running
  }

  /** The records from the `n`-th on are explained, and all of them but perhaps the last succeeded. */
  ghost predicate AllExplained(d: Definition, st: Setting, w: World, n: nat, records: seq<StepRecord>) {
    && n <= |records|
    && (forall i | n <= i < |records| :: Explained(d, st, w, records, i))
    && (forall i | n <= i < |records| - 1 :: records[i].status.Success?)
  }

  ghost predicate Explaining(d: Definition, st: Setting, w: World, n: nat, p: Pass) {
    && AllExplained(d, st, w, n, p.records) && Completed(p.records) == p.steps
    && (p.phase == Going && |p.records| > n ==> p.records[|p.records| - 1].status.Success?)
  }

  lemma ExplainedLonger(d: Definition, st: Setting, w: World, records: seq<StepRecord>, r: StepRecord, i: nat)
    requires i < |records| && Explained(d, st, w, records, i)
    ensures Explained(d, st, w, records + [r], i)
  {
    hide Context, Resolve, NodeOf, Completed;
    assert (records + [r])[..i] == records[..i];
  }

  lemma ExplainedSnoc(d: Definition, st: Setting, w: World, n: nat, records: seq<StepRecord>, r: StepRecord)
    requires AllExplained(d, st, w, n, records) && (|records| > n ==> records[|records| - 1].status.Success?)
    requires Explained(d, st, w, records + [r], |records|)
    ensures AllExplained(d, st, w, n, records + [r])
  {
    hide Explained;
    forall i | n <= i < |records| ensures Explained(d, st, w, records + [r], i) {
      ExplainedLonger(d, st, w, records, r, i);
    }
  }

  lemma AttemptIs(d: Definition, st: Setting, w: World, u: NodeId, steps: map<NodeId, StepData>)
    requires u in Ids(d.nodes)
    ensures var a, node, context := Attempted(d, st, w, u, steps), NodeOf(d.nodes, u), Context(st, steps);
            && a.record.nodeId == u && a.record.inputSnapshot == Resolve(node.config, context, st.render)
            && if node.kind == "action.approval" then a.phase == Parked && a.record.status == WaitingApproval
               else match w(node, a.record.inputSnapshot, context)
                    case Succeeded(data) => a.phase == Going && a.data == Some(data) && a.record.status == Success(data)
                    case FailedWith(error) => a.phase == Broken(error) && a.record.status == Failed(error)
                    case Crashed => a.phase == Died && a.record.status == Running
  {
    hide Context, Resolve, NodeOf;
  }

  lemma AttemptExplained(d: Definition, st: Setting, w: World, u: NodeId, records: seq<StepRecord>)
    requires u in Ids(d.nodes)
    ensures var a := Attempted(d, st, w, u, Completed(records));
            && Explained(d, st, w, records + [a.record], |records|)
            && (a.phase == Going ==> a.record.status == Success(a.data.value))
            && (a.phase != Going ==> !a.record.status.Success?)
  {
    hide Context, Resolve, NodeOf, Completed, Attempted;
    AttemptIs(d, st, w, u, Completed(records));
    var longer := records + [Attempted(d, st, w, u, Completed(records)).record];
    assert longer[..|records|] == records;
  }

  lemma AttemptCompletes(d: Definition, st: Setting, w: World, u: NodeId, records: seq<StepRecord>)
    requires u in Ids(d.nodes)
    ensures var a := Attempted(d, st, w, u, Completed(records));
            Completed(records + [a.record]) ==
            if a.phase == Going then Completed(records)[u := a.data.value] else Completed(records)
  {
    var a := Attempted(d, st, w, u, Completed(records));
    CompletedSnoc(records, a.record);
    AttemptIs(d, st, w, u, Completed(records));
    hide *;
  }

  lemma TurnRecords(d: Definition, st: Setting, w: World, completed: set<NodeId>, p: Pass)
    requires p.queue != [] && p.queue[0] in Ids(d.nodes) && completed <= p.steps.Keys
    ensures var q, u := Turn(d, st, w, completed, p), p.queue[0];
            if u in p.visited || u in completed then q.records == p.records && q.steps == p.steps && q.phase == p.phase
            else
              var a := Attempted(d, st, w, u, p.steps);
              && q.records == p.records + [a.record] && q.phase == (if a.phase == Going then p.phase else a.phase)
              && q.steps == if a.phase == Going then p.steps[u := a.data.value] else p.steps
  {
    hide Context, Resolve, NodeOf, Fired, Unvisited, Attempted;
    var u := p.queue[0];
    assert u in p.steps ==> p.steps[u := p.steps[u]] == p.steps;
  }

  lemma TurnExplains(d: Definition, st: Setting, w: World, completed: set<NodeId>, n: nat, p: Pass)
    requires p.queue != [] && p.queue[0] in Ids(d.nodes) && completed <= p.steps.Keys && p.phase == Going
    requires Explaining(d, st, w, n, p)
    ensures Explaining(d, st, w, n, Turn(d, st, w, completed, p))
  {
    hide Turn, Attempted, Explained, AllExplained, Completed;
    var u := p.queue[0];
    TurnRecords(d, st, w, completed, p);
    if u !in p.visited && u !in completed {
      var a := Attempted(d, st, w, u, p.steps);
      AttemptExplained(d, st, w, u, p.records);
      ExplainedSnoc(d, st, w, n, p.records, a.record);
      AttemptCompletes(d, st, w, u, p.records);
    }
  }

  lemma {:induction false} TraverseExplains(d: Definition, st: Setting, w: World, completed: set<NodeId>, n: nat, p: Pass)
    requires WellFormed(d) && QueueKnown(d, p.queue) && completed <= p.steps.Keys && Explaining(d, st, w, n, p)
    ensures AllExplained(d, st, w, n, Traverse(d, st, w, completed, p).records)
    decreases Elements(Ids(d.nodes)) - Elements(p.visited), |p.queue|
  {
    if p.queue != [] && p.phase == Going {
      TraverseTurn(d, st, w, completed, p);
      TurnExplains(d, st, w, completed, n, p);
      TraverseExplains(d, st, w, completed, n, Turn(d, st, w, completed, p));
    }
    hide Turn, Completed, AllExplained, WellFormed;
  }

  lemma {:induction false} TurnsExplain(d: Definition, st: Setting, w: World, completed: set<NodeId>, n: nat, p: Pass, turns: nat)
    requires WellFormed(d) && QueueKnown(d, p.queue) && completed <= p.steps.Keys && Explaining(d, st, w, n, p)
    ensures AllExplained(d, st, w, n, Turns(d, st, w, completed, p, turns).records)
    decreases turns
  {
    hide Turn, Completed, AllExplained, WellFormed, Turns;
    TurnsUnfold(d, st, w, completed, p, turns);
    if turns > 0 && p.queue != [] && p.phase == Going {
      TraverseTurn(d, st, w, completed, p);
      TurnExplains(d, st, w, completed, n, p);
      TurnsExplain(d, st, w, completed, n, Turn(d, st, w, completed, p), turns - 1);
    }
  }

  /** Every record a pass adds, in any world and however long the process lives, is of a declared node,
      in the context of exactly what was recorded as a success before it, with the status the world gave
      it there; and only the last one may be anything but a success. */
  lemma PassExplained(d: Definition, st: Setting, w: World, life: Life, records: seq<StepRecord>)
    requires Executable(d)
    ensures records <= PassUntil(d, st, w, life, records).records
    ensures AllExplained(d, st, w, |records|, PassUntil(d, st, w, life, records).records)
  {
    PassIs(d, st, w, life, records);
    PassDispatchesOnce(d, st, w, life, records);
    var start, completed := StartPass(d, records), Completed(records).Keys;
    assert Explaining(d, st, w, |records|, start);
    hide *;
    if life.Dies? {
      TurnsExplain(d, st, w, completed, |records|, start, life.turns);
    } else {
      TraverseExplains(d, st, w, completed, |records|, start);
    }
  }

  // --- One event ---

  /** The event decides the status: it starts a pass, or rejects a run that waits. */
  predicate Acts(run: Run, event: Event) {
    match event
    case Execute(_, life) => !life.DiesDeciding?
    case Approve(_, _, life) => run.status == RunWaitingApproval && !life.DiesDeciding?
    case Reject(_, life) => run.status == RunWaitingApproval && life.Full?
  }

  /** The steps with the first one that waits decided. */
  ghost predicate DecidesFirst(before: seq<StepRecord>, after: seq<StepRecord>, status: StepStatus) {
    || (after == before && forall s | s in before :: !s.status.WaitingApproval?)
    || exists i | 0 <= i < |before| ::
         && before[i].status.WaitingApproval? && (forall j | 0 <= j < i :: !before[j].status.WaitingApproval?)
         && after == before[i := StepRecord(before[i].nodeId, before[i].inputSnapshot, status)]
  }

  lemma SettleDecides(steps: seq<StepRecord>, status: StepStatus)
    ensures DecidesFirst(steps, Settle(steps, status), status)
  {
    var i := FirstWaiting(steps);
    assert i < |steps| ==> steps[i].status.WaitingApproval?;
  }

  /** A rejection of a waiting run ends it REJECTED, without an output and with the reason as its error;
      the first waiting step is rejected, and nothing else changes. */
  lemma RejectionEndsTheRun(d: Definition, st: Setting, run: Run, reason: string)
    requires Executable(d) && run.status == RunWaitingApproval
    ensures var after := Apply(d, st, run, Reject(reason, Full));
            && after.status == RunRejected && after.output == None && after.error == Some(reason)
            && after.visited == run.visited && after.fired == run.fired
            && DecidesFirst(run.steps, after.steps, Rejected)
  {
    SettleDecides(run.steps, Rejected);
    hide Settle, DecidesFirst;
  }

  /** Every event saves its decision, if it has one, in the first waiting step: an approval as a success
      with the decision for output and a duration of one, a rejection as rejected. A run that does not
      wait for approval keeps its steps. */
  lemma DecisionIsSaved(run: Run, event: Event)
    ensures run.status != RunWaitingApproval || event.Execute? ==> Decided(run, event) == run.steps
    ensures run.status == RunWaitingApproval && event.Approve? ==>
              DecidesFirst(run.steps, Decided(run, event), Success(StepData(event.decision, 1.0)))
    ensures run.status == RunWaitingApproval && event.Reject? ==>
              DecidesFirst(run.steps, Decided(run, event), Rejected)
  {
    if event.Approve? {
      SettleDecides(run.steps, Success(StepData(event.decision, APPROVAL_MS)));
    } else {
      SettleDecides(run.steps, Rejected);
    }
    hide Settle, DecidesFirst;
  }

  /** What an event makes of status, output and error. One that does not act leaves them alone; a pass
      that finishes succeeds with its last output, one that parks waits and one that breaks fails, both
      without an output, and one whose process dies is still running with what was there before. */
  lemma StatusAfter(d: Definition, st: Setting, run: Run, event: Event)
    requires Executable(d)
    ensures var after := Apply(d, st, run, event);
            && (!Acts(run, event) ==>
                  after.status == run.status && after.output == run.output && after.error == run.error
                  && after.steps == Decided(run, event))
            && (Acts(run, event) && event.Reject? ==>
                  after.status == RunRejected && after.output == None && after.error == Some(event.reason)
                  && after.steps == Decided(run, event))
            && (Acts(run, event) && !event.Reject? ==>
                  var p := PassUntil(d, st, event.world, event.life, Decided(run, event));
                  && after.steps == p.records && after.visited == p.visited && after.fired == p.fired
                  && match p.phase
                     case Going => after.status == RunSuccess && after.output == p.last && after.error == None
                     case Parked => after.status == RunWaitingApproval && after.output == None && after.error == None
                     case Broken(error) => after.status == RunFailed && after.output == None && after.error == Some(error)
                     case Died => after.status == RunRunning && after.output == run.output && after.error == run.error)
  {
    hide PassUntil, Settle;
  }

  // --- Histories ---

  /** The `i`-th event is the last that acted. */
  ghost predicate ActsLast(d: Definition, st: Setting, events: seq<Event>, i: nat)
    requires Executable(d)
  {
    && i < |events| && Acts(History(d, st, events[..i]), events[i])
    && forall j | i < j < |events| :: !Acts(History(d, st, events[..j]), events[j])
  }

  lemma ActsLastSnoc(d: Definition, st: Setting, events: seq<Event>, i: nat)
    requires Executable(d) && events != []
    ensures var n := |events| - 1;
            ActsLast(d, st, events, i) <==>
            if Acts(History(d, st, events[..n]), events[n]) then i == n else ActsLast(d, st, events[..n], i)
  {
    var n := |events| - 1;
    hide History, Acts;
    assert forall j | 0 <= j < n :: events[..n][..j] == events[..j] && events[..n][j] == events[j];
  }

  lemma IndexBelow(d: Definition, st: Setting, events: seq<Event>)
    requires Executable(d)
    ensures forall i: nat | ActsLast(d, st, events, i) :: i < |events|
  {
    hide Acts, History;
  }

  /** After any history a run is REJECTED exactly when the last event that acted is a rejection. */
  lemma {:induction false} RejectedExactly(d: Definition, st: Setting, events: seq<Event>)
    requires Executable(d)
    ensures History(d, st, events).status == RunRejected <==>
            exists i: nat :: ActsLast(d, st, events, i) && events[i].Reject?
  {
    if events == [] {
      NoEvents(d, st);
    } else {
      var n := |events| - 1;
      var run := History(d, st, events[..n]);
      RejectedExactly(d, st, events[..n]);
      OneMoreEvent(d, st, events[..n], events[n]);
      assert events == events[..n] + [events[n]];
      StatusAfter(d, st, run, events[n]);
      hide History, Acts, ActsLast, Apply, PassUntil;
      forall i: nat
        ensures ActsLast(d, st, events, i) <==> if Acts(run, events[n]) then i == n else ActsLast(d, st, events[..n], i)
      {
        ActsLastSnoc(d, st, events, i);
      }
      IndexBelow(d, st, events[..n]);
    }
  }

  /** What the status says of the rest of the record. */
  ghost predicate Honest(d: Definition, run: Run) {
    match run.status
    case RunSuccess => run.error == None && run.output.Some?
    case RunFailed =>
      run.output == None && run.error.Some? && run.steps != [] && run.steps[|run.steps| - 1].status == Failed(run.error.value)
    case RunWaitingApproval => run.output == None && run.error == None
    case RunRejected => run.output == None && run.error.Some?
    case RunRunning => true
  }

  lemma TurnHasOutput(d: Definition, st: Setting, w: World, completed: set<NodeId>, p: Pass)
    requires p.queue != [] && p.queue[0] in Ids(d.nodes) && completed <= p.steps.Keys
    requires p.last.Some? || p.queue[0] !in p.visited
    ensures Turn(d, st, w, completed, p).phase == Going ==> Turn(d, st, w, completed, p).last.Some?
  {
    hide Fired, Unvisited, Resolve, Context;
  }

  lemma {:induction false} FinishedHasOutput(d: Definition, st: Setting, w: World, completed: set<NodeId>, p: Pass)
    requires WellFormed(d) && QueueKnown(d, p.queue) && completed <= p.steps.Keys
    requires p.last.Some? || (p.queue != [] && p.queue[0] !in p.visited)
    ensures var q := Traverse(d, st, w, completed, p); q.phase == Going && p.phase == Going ==> q.last.Some?
    decreases Elements(Ids(d.nodes)) - Elements(p.visited), |p.queue|
  {
    if p.queue != [] && p.phase == Going {
      TraverseTurn(d, st, w, completed, p);
      var q := Turn(d, st, w, completed, p);
      TurnHasOutput(d, st, w, completed, p);
      if q.phase == Going {
        FinishedHasOutput(d, st, w, completed, q);
      }
    }
    hide Turn, WellFormed;
  }

  lemma StartHasNode(d: Definition)
    requires Executable(d)
    ensures Starts(d) != []
  {
  }

  /** What a pass that lives on leaves behind: an output if it finishes, a step that failed with its
      error if it breaks. */
  lemma PassHonest(d: Definition, st: Setting, w: World, life: Life, records: seq<StepRecord>)
    requires Executable(d) && !life.Dies?
    ensures var p := PassUntil(d, st, w, life, records);
            match p.phase
              case Going => p.last.Some?
              case Broken(error) => p.records != [] && p.records[|p.records| - 1].status == Failed(error)
              case _ => true
  {
    PassIs(d, st, w, life, records);
    StartHasNode(d);
    PassStopsBecause(d, st, w, life, records);
    FinishedHasOutput(d, st, w, Completed(records).Keys, StartPass(d, records));
    hide PassUntil, Traverse, Turns, Completed, Resolve, Context, NodeOf, Starts, Executable;
  }

  lemma PassDies(d: Definition, st: Setting, w: World, life: Life, records: seq<StepRecord>)
    requires Executable(d) && life.Dies?
    ensures PassUntil(d, st, w, life, records).phase == Died
  {
    hide Turns;
  }

  lemma ApplyHonest(d: Definition, st: Setting, run: Run, event: Event)
    requires Executable(d) && Honest(d, run)
    ensures Honest(d, Apply(d, st, run, event))
  {
    hide PassUntil, Apply, Decided, Executable;
    StatusAfter(d, st, run, event);
    DecisionIsSaved(run, event);
    if Acts(run, event) && !event.Reject? {
      if event.life.Dies? {
        PassDies(d, st, event.world, event.life, Decided(run, event));
      } else {
        PassHonest(d, st, event.world, event.life, Decided(run, event));
      }
    }
  }

  lemma NewRunHonest(d: Definition)
    ensures Honest(d, NEW_RUN)
  {
  }

  /** In every reachable state: a run that succeeded has an output and no error; one that failed has the
      error of its last step, which FAILED, and no output; one that waits has neither; one that was
      rejected has a reason and no output. */
  lemma {:induction false} StatusIsHonest(d: Definition, st: Setting, events: seq<Event>)
    requires Executable(d)
    ensures Honest(d, History(d, st, events))
  {
    hide *;
    if events == [] {
      NoEvents(d, st);
      NewRunHonest(d);
    } else {
      var n := |events| - 1;
      StatusIsHonest(d, st, events[..n]);
      OneMoreEvent(d, st, events[..n], events[n]);
      assert events == events[..n] + [events[n]];
      ApplyHonest(d, st, History(d, st, events[..n]), events[n]);
    }
  }
}
