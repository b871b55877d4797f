/** Approval gates over whole histories: which gate a decision settles, and when that is the one
    the run is parked at. */
module Gates {
  import opened Schema
  import opened Templates
  import opened Engine
  import opened Resume

  // --- Where a parked run is parked ---

  /** The last step waits for a decision on `g`, which has none yet. */
  ghost predicate ParkedAt(d: Definition, run: Run, g: NodeId) {
    && run.status == RunWaitingApproval
    && run.steps != []
    && var last := run.steps[|run.steps| - 1];
    && last.nodeId == g && last.status.WaitingApproval?
    && g !in Completed(run.steps)
    && g in Ids(d.nodes) && NodeOf(d.nodes, g).kind == APPROVAL
  }

  /** The pass ended at the gate `g`, which no record completes. */
  ghost predicate StoppedAt(d: Definition, p: Pass, g: NodeId) {
    && p.records != []
    && var last := p.records[|p.records| - 1];
    && last.nodeId == g && last.status.WaitingApproval?
    && g !in Completed(p.records)
    && g in Ids(d.nodes) && NodeOf(d.nodes, g).kind == APPROVAL
  }

  lemma TurnStops(d: Definition, st: Setting, w: World, records0: seq<StepRecord>, p: Pass)
    requires p.queue != [] && p.queue[0] in Ids(d.nodes) && PassOk(records0, p) && p.phase == Going
    ensures var q := Turn(d, st, w, Completed(records0).Keys, p);
            q.phase == Parked ==> StoppedAt(d, q, p.queue[0])
  {
    hide PassOk, Completed, Fired, Unvisited, Resolve, Context;
    PassOkFacts(records0, p);
    var q := Turn(d, st, w, Completed(records0).Keys, p);
    var u := p.queue[0];
    if q.phase == Parked {
      var a := Attempted(d, st, w, u, p.steps);
      assert q.records == p.records + [a.record];
      CompletedSnoc(p.records, a.record);
    }
  }

  lemma {:induction false} TraverseStops(d: Definition, st: Setting, w: World, records0: seq<StepRecord>, p: Pass)
      returns (g: NodeId)
    requires WellFormed(d) && QueueKnown(d, p.queue) && PassOk(records0, p) && p.phase == Going
    ensures var q := Traverse(d, st, w, Completed(records0).Keys, p); q.phase == Parked ==> StoppedAt(d, q, g)
    decreases Elements(Ids(d.nodes)) - Elements(p.visited), |p.queue|
  {
    g := "";
    if p.queue != [] {
      TraverseTurn(d, st, w, Completed(records0).Keys, p);
      var q := Turn(d, st, w, Completed(records0).Keys, p);
      TurnOk(d, st, w, records0, p);
      TurnStops(d, st, w, records0, p);
      if q.phase == Going {
        g := TraverseStops(d, st, w, records0, q);
      } else {
        g := p.queue[0];
      }
    }
    hide Turn, StoppedAt, PassOk;
  }

  /** Whatever the run was before: a pass that parks leaves it parked at an open gate. */
  lemma PassParks(d: Definition, st: Setting, w: World, life: Life, run: Run) returns (g: NodeId)
    requires Executable(d)
    ensures var p := PassUntil(d, st, w, life, run.steps); p.phase == Parked ==> ParkedAt(d, Conclude(run, p), g)
  {
    g := "";
    PassIs(d, st, w, life, run.steps);
    if !life.Dies? {
      g := TraverseStops(d, st, w, run.steps, StartPass(d, run.steps));
    }
    hide Traverse, Turns, Completed, PassUntil;
  }

  /** Unless the process dies between saving a decision and acting on it, a run that waits for
      approval is parked at an open gate. */
  lemma {:induction false} WaitingIsParked(d: Definition, st: Setting, events: seq<Event>)
    requires Executable(d)
    requires forall i | 0 <= i < |events| :: !events[i].life.DiesDeciding? && (events[i].Reject? ==> events[i].life.Full?)
    ensures History(d, st, events).status == RunWaitingApproval ==> exists g :: ParkedAt(d, History(d, st, events), g)
  {
    if events != [] {
      var n := |events| - 1;
      var run, event := History(d, st, events[..n]), events[n];
      WaitingIsParked(d, st, events[..n]);
      var settled := run.(steps := Decided(run, event));
      hide Completed, PassUntil, ParkedAt, Settle;
      if !event.Reject? && (event.Execute? || run.status == RunWaitingApproval) {
        var start := if event.Execute? then run else settled;
        var g := PassParks(d, st, event.world, event.life, start);
        assert History(d, st, events) == Conclude(start, PassUntil(d, st, event.world, event.life, start.steps));
      }
    }
  }

  // --- Which gate a decision completes ---

  lemma TurnSendsNoGate(d: Definition, st: Setting, w: World, completed: set<NodeId>, p: Pass)
    requires p.queue != [] && p.queue[0] in Ids(d.nodes) && completed <= p.steps.Keys
    requires forall v | v in p.dispatched :: v in Ids(d.nodes) && NodeOf(d.nodes, v).kind != APPROVAL
    ensures forall v | v in Turn(d, st, w, completed, p).dispatched :: v in Ids(d.nodes) && NodeOf(d.nodes, v).kind != APPROVAL
  {
    hide Fired, Unvisited, Resolve, Context;
  }

  lemma {:induction false} TraverseSendsNoGate(d: Definition, st: Setting, w: World, completed: set<NodeId>, p: Pass)
    requires WellFormed(d) && QueueKnown(d, p.queue) && completed <= p.steps.Keys
    requires forall v | v in p.dispatched :: v in Ids(d.nodes) && NodeOf(d.nodes, v).kind != APPROVAL
    ensures forall v | v in Traverse(d, st, w, completed, p).dispatched ::
              v in Ids(d.nodes) && NodeOf(d.nodes, v).kind != APPROVAL
    decreases Elements(Ids(d.nodes)) - Elements(p.visited), |p.queue|
  {
    if p.queue != [] && p.phase == Going {
      TraverseTurn(d, st, w, completed, p);
      TurnSendsNoGate(d, st, w, completed, p);
      TraverseSendsNoGate(d, st, w, completed, Turn(d, st, w, completed, p));
    }
    hide Turn, NodeOf;
  }

  lemma {:induction false} TurnsSendNoGate(d: Definition, st: Setting, w: World, completed: set<NodeId>, p: Pass, n: nat)
    requires WellFormed(d) && QueueKnown(d, p.queue) && completed <= p.steps.Keys
    requires forall v | v in p.dispatched :: v in Ids(d.nodes) && NodeOf(d.nodes, v).kind != APPROVAL
    ensures forall v | v in Turns(d, st, w, completed, p, n).dispatched ::
              v in Ids(d.nodes) && NodeOf(d.nodes, v).kind != APPROVAL
    decreases n
  {
    if n > 0 && p.queue != [] && p.phase == Going {
      TraverseTurn(d, st, w, completed, p);
      TurnSendsNoGate(d, st, w, completed, p);
      TurnsSendNoGate(d, st, w, completed, Turn(d, st, w, completed, p), n - 1);
    }
    hide Turn, NodeOf, Traverse;
  }

  /** Gates are never handed to a connector: only decisions complete them. */
  lemma GatesAreNeverDispatched(d: Definition, st: Setting, run: Run, event: Event)
    requires Executable(d)
    ensures forall v | v in Dispatched(d, st, run, event) :: v in Ids(d.nodes) && NodeOf(d.nodes, v).kind != APPROVAL
  {
    match PassStart(run, event)
    case Some(records) =>
      PassIs(d, st, event.world, event.life, records);
      var start := StartPass(d, records);
      TraverseSendsNoGate(d, st, event.world, Completed(records).Keys, start);
      if event.life.Dies? {
        TurnsSendNoGate(d, st, event.world, Completed(records).Keys, start, event.life.turns);
      }
      hide Traverse, Turns, Completed, PassUntil, NodeOf;
    case None =>
  }

  /** An approval completes the gate the run is parked at, and leaves every recorded output as
      it is, exactly when the first step still waiting is that gate's. */
  lemma ApprovalCompletesItsGateExactly(d: Definition, st: Setting, run: Run, g: NodeId, event: Event)
    requires Executable(d) && ParkedAt(d, run, g) && event.Approve?
    ensures FirstWaiting(run.steps) < |run.steps|
    ensures var before, after := Completed(run.steps), Completed(Apply(d, st, run, event).steps);
            && ((g in after && forall v | v in before :: v in after && after[v] == before[v])
                <==> run.steps[FirstWaiting(run.steps)].nodeId == g)
            && (g in after ==> after[g] == StepData(event.decision, APPROVAL_MS))
  {
    var i := FirstWaiting(run.steps);
    assert i < |run.steps|;
    var status := Success(StepData(event.decision, APPROVAL_MS));
    CompletedUpdate(run.steps, i, status);
    LatestSuccessWins(run.steps, g);
    if LaterSuccess(run.steps, i, g) {
      LaterIsCompleted(run.steps, i, g);
    }
    ApplyExtends(d, st, run, event);
    GatesAreNeverDispatched(d, st, run, event);
    assert Decided(run, event) == run.steps[i := run.steps[i].(status := status)];
    OutputsKeptExactly(d, st, run, event);
    hide Completed, LaterSuccess, Apply, Dispatched, FirstWaiting;
  }

  // --- A decision that settles the wrong gate ---

  /** Two gates in a row. */
  function TwoGates(g: NodeId, h: NodeId): (d: Definition)
    ensures Ids(d.nodes) == [g, h]
  {
    Definition([Node(g, APPROVAL, Fixed(Null)), Node(h, APPROVAL, Fixed(Null))], [Edge(g, h, [])])
  }

  function Waiting(g: NodeId): StepRecord {
    StepRecord(g, Null, WaitingApproval)
  }

  function Approved(g: NodeId, decision: map<string, Value>): StepRecord {
    StepRecord(g, Null, Success(StepData(decision, APPROVAL_MS)))
  }

  lemma TwoGatesStart(g: NodeId, h: NodeId)
    requires g != h
    ensures Executable(TwoGates(g, h)) && Starts(TwoGates(g, h)) == [g]
  {
    var d := TwoGates(g, h);
    var ids := Ids(d.nodes);
    assert d.edges[0] in d.edges;
    assert forall v :: HasIncoming(d.edges, v) <==> v == h;
    assert ids[..1] == [g] && WithoutIncoming([], d.edges) == [] && [g][..0] == [];
    assert WithoutIncoming([g], d.edges) == [g];
  }

  lemma GateFires(g: NodeId, h: NodeId, st: Setting, steps: map<NodeId, StepData>)
    requires g != h
    ensures Unvisited(Fired(TwoGates(g, h), st, g, steps), [g]) == [h]
  {
    var d, e, context := TwoGates(g, h), Edge(g, h, []), Context(st, steps);
    assert EvaluateCondition([], context, st.render);
    hide EvaluateCondition, Context;
    assert d.edges == [] + [e];
    NothingFired(g, context, st.render, [g]);
    FiringSnoc([], e, g, context, st.render);
    assert [] + [e] == [e];
    UnvisitedSnoc([], e, [g]);
  }

  /** One turn on a gate that no record completes. */
  lemma GateParks(d: Definition, st: Setting, w: World, completed: set<NodeId>, p: Pass, u: NodeId)
    requires WellFormed(d) && QueueKnown(d, p.queue) && completed <= p.steps.Keys
    requires p.queue != [] && p.queue[0] == u && u !in p.visited && u !in completed && p.phase == Going
    requires u in Ids(d.nodes) && NodeOf(d.nodes, u).kind == APPROVAL && NodeOf(d.nodes, u).config == Fixed(Null)
    ensures var q := Traverse(d, st, w, completed, p);
            q.records == p.records + [Waiting(u)] && q.phase == Parked
  {
    TraverseTurn(d, st, w, completed, p);
    hide Traverse, Fired, Unvisited, Context, NodeOf;
  }

  lemma SecondNode(nodes: seq<Node>, g: NodeId, h: NodeId)
    requires |nodes| == 2 && nodes[0].id == g && nodes[1].id == h && g != h && h in Ids(nodes)
    ensures NodeOf(nodes, h) == nodes[1]
  {
    assert Ids(nodes) == [nodes[0].id] + Ids(nodes[1..]);
    assert nodes[1..][0] == nodes[1];
  }

  /** A pass over two gates parks at the first while it is open, and at the second after. */
  lemma TwoGatesPass(g: NodeId, h: NodeId, st: Setting, w: World, records: seq<StepRecord>)
    requires g != h && h !in Completed(records)
    ensures Executable(TwoGates(g, h))
    ensures var p := PassUntil(TwoGates(g, h), st, w, Full, records);
            p.records == records + [Waiting(if g in Completed(records) then h else g)] && p.phase == Parked
  {
    var d := TwoGates(g, h);
    TwoGatesStart(g, h);
    PassIs(d, st, w, Full, records);
    var p, completed := StartPass(d, records), Completed(records).Keys;
    assert NodeOf(d.nodes, g) == d.nodes[0];
    SecondNode(d.nodes, g, h);
    hide Completed, Starts, StartPass, Traverse, Turns, PassUntil, NodeOf, Fired, TwoGates;
    if g !in completed {
      GateParks(d, st, w, completed, p, g);
    } else {
      TraverseTurn(d, st, w, completed, p);
      var q := Turn(d, st, w, completed, p);
      assert p.steps[g := p.steps[g]] == p.steps;
      GateFires(g, h, st, p.steps);
      assert p.queue[1..] == [] && [] + [g] == [g] && [] + [h] == [h];
      assert q.queue == [h] && q.visited == [g] && q.records == records;
      hide Turn;
      GateParks(d, st, w, completed, q, h);
    }
  }

  /** An event that starts a pass over two gates, the second still open. */
  lemma TwoGatesEvent(g: NodeId, h: NodeId, st: Setting, run: Run, event: Event)
    requires g != h && !event.Reject? && event.life.Full? && (event.Approve? ==> run.status == RunWaitingApproval)
    requires h !in Completed(Decided(run, event)) && (event.Execute? ==> Decided(run, event) == run.steps)
    ensures Executable(TwoGates(g, h))
    ensures var after := Apply(TwoGates(g, h), st, run, event);
            var steps := Decided(run, event);
            after.status == RunWaitingApproval && after.steps == steps + [Waiting(if g in Completed(steps) then h else g)]
  {
    TwoGatesPass(g, h, st, event.world, Decided(run, event));
    hide Completed, PassUntil, Settle, TwoGates;
  }

  lemma SmallCompleted(g: NodeId, h: NodeId, first: map<string, Value>, second: map<string, Value>)
    ensures Completed([]) == map[] && Completed([Waiting(g)]) == map[]
    ensures Completed([Approved(g, first), Waiting(g)]) == map[g := StepData(first, APPROVAL_MS)]
    ensures Completed([Approved(g, first), Waiting(g), Waiting(h)]) == map[g := StepData(first, APPROVAL_MS)]
    ensures Completed([Approved(g, first), Approved(g, second), Waiting(h)]) == map[g := StepData(second, APPROVAL_MS)]
    ensures Completed([Approved(g, first), Approved(g, second), Waiting(h), Waiting(h)]) == map[g := StepData(second, APPROVAL_MS)]
  {
    var x, y := Approved(g, first), Approved(g, second);
    NothingCompleted();
    hide Completed;
    assert map[g := StepData(first, APPROVAL_MS)][g := StepData(second, APPROVAL_MS)] == map[g := StepData(second, APPROVAL_MS)];
    CompletedSnoc([], Waiting(g));
    CompletedSnoc([], x);
    CompletedSnoc([x], Waiting(g));
    CompletedSnoc([x, Waiting(g)], Waiting(h));
    CompletedSnoc([x], y);
    CompletedSnoc([x, y], Waiting(h));
    CompletedSnoc([x, y, Waiting(h)], Waiting(h));
    assert [] + [Waiting(g)] == [Waiting(g)] && [] + [x] == [x] && [x] + [Waiting(g)] == [x, Waiting(g)];
    assert [x, Waiting(g)] + [Waiting(h)] == [x, Waiting(g), Waiting(h)] && [x] + [y] == [x, y];
    assert [x, y] + [Waiting(h)] == [x, y, Waiting(h)] && [x, y, Waiting(h)] + [Waiting(h)] == [x, y, Waiting(h), Waiting(h)];
  }

  /** Executed twice, the run waits twice at its first gate. */
  lemma ParkedTwice(g: NodeId, h: NodeId, st: Setting, w: World)
    requires g != h
    ensures Executable(TwoGates(g, h))
    ensures var run := History(TwoGates(g, h), st, [Execute(w, Full), Execute(w, Full)]);
            run.status == RunWaitingApproval && run.steps == [Waiting(g), Waiting(g)]
  {
    var d, e := TwoGates(g, h), Execute(w, Full);
    TwoGatesStart(g, h);
    NoEvents(d, st);
    SmallCompleted(g, h, map[], map[]);
    hide Completed, PassUntil, TwoGates, Apply, History;
    OneMoreEvent(d, st, [], e);
    OneMoreEvent(d, st, [e], e);
    assert [] + [e] == [e] && [e] + [e] == [e, e];
    TwoGatesEvent(g, h, st, NEW_RUN, e);
    TwoGatesEvent(g, h, st, History(d, st, [e]), e);
  }

  lemma ApprovedParks(g: NodeId, h: NodeId, st: Setting, run: Run, decision: map<string, Value>, w: World)
    requires g != h && run.status == RunWaitingApproval
    requires h !in Completed(Settle(run.steps, Success(StepData(decision, APPROVAL_MS))))
    ensures Executable(TwoGates(g, h))
    ensures var after := Apply(TwoGates(g, h), st, run, Approve(decision, w, Full));
            var steps := Settle(run.steps, Success(StepData(decision, APPROVAL_MS)));
            after.status == RunWaitingApproval && after.steps == steps + [Waiting(if g in Completed(steps) then h else g)]
  {
    TwoGatesEvent(g, h, st, run, Approve(decision, w, Full));
    hide Completed, PassUntil, Settle, TwoGates, Apply;
  }

  lemma StaleSettled(g: NodeId, h: NodeId, first: map<string, Value>, second: map<string, Value>)
    ensures Settle([Waiting(g), Waiting(g)], Success(StepData(first, APPROVAL_MS))) == [Approved(g, first), Waiting(g)]
    ensures Settle([Approved(g, first), Waiting(g), Waiting(h)], Success(StepData(second, APPROVAL_MS))) ==
            [Approved(g, first), Approved(g, second), Waiting(h)]
  {
    var s3 := [Approved(g, first), Waiting(g), Waiting(h)];
    assert s3[1..][0] == Waiting(g);
  }

  /** Executing a run that waits at its first gate and then approving twice: the second decision,
      meant for the second gate, overwrites the first, and the second gate stays open. */
  lemma StaleStepTakesTheDecision(g: NodeId, h: NodeId, st: Setting, w: World,
                                  first: map<string, Value>, second: map<string, Value>)
    requires g != h
    ensures Executable(TwoGates(g, h))
    ensures var d := TwoGates(g, h);
            var events := [Execute(w, Full), Execute(w, Full), Approve(first, w, Full)];
            var run := History(d, st, events);
            var after := History(d, st, events + [Approve(second, w, Full)]);
            && run.status == RunWaitingApproval && run.steps == [Approved(g, first), Waiting(g), Waiting(h)]
            && Completed(run.steps) == map[g := StepData(first, APPROVAL_MS)]
            && after.status == RunWaitingApproval
            && after.steps == [Approved(g, first), Approved(g, second), Waiting(h), Waiting(h)]
            && Completed(after.steps) == map[g := StepData(second, APPROVAL_MS)]
  {
    var e, a, b := Execute(w, Full), Approve(first, w, Full), Approve(second, w, Full);
    hide *;
    TwoGatesStart(g, h);
    ParkedTwice(g, h, st, w);
    SmallCompleted(g, h, first, second);
    StaleSettled(g, h, first, second);
    var d := TwoGates(g, h);
    var r2 := History(d, st, [e, e]);
    ApprovedParks(g, h, st, r2, first, w);
    OneMoreEvent(d, st, [e, e], a);
    assert [e, e] + [a] == [e, e, a];
    var r3 := History(d, st, [e, e, a]);
    assert r3.steps == [Approved(g, first), Waiting(g), Waiting(h)];
    ApprovedParks(g, h, st, r3, second, w);
    OneMoreEvent(d, st, [e, e, a], b);
  }
}
