/** What interruptions can and cannot change: exactly-once dispatch, the outputs recovery knows, and
    the visited set. */
module Resume {
  import opened Templates
  import opened Schema
  import opened Engine
  import opened Validation

  // --- Facts every pass keeps ---

  ghost predicate PassOk(records0: seq<StepRecord>, p: Pass) {
    var done0 := Completed(records0);
    && records0 <= p.records
    && Completed(p.records) == p.steps
    && (forall v | v in done0 :: v in p.steps && p.steps[v] == done0[v])
    && NoDuplicates(p.visited) && NoDuplicates(p.dispatched)
    && (forall v | v in p.dispatched :: v in p.visited && v !in done0)
    && (forall v | v in p.steps :: v in done0 || v in p.dispatched)
    && (done0 == map[] && p.phase == Going ==> p.dispatched == p.visited)
  }

  lemma CompletedSnoc(records: seq<StepRecord>, r: StepRecord)
    ensures Completed(records + [r]) ==
            if r.status.Success? then Completed(records)[r.nodeId := r.status.data] else Completed(records)
  {
    assert (records + [r])[..|records|] == records;
  }

  lemma NothingCompleted()
    ensures Completed([]) == map[]
  {
  }

  lemma NoDuplicatesSnoc<T>(s: seq<T>, x: T)
    requires NoDuplicates(s) && x !in s
    ensures NoDuplicates(s + [x])
  {
  }

  lemma CompleteOk(d: Definition, st: Setting, records0: seq<StepRecord>, p: Pass, u: NodeId)
    requires p.visited != [] && p.visited[|p.visited| - 1] == u && u in p.steps
    requires PassOk(records0, p)
    ensures PassOk(records0, Complete(d, st, p, u, p.steps[u]))
  {
    hide Fired, Unvisited;
    assert p.steps[u := p.steps[u]] == p.steps;
  }

  lemma VisitOk(d: Definition, st: Setting, records0: seq<StepRecord>, p: Pass, u: NodeId, a: Attempt)
    requires PassOk(records0, p) && p.phase == Going && u !in p.visited && u !in Completed(records0)
    requires a.record.nodeId == u && (a.data.Some? <==> a.phase == Going) && (a.phase == Going ==> a.sent)
    requires if a.phase == Going then a.record.status == Success(a.data.value) else !a.record.status.Success?
    ensures var q := p.(visited := p.visited + [u], records := p.records + [a.record],
                        dispatched := if a.sent then p.dispatched + [u] else p.dispatched);
            PassOk(records0, if a.phase == Going then Complete(d, st, q, u, a.data.value) else q.(phase := a.phase))
  {
    hide Fired, Unvisited;
    CompletedSnoc(p.records, a.record);
    NoDuplicatesSnoc(p.visited, u);
    NoDuplicatesSnoc(p.dispatched, u);
    hide Completed;
  }

  lemma RestOk(records0: seq<StepRecord>, p: Pass, rest: seq<NodeId>)
    requires PassOk(records0, p)
    ensures PassOk(records0, p.(queue := rest)) && Completed(records0).Keys <= p.steps.Keys
  {
    hide Completed;
  }

  lemma SeenOk(records0: seq<StepRecord>, p: Pass, u: NodeId, rest: seq<NodeId>)
    requires PassOk(records0, p) && u !in p.visited && u in Completed(records0)
    ensures u in p.steps && PassOk(records0, p.(queue := rest, visited := p.visited + [u]))
  {
    hide Completed;
    NoDuplicatesSnoc(p.visited, u);
    assert Completed(records0) != map[];
  }

  lemma TurnOk(d: Definition, st: Setting, w: World, records0: seq<StepRecord>, p: Pass)
    requires p.queue != [] && p.queue[0] in Ids(d.nodes)
    requires PassOk(records0, p) && p.phase == Going
    ensures PassOk(records0, Turn(d, st, w, Completed(records0).Keys, p))
  {
    hide Fired, Unvisited, Completed, Resolve, Context, PassOk, Complete;
    var u := p.queue[0];
    var done0 := Completed(records0);
    RestOk(records0, p, p.queue[1..]);
    if u !in p.visited {
      if u in done0 {
        SeenOk(records0, p, u, p.queue[1..]);
        CompleteOk(d, st, records0, p.(queue := p.queue[1..], visited := p.visited + [u]), u);
      } else {
        VisitOk(d, st, records0, p.(queue := p.queue[1..]), u, Attempted(d, st, w, u, p.steps));
      }
    }
  }

  lemma {:induction false} TraverseOk(d: Definition, st: Setting, w: World, records0: seq<StepRecord>, p: Pass)
    requires WellFormed(d) && QueueKnown(d, p.queue) && PassOk(records0, p)
    ensures PassOk(records0, Traverse(d, st, w, Completed(records0).Keys, p))
    decreases Elements(Ids(d.nodes)) - Elements(p.visited), |p.queue|
  {
    if p.queue != [] && p.phase == Going {
      TraverseTurn(d, st, w, Completed(records0).Keys, p);
      TurnOk(d, st, w, records0, p);
      TraverseOk(d, st, w, records0, Turn(d, st, w, Completed(records0).Keys, p));
    }
  }

  lemma PassOkFacts(records0: seq<StepRecord>, p: Pass)
    requires PassOk(records0, p)
    ensures Completed(records0).Keys <= p.steps.Keys && Completed(p.records) == p.steps
    ensures forall v | v in p.steps :: v in Completed(records0) || v in p.visited
  {
    hide Completed;
  }

  lemma {:induction false} TurnsOk(d: Definition, st: Setting, w: World, records0: seq<StepRecord>, p: Pass, n: nat)
    requires WellFormed(d) && QueueKnown(d, p.queue) && PassOk(records0, p)
    ensures PassOk(records0, Turns(d, st, w, Completed(records0).Keys, p, n))
    decreases n
  {
    hide *;
    var completed := Completed(records0).Keys;
    PassOkFacts(records0, p);
    TurnsUnfold(d, st, w, completed, p, n);
    if n > 0 && p.queue != [] && p.phase == Going {
      TurnOk(d, st, w, records0, p);
      TurnsOk(d, st, w, records0, Turn(d, st, w, completed, p), n - 1);
    }
  }

  lemma PassUntilOk(d: Definition, st: Setting, w: World, life: Life, records: seq<StepRecord>)
    requires Executable(d)
    ensures PassOk(records, PassUntil(d, st, w, life, records))
  {
    PassIs(d, st, w, life, records);
    var start := StartPass(d, records);
    assert PassOk(records, start);
    hide Traverse, Turns, Completed, WellFormed, PassUntil;
    if life.Dies? {
      TurnsOk(d, st, w, records, start, life.turns);
    } else {
      TraverseOk(d, st, w, records, start);
    }
  }

  /** One pass, however long the process lives: nothing already recorded SUCCESS is dispatched,
      nothing is dispatched twice, earlier records stay, and recovery would see exactly the
      pass's own results on top of what it saw before. */
  lemma PassDispatchesOnce(d: Definition, st: Setting, w: World, life: Life, records: seq<StepRecord>)
    requires Executable(d)
    ensures var p := PassUntil(d, st, w, life, records);
            && NoDuplicates(p.dispatched)
            && (forall v | v in p.dispatched :: v !in Completed(records))
            && records <= p.records
            && Completed(p.records) == p.steps
            && (forall v | v in Completed(records) :: v in p.steps && p.steps[v] == Completed(records)[v])
            && (forall v | v in p.steps :: v in Completed(records) || v in p.dispatched)
  {
    PassUntilOk(d, st, w, life, records);
    hide PassUntil, Completed;
  }

  // --- Exactly-once over a whole history ---

  /** The records with which an event starts a pass, if it starts one. */
  function PassStart(run: Run, event: Event): Option<seq<StepRecord>> {
    match event
    case Execute(_, life) => if life.DiesDeciding? then None else Some(run.steps)
    case Approve(decision, _, life) =>
      if run.status == RunWaitingApproval && !life.DiesDeciding?
      then Some(Settle(run.steps, Success(StepData(decision, APPROVAL_MS)))) else None
    case Reject(_, _) => None
  }

  /** The nodes an event hands to a connector. */
  function Dispatched(d: Definition, st: Setting, run: Run, event: Event): seq<NodeId>
    requires Executable(d)
  {
    match PassStart(run, event)
    case Some(records) => PassUntil(d, st, event.world, event.life, records).dispatched
    case None => []
  }

  /** The records as an event leaves them before any pass it starts: a decision may be saved. */
  function Decided(run: Run, event: Event): seq<StepRecord> {
    if run.status != RunWaitingApproval then run.steps
    else
      match event
      case Execute(_, _) => run.steps
      case Approve(decision, _, _) => Settle(run.steps, Success(StepData(decision, APPROVAL_MS)))
      case Reject(_, _) => Settle(run.steps, Rejected)
  }

  /** An event saves its decision first; the pass it starts only adds to what recovery knows. */
  lemma ApplyExtends(d: Definition, st: Setting, run: Run, event: Event)
    requires Executable(d)
    ensures var before, after := Completed(Decided(run, event)), Completed(Apply(d, st, run, event).steps);
            && (forall v | v in before :: v in after && after[v] == before[v])
            && (forall v | v in after :: v in before || v in Dispatched(d, st, run, event))
            && (forall v | v in Dispatched(d, st, run, event) :: v !in before)
            && NoDuplicates(Dispatched(d, st, run, event))
  {
    hide Completed, PassUntil, Settle, WellFormed;
    match PassStart(run, event)
    case Some(records) =>
      PassDispatchesOnce(d, st, event.world, event.life, records);
      assert Apply(d, st, run, event).steps == PassUntil(d, st, event.world, event.life, records).records;
    case None =>
  }

  /** A success of the node recorded after the `i`-th record. */
  ghost predicate LaterSuccess(records: seq<StepRecord>, i: nat, v: NodeId) {
    exists j | i < j < |records| :: records[j].nodeId == v && records[j].status.Success?
  }

  lemma {:induction false} LatestFrom(records: seq<StepRecord>, v: NodeId, j: nat) returns (k: nat)
    requires j < |records| && records[j].nodeId == v && records[j].status.Success?
    ensures IsLatestSuccess(records, v, k)
    decreases |records| - j
  {
    if x :| j < x < |records| && records[x].nodeId == v && records[x].status.Success? {
      k := LatestFrom(records, v, x);
    } else {
      k := j;
    }
  }

  lemma LaterIsCompleted(records: seq<StepRecord>, i: nat, v: NodeId)
    requires LaterSuccess(records, i, v)
    ensures v in Completed(records)
  {
    var j :| i < j < |records| && records[j].nodeId == v && records[j].status.Success?;
    var k := LatestFrom(records, v, j);
    LatestSuccessWins(records, v);
  }

  lemma LaterSnoc(records: seq<StepRecord>, i: nat, v: NodeId)
    requires i < |records| - 1
    ensures var n := |records| - 1;
            LaterSuccess(records, i, v) <==>
            LaterSuccess(records[..n], i, v) || (records[n].nodeId == v && records[n].status.Success?)
  {
    var n := |records| - 1;
    assert forall j | 0 <= j < n :: records[..n][j] == records[j];
  }

  /** Deciding a record changes what recovery knows about its own node at most: to the decision's
      data if it is an approval and the node has no later success. */
  lemma {:induction false} CompletedUpdate(records: seq<StepRecord>, i: nat, status: StepStatus)
    requires i < |records| && !records[i].status.Success?
    ensures var v := records[i].nodeId;
            Completed(records[i := records[i].(status := status)]) ==
            if status.Success? && !LaterSuccess(records, i, v) then Completed(records)[v := status.data] else Completed(records)
  {
    var n := |records| - 1;
    var r := records[i].(status := status);
    var v := r.nodeId;
    if i == n {
      assert records[i := r][..n] == records[..n];
    } else {
      var front := records[..n];
      assert records[i := r][..n] == front[i := r];
      CompletedUpdate(front, i, status);
      assert LaterSuccess(records, i, v) <==>
             LaterSuccess(front, i, v) || (records[n].nodeId == v && records[n].status.Success?) by {
        LaterSnoc(records, i, v);
      }
      hide LaterSuccess;
    }
  }

  /** The approval would give a node that is completed already other data than it has. */
  ghost predicate Overwrites(run: Run, event: Event) {
    && event.Approve? && run.status == RunWaitingApproval
    && var i := FirstWaiting(run.steps);
    && i < |run.steps|
    && var v := run.steps[i].nodeId;
    && v in Completed(run.steps) && !LaterSuccess(run.steps, i, v)
    && Completed(run.steps)[v] != StepData(event.decision, APPROVAL_MS)
  }

  lemma DecidedCompleted(run: Run, event: Event)
    ensures var before, after := Completed(run.steps), Completed(Decided(run, event));
            && before.Keys <= after.Keys
            && ((forall v | v in before :: after[v] == before[v]) <==> !Overwrites(run, event))
  {
    var i := FirstWaiting(run.steps);
    if i < |run.steps| && run.status == RunWaitingApproval && !event.Execute? {
      var status := if event.Approve? then Success(StepData(event.decision, APPROVAL_MS)) else Rejected;
      CompletedUpdate(run.steps, i, status);
      hide Completed, LaterSuccess, FirstWaiting;
    }
  }

  /** One event leaves every recorded output as it is, exactly when it is not an approval that
      settles a waiting step of a node completed before, with a different decision. */
  lemma OutputsKeptExactly(d: Definition, st: Setting, run: Run, event: Event)
    requires Executable(d)
    ensures var before, after := Completed(run.steps), Completed(Apply(d, st, run, event).steps);
            && before.Keys <= after.Keys
            && ((forall v | v in before :: after[v] == before[v]) <==> !Overwrites(run, event))
  {
    DecidedCompleted(run, event);
    ApplyExtends(d, st, run, event);
    hide *;
  }

  lemma OneMoreEvent(d: Definition, st: Setting, events: seq<Event>, event: Event)
    requires Executable(d)
    ensures History(d, st, events + [event]) == Apply(d, st, History(d, st, events), event)
  {
    hide Apply;
    assert (events + [event])[..|events|] == events;
  }

  lemma {:induction false} CompletedGrows(d: Definition, st: Setting, events: seq<Event>, i: nat)
    requires Executable(d) && i <= |events|
    ensures Completed(History(d, st, events[..i]).steps).Keys <= Completed(History(d, st, events).steps).Keys
    ensures (forall j | i <= j < |events| :: !Overwrites(History(d, st, events[..j]), events[j])) ==>
              forall v | v in Completed(History(d, st, events[..i]).steps) ::
                v in Completed(History(d, st, events).steps)
                && Completed(History(d, st, events).steps)[v] == Completed(History(d, st, events[..i]).steps)[v]
  {
    hide *;
    if i < |events| {
      var n := |events| - 1;
      var front := events[..n];
      CompletedGrows(d, st, front, i);
      assert front[..i] == events[..i];
      assert forall j | i <= j < n :: front[..j] == events[..j] && front[j] == events[j];
      OutputsKeptExactly(d, st, History(d, st, front), events[n]);
      OneMoreEvent(d, st, front, events[n]);
      assert front + [events[n]] == events;
    } else {
      assert events[..i] == events;
    }
  }

  lemma NoEvents(d: Definition, st: Setting)
    requires Executable(d)
    ensures History(d, st, []) == NEW_RUN
  {
  }

  /** Across any history of execute, approve, reject, park and fail, in which the process may die
      after any turn: once a node's step is recorded SUCCESS, no later event dispatches the node
      again; and its output stays as recorded unless an approval overwrites a completed gate. */
  lemma NeverDispatchedAgain(d: Definition, st: Setting, events: seq<Event>, i: nat, j: nat)
    requires Executable(d) && i <= j < |events|
    ensures var before := Completed(History(d, st, events[..i]).steps);
            var run := History(d, st, events[..j]);
            && (forall v | v in before :: v in Completed(run.steps) && v !in Dispatched(d, st, run, events[j]))
            && ((forall k | i <= k < j :: !Overwrites(History(d, st, events[..k]), events[k])) ==>
                  forall v | v in before :: Completed(run.steps)[v] == before[v])
  {
    hide *;
    CompletedGrows(d, st, events[..j], i);
    assert events[..j][..i] == events[..i];
    assert forall k | i <= k < j :: events[..j][..k] == events[..k] && events[..j][k] == events[k];
    DecidedCompleted(History(d, st, events[..j]), events[j]);
    ApplyExtends(d, st, History(d, st, events[..j]), events[j]);
  }

  // --- What a finished pass visits ---

  function Flatten(logs: seq<seq<Edge>>): seq<Edge> {
    if logs == [] then [] else Flatten(logs[..|logs| - 1]) + logs[|logs| - 1]
  }

  lemma FlattenSnoc(logs: seq<seq<Edge>>, log: seq<Edge>)
    ensures Flatten(logs + [log]) == Flatten(logs) + log
  {
    assert (logs + [log])[..|logs|] == logs;
  }

  lemma ReachesMonotone(a: seq<Edge>, b: seq<Edge>, u: NodeId, v: NodeId)
    requires forall e | e in a :: e in b
    requires Reaches(a, u, v)
    ensures Reaches(b, u, v)
  {
    var p :| IsWalk(a, p) && p[0] == u && p[|p| - 1] == v;
    assert IsWalk(b, p);
  }

  /** The traversal invariant: everything seen hangs below a start node by fired edges,
      and every fired edge leads to something seen. */
  ghost predicate Traced(d: Definition, p: Pass)
    requires d.nodes != []
  {
    var fired := Flatten(p.fired);
    && (forall v | v in Starts(d) :: v in p.visited || v in p.queue)
    && (forall v | v in p.visited || v in p.queue :: Reached(Starts(d), fired, v))
    && (forall e | e in fired :: e in d.edges && e.source in p.visited && (e.target in p.visited || e.target in p.queue))
  }

  lemma ReachedMonotone(entries: seq<NodeId>, a: seq<Edge>, b: seq<Edge>)
    requires forall e | e in a :: e in b
    ensures forall v | Reached(entries, a, v) :: Reached(entries, b, v)
  {
    forall v | Reached(entries, a, v)
      ensures Reached(entries, b, v)
    {
      var u :| u in entries && Reaches(a, u, v);
      ReachesMonotone(a, b, u, v);
    }
  }

  lemma CompleteTraced(d: Definition, st: Setting, p: Pass, u: NodeId, data: StepData)
    requires d.nodes != [] && u in p.visited
    requires Traced(d, p)
    ensures Traced(d, Complete(d, st, p, u, data))
  {
    var q := Complete(d, st, p, u, data);
    var fired := Fired(d, st, u, q.steps);
    FlattenSnoc(p.fired, fired);
    FiredMembers(d, st, u, q.steps);
    UnvisitedMembers(fired, p.visited);
    var before, after := Flatten(p.fired), Flatten(q.fired);
    assert forall e :: e in after <==> e in before || e in fired;
    ReachedMonotone(Starts(d), before, after);
    forall v | v in Unvisited(fired, p.visited)
      ensures Reached(Starts(d), after, v)
    {
      var e :| e in fired && e.target == v;
      assert Linked(after, u, v);
      var s :| s in Starts(d) && Reaches(after, s, u);
      ReachesStep(after, s, u, v);
    }
  }

  lemma TurnTraced(d: Definition, st: Setting, w: World, completed: set<NodeId>, p: Pass)
    requires d.nodes != [] && p.queue != [] && p.queue[0] in Ids(d.nodes) && completed <= p.steps.Keys
    requires Traced(d, p)
    ensures Traced(d, Turn(d, st, w, completed, p))
  {
    var u := p.queue[0];
    assert p.queue == [u] + p.queue[1..];
    var p' := if u in p.visited then p.(queue := p.queue[1..])
              else p.(queue := p.queue[1..], visited := p.visited + [u]);
    assert Traced(d, p');
    if u !in p.visited {
      if u in completed {
        CompleteTraced(d, st, p', u, p.steps[u]);
      } else {
        var a := Attempted(d, st, w, u, p.steps);
        var p'' := p'.(records := p.records + [a.record],
                       dispatched := if a.sent then p.dispatched + [u] else p.dispatched);
        assert Traced(d, p'');
        if a.phase == Going {
          CompleteTraced(d, st, p'', u, a.data.value);
        }
      }
    }
  }

  lemma {:induction false} TraverseTraced(d: Definition, st: Setting, w: World, completed: set<NodeId>, p: Pass)
    requires Executable(d) && QueueKnown(d, p.queue) && completed <= p.steps.Keys
    requires Traced(d, p)
    ensures var q := Traverse(d, st, w, completed, p);
            Traced(d, q) && (q.phase == Going ==> q.queue == [])
    decreases Elements(Ids(d.nodes)) - Elements(p.visited), |p.queue|
  {
    if p.queue != [] && p.phase == Going {
      TraverseTurn(d, st, w, completed, p);
      TurnTraced(d, st, w, completed, p);
      TraverseTraced(d, st, w, completed, Turn(d, st, w, completed, p));
    }
  }

  lemma StartTraced(d: Definition, records: seq<StepRecord>)
    requires d.nodes != []
    ensures Traced(d, StartPass(d, records))
  {
    forall v | v in Starts(d)
      ensures Reached(Starts(d), [], v)
    {
      assert IsWalk([], [v]);
      assert Reaches([], v, v);
    }
  }

  /** A pass that runs to the end visits exactly the least set that contains the start nodes
      and is closed under the edges that fired. */
  lemma VisitsLeastClosedSet(d: Definition, st: Setting, w: World, records: seq<StepRecord>)
    requires Executable(d)
    requires PassOver(d, st, w, records).phase == Going
    ensures var p := PassOver(d, st, w, records);
            forall v :: v in p.visited <==> Reached(Starts(d), Flatten(p.fired), v)
  {
    var p := PassOver(d, st, w, records);
    StartsKnown(d);
    StartTraced(d, records);
    TraverseTraced(d, st, w, Completed(records).Keys, StartPass(d, records));
    forall v | Reached(Starts(d), Flatten(p.fired), v)
      ensures v in p.visited
    {
      var s :| s in Starts(d) && Reaches(Flatten(p.fired), s, v);
      var walk :| IsWalk(Flatten(p.fired), walk) && walk[0] == s && walk[|walk| - 1] == v;
      ClosedUnderWalks(Flatten(p.fired), Elements(p.visited), walk);
    }
  }

  // --- A definition whose edges all fire ---

  /** An accepted definition has a source, so the fallback to the first node is never taken. */
  lemma StartsAreSources(d: Definition)
    requires Executable(d) && Acyclic(d.edges)
    ensures forall v :: v in Starts(d) <==> IsSource(d, v)
  {
    WithoutIncomingMembers(Ids(d.nodes), d.edges);
    var first := d.nodes[0].id;
    assert Ids(d.nodes)[0] == first;
    SourcesReachAll(d, first);
    var u :| IsSource(d, u) && Reaches(d.edges, u, first);
    assert u in WithoutIncoming(Ids(d.nodes), d.edges);
  }

  /** Every edge out of a visited node fired. */
  ghost predicate AllFired(d: Definition, p: Pass) {
    forall e | e in d.edges && e.source in p.visited :: e in Flatten(p.fired)
  }

  /** Following fired edges from the sources, such a pass has been everywhere. */
  lemma AllVisited(d: Definition, p: Pass)
    requires Executable(d) && Acyclic(d.edges) && Traced(d, p) && p.queue == [] && AllFired(d, p)
    ensures forall v | v in Ids(d.nodes) :: v in p.visited
  {
    StartsAreSources(d);
    forall v | v in Ids(d.nodes)
      ensures v in p.visited
    {
      SourcesReachAll(d, v);
      var u :| IsSource(d, u) && Reaches(d.edges, u, v);
      var walk :| IsWalk(d.edges, walk) && walk[0] == u && walk[|walk| - 1] == v;
      ClosedUnderWalks(d.edges, Elements(p.visited), walk);
    }
  }

  lemma FirstPassTraced(d: Definition, st: Setting, w: World)
    requires Executable(d) && PassOver(d, st, w, []).phase == Going
    ensures Traced(d, PassOver(d, st, w, [])) && PassOver(d, st, w, []).queue == []
  {
    StartsKnown(d);
    StartTraced(d, []);
    TraverseTraced(d, st, w, Completed([]).Keys, StartPass(d, []));
    hide Traced, Traverse;
  }

  lemma FirstPassOk(d: Definition, st: Setting, w: World)
    requires Executable(d)
    ensures PassOk([], PassOver(d, st, w, []))
  {
    PassUntilOk(d, st, w, Full, []);
    hide PassOk, PassOver;
  }

  lemma PassOkFirst(p: Pass)
    requires PassOk([], p) && p.phase == Going
    ensures NoDuplicates(p.dispatched) && p.dispatched == p.visited
  {
  }

  lemma {:induction false} VisitedKnown(d: Definition, st: Setting, w: World, completed: set<NodeId>, p: Pass, v: NodeId)
    requires WellFormed(d) && QueueKnown(d, p.queue) && completed <= p.steps.Keys
    requires forall u | u in p.visited :: u in Ids(d.nodes)
    requires v in Traverse(d, st, w, completed, p).visited
    ensures v in Ids(d.nodes)
    decreases Elements(Ids(d.nodes)) - Elements(p.visited), |p.queue|
  {
    if p.queue != [] && p.phase == Going {
      TraverseTurn(d, st, w, completed, p);
      VisitedKnown(d, st, w, completed, Turn(d, st, w, completed, p), v);
    }
  }

  lemma FirstPassKnown(d: Definition, st: Setting, w: World, v: NodeId)
    requires Executable(d) && v in PassOver(d, st, w, []).visited
    ensures v in Ids(d.nodes)
  {
    StartsKnown(d);
    VisitedKnown(d, st, w, Completed([]).Keys, StartPass(d, []), v);
  }

  /** What a first pass that runs to the end dispatches is what it visits. */
  lemma FirstPass(d: Definition, st: Setting, w: World)
    requires Executable(d) && PassOver(d, st, w, []).phase == Going
    ensures var p := PassOver(d, st, w, []);
            && NoDuplicates(p.dispatched) && p.dispatched == p.visited
            && Traced(d, p) && p.queue == [] && forall v | v in p.visited :: v in Ids(d.nodes)
  {
    hide *;
    FirstPassTraced(d, st, w);
    FirstPassOk(d, st, w);
    var p := PassOver(d, st, w, []);
    PassOkFirst(p);
    forall v | v in p.visited
      ensures v in Ids(d.nodes)
    {
      FirstPassKnown(d, st, w, v);
    }
  }

  /** For a definition the schema check accepts: a first pass that runs to the end, on which every
      edge out of a visited node fires, dispatches every node exactly once and ends the run in
      SUCCESS. */
  lemma EveryNodeDispatchedOnce(d: Definition, st: Setting, w: World)
    requires Executable(d) && Acyclic(d.edges)
    requires PassOver(d, st, w, []).phase == Going && AllFired(d, PassOver(d, st, w, []))
    ensures var p := PassOver(d, st, w, []);
            && NoDuplicates(p.dispatched)
            && (forall v :: v in p.dispatched <==> v in Ids(d.nodes))
            && Executed(d, st, w, Full, NEW_RUN).status == RunSuccess
  {
    FirstPass(d, st, w);
    AllVisited(d, PassOver(d, st, w, []));
    hide PassOver, AllFired, WellFormed, Acyclic, NoDuplicates;
  }

  /** No approval gates, no failing dispatch, no conditions: nothing the pass could stop at. */
  ghost predicate Unobstructed(d: Definition, w: World) {
    && (forall n | n in d.nodes :: n.kind != APPROVAL)
    && (forall n, config, context :: w(n, config, context).Succeeded?)
    && (forall e | e in d.edges :: e.condition == [])
  }

  lemma TurnUnobstructed(d: Definition, st: Setting, w: World, completed: set<NodeId>, p: Pass)
    requires p.queue != [] && p.queue[0] in Ids(d.nodes) && completed <= p.steps.Keys
    requires Unobstructed(d, w) && AllFired(d, p) && p.phase == Going
    ensures AllFired(d, Turn(d, st, w, completed, p)) && Turn(d, st, w, completed, p).phase == Going
  {
    var u := p.queue[0];
    var q := Turn(d, st, w, completed, p);
    if u !in p.visited {
      var fired := Fired(d, st, u, q.steps);
      FiredMembers(d, st, u, q.steps);
      FlattenSnoc(p.fired, fired);
      assert q.fired == p.fired + [fired];
      hide Fired, Flatten;
    }
    hide Context, Resolve, Unvisited;
  }

  lemma {:induction false} TraverseUnobstructed(d: Definition, st: Setting, w: World, completed: set<NodeId>, p: Pass)
    requires Executable(d) && QueueKnown(d, p.queue) && completed <= p.steps.Keys
    requires Unobstructed(d, w) && AllFired(d, p) && p.phase == Going
    ensures AllFired(d, Traverse(d, st, w, completed, p)) && Traverse(d, st, w, completed, p).phase == Going
    decreases Elements(Ids(d.nodes)) - Elements(p.visited), |p.queue|
  {
    if p.queue != [] {
      TraverseTurn(d, st, w, completed, p);
      TurnUnobstructed(d, st, w, completed, p);
      TraverseUnobstructed(d, st, w, completed, Turn(d, st, w, completed, p));
    }
  }

  /** In particular when nothing is in the way. */
  lemma NothingInTheWay(d: Definition, st: Setting, w: World)
    requires Executable(d) && Acyclic(d.edges) && Unobstructed(d, w)
    ensures PassOver(d, st, w, []).phase == Going && AllFired(d, PassOver(d, st, w, []))
    ensures forall v :: v in PassOver(d, st, w, []).dispatched <==> v in Ids(d.nodes)
  {
    StartsKnown(d);
    assert Completed([]).Keys == {};
    TraverseUnobstructed(d, st, w, {}, StartPass(d, []));
    EveryNodeDispatchedOnce(d, st, w);
  }
}
