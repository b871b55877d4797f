/** The run that never stops, and one interrupted pass in step with it. */
module Uninterrupted {
  import opened Templates
  import opened Schema
  import opened Engine
  import opened Resume

  // --- The reference: one traversal without records, failures or parking ---

  /** What each node would produce: connectors by a function of what they are handed,
      approval gates by the decision taken there. */
  datatype Plan = Plan(output: (Node, Value, Value) -> StepData, approval: NodeId -> map<string, Value>)

  function Planned(d: Definition, st: Setting, plan: Plan, u: NodeId, steps: map<NodeId, StepData>): StepData
    requires u in Ids(d.nodes)
  {
    var node := NodeOf(d.nodes, u);
    var context := Context(st, steps);
    if node.kind == APPROVAL then StepData(plan.approval(u), APPROVAL_MS)
    else plan.output(node, Resolve(node.config, context, st.render), context)
  }

  datatype Ideal = Ideal(visited: seq<NodeId>, steps: map<NodeId, StepData>, fired: seq<seq<Edge>>)

  /** The traversal after visiting `u`, without the queue. */
  function IdealVisit(d: Definition, st: Setting, plan: Plan, i: Ideal, u: NodeId): Ideal
    requires u in Ids(d.nodes)
  {
    var steps := i.steps[u := Planned(d, st, plan, u, i.steps)];
    Ideal(i.visited + [u], steps, i.fired + [Fired(d, st, u, steps)])
  }

  lemma IdealVisitProgress(d: Definition, st: Setting, plan: Plan, queue: seq<NodeId>, i: Ideal)
    requires WellFormed(d) && QueueKnown(d, queue) && queue != [] && queue[0] !in i.visited
    ensures var i' := IdealVisit(d, st, plan, i, queue[0]);
            && QueueKnown(d, queue[1..] + Unvisited(i'.fired[|i.fired|], i'.visited))
            && Elements(Ids(d.nodes)) - Elements(i'.visited) < Elements(Ids(d.nodes)) - Elements(i.visited)
  {
    var u := queue[0];
    assert queue == [u] + queue[1..];
    var i' := IdealVisit(d, st, plan, i, u);
    EnqueuedKnown(d, st, u, i'.steps, i'.visited);
    assert Elements(i'.visited) == Elements(i.visited) + {u};
    assert u in Elements(Ids(d.nodes)) - Elements(i.visited);
  }

  function IdealFrom(d: Definition, st: Setting, plan: Plan, queue: seq<NodeId>, i: Ideal): Ideal
    requires WellFormed(d) && QueueKnown(d, queue)
    decreases Elements(Ids(d.nodes)) - Elements(i.visited), |queue|
  {
    if queue == [] then i
    else if queue[0] in i.visited then
      IdealFrom(d, st, plan, queue[1..], i)
    else
      IdealVisitProgress(d, st, plan, queue, i);
      var i' := IdealVisit(d, st, plan, i, queue[0]);
      IdealFrom(d, st, plan, queue[1..] + Unvisited(i'.fired[|i.fired|], i'.visited), i')
  }

  function IdealRun(d: Definition, st: Setting, plan: Plan): Ideal
    requires Executable(d)
  {
    StartsKnown(d);
    IdealFrom(d, st, plan, Starts(d), Ideal([], map[], []))
  }

  // --- How the reference grows ---

  /** The outputs of the first nodes of an order. */
  function At(steps: map<NodeId, StepData>, order: seq<NodeId>): map<NodeId, StepData> {
    map v | v in order && v in steps :: steps[v]
  }

  ghost predicate Sound(d: Definition, plan: Plan, i: Ideal) {
    && NoDuplicates(i.visited)
    && |i.fired| == |i.visited|
    && i.steps.Keys == Elements(i.visited)
    && forall v | v in i.visited :: v in Ids(d.nodes)
         && (NodeOf(d.nodes, v).kind == APPROVAL ==> i.steps[v] == StepData(plan.approval(v), APPROVAL_MS))
  }

  ghost predicate Extends(i: Ideal, r: Ideal) {
    i.visited <= r.visited && i.fired <= r.fired && At(r.steps, i.visited) == i.steps
  }

  lemma IdealVisitSound(d: Definition, st: Setting, plan: Plan, i: Ideal, u: NodeId)
    requires Sound(d, plan, i) && u in Ids(d.nodes) && u !in i.visited
    ensures Sound(d, plan, IdealVisit(d, st, plan, i, u))
    ensures Extends(i, IdealVisit(d, st, plan, i, u))
  {
    hide Fired, Context, Resolve;
    NoDuplicatesSnoc(i.visited, u);
    assert Elements(i.visited + [u]) == Elements(i.visited) + {u};
  }

  lemma ExtendsTransitive(a: Ideal, b: Ideal, c: Ideal)
    requires Extends(a, b) && Extends(b, c)
    ensures Extends(a, c)
  {
    assert At(c.steps, a.visited) == At(At(c.steps, b.visited), a.visited);
  }

  lemma {:induction false} IdealGrows(d: Definition, st: Setting, plan: Plan, queue: seq<NodeId>, i: Ideal)
    requires WellFormed(d) && QueueKnown(d, queue) && Sound(d, plan, i)
    ensures var r := IdealFrom(d, st, plan, queue, i);
            Sound(d, plan, r) && Extends(i, r)
    decreases Elements(Ids(d.nodes)) - Elements(i.visited), |queue|
  {
    if queue == [] {
    } else if queue[0] in i.visited {
      IdealGrows(d, st, plan, queue[1..], i);
    } else {
      IdealVisitProgress(d, st, plan, queue, i);
      var i' := IdealVisit(d, st, plan, i, queue[0]);
      IdealVisitSound(d, st, plan, i, queue[0]);
      IdealGrows(d, st, plan, queue[1..] + Unvisited(i'.fired[|i.fired|], i'.visited), i');
      ExtendsTransitive(i, i', IdealFrom(d, st, plan, queue, i));
    }
  }

  lemma IdealRunSound(d: Definition, st: Setting, plan: Plan)
    requires Executable(d)
    ensures Sound(d, plan, IdealRun(d, st, plan))
    ensures IdealRun(d, st, plan).visited != []
  {
    StartsKnown(d);
    IdealGrows(d, st, plan, Starts(d), Ideal([], map[], []));
    var first := Starts(d)[0];
    assert first in Starts(d);
    IdealVisitProgress(d, st, plan, Starts(d), Ideal([], map[], []));
    var i' := IdealVisit(d, st, plan, Ideal([], map[], []), first);
    IdealVisitSound(d, st, plan, Ideal([], map[], []), first);
    IdealGrows(d, st, plan, Starts(d)[1..] + Unvisited(i'.fired[0], i'.visited), i');
  }

  // --- Stability: later outputs never change an edge's mind ---

  /** With the outputs of the first `k` nodes already known, each of them still fires the
      edges it fires in the uninterrupted run. */
  ghost predicate StableAt(d: Definition, st: Setting, r: Ideal, k: nat)
    requires k <= |r.visited| == |r.fired|
  {
    forall x | 0 <= x < k :: Fired(d, st, r.visited[x], At(r.steps, r.visited[..k])) == r.fired[x]
  }

  ghost predicate Stable(d: Definition, st: Setting, plan: Plan)
    requires Executable(d)
  {
    var r := IdealRun(d, st, plan);
    |r.visited| == |r.fired| && forall k | 0 <= k <= |r.visited| :: StableAt(d, st, r, k)
  }

  // --- Records that agree with the reference up to position `k` ---

  ghost predicate HasSuccess(records: seq<StepRecord>, v: NodeId) {
    exists s | s in records :: s.status.Success? && s.nodeId == v
  }

  ghost predicate AtGate(d: Definition, r: Ideal, k: nat, v: NodeId)
    requires k <= |r.visited| && forall u | u in r.visited :: u in Ids(d.nodes)
  {
    (v in r.visited[..k] || (k < |r.visited| && v == r.visited[k])) && NodeOf(d.nodes, v).kind == APPROVAL
  }

  /** Successes are exactly the first `k` nodes with the planned data; a step waits for
      approval only at a gate that is completed already or comes next. */
  ghost predicate RecordsAgree(d: Definition, records: seq<StepRecord>, r: Ideal, k: nat)
    requires k <= |r.visited| && forall v | v in r.visited :: v in Ids(d.nodes) && v in r.steps
  {
    && (forall s | s in records && s.status.Success? ::
          s.nodeId in r.visited[..k] && s.status.data == r.steps[s.nodeId])
    && (forall s | s in records && s.status.WaitingApproval? ::
          AtGate(d, r, k, s.nodeId))
    && (forall v | v in r.visited[..k] :: HasSuccess(records, v))
  }

  lemma HasSuccessSnoc(records: seq<StepRecord>, s: StepRecord, v: NodeId)
    ensures HasSuccess(records + [s], v) <==> HasSuccess(records, v) || (s.status.Success? && s.nodeId == v)
  {
    if HasSuccess(records, v) {
      var x :| x in records && x.status.Success? && x.nodeId == v;
      assert x in records + [s];
    }
    assert s in records + [s];
  }

  lemma {:induction false} AgreeingCompleted(records: seq<StepRecord>, steps: map<NodeId, StepData>)
    requires forall s | s in records && s.status.Success? :: s.nodeId in steps && s.status.data == steps[s.nodeId]
    ensures forall v :: v in Completed(records) <==> exists s | s in records :: s.status.Success? && s.nodeId == v
    ensures forall v | v in Completed(records) :: v in steps && Completed(records)[v] == steps[v]
  {
    if records != [] {
      var n := |records| - 1;
      AgreeingCompleted(records[..n], steps);
      assert records == records[..n] + [records[n]];
    }
  }

  lemma AgreeCompleted(d: Definition, records: seq<StepRecord>, r: Ideal, k: nat)
    requires k <= |r.visited| && forall v | v in r.visited :: v in Ids(d.nodes) && v in r.steps
    requires RecordsAgree(d, records, r, k)
    ensures Completed(records) == At(r.steps, r.visited[..k])
  {
    AgreeingCompleted(records, r.steps);
  }

  /** Dispatches that succeed produce what the plan says. */
  ghost predicate Follows(w: World, plan: Plan) {
    forall n, config, context :: w(n, config, context).Succeeded? ==>
      w(n, config, context).data == plan.output(n, config, context)
  }

  // --- One pass against the reference ---

  ghost predicate LastOutput(p: Pass, r: Ideal)
    requires forall v | v in r.visited :: v in r.steps
  {
    p.visited != [] ==>
      p.visited[|p.visited| - 1] in r.steps && p.last == Some(r.steps[p.visited[|p.visited| - 1]].output)
  }

  /** Where a pass that resumed at position `k` got to: the end, a stop at position `j`, or, when
      the process died, some point at which the first `j` nodes were recorded. */
  ghost predicate ReachedPosition(d: Definition, p: Pass, r: Ideal, j: nat)
    requires j <= |r.visited| == |r.fired| && forall v | v in r.visited :: v in Ids(d.nodes) && v in r.steps
  {
    && RecordsAgree(d, p.records, r, j)
    && if p.phase == Going then
         j == |r.visited| && p.visited == r.visited && p.fired == r.fired && LastOutput(p, r)
       else if p.phase == Died then
         p.visited <= r.visited && p.fired <= r.fired
       else
         j < |r.visited| && p.visited == r.visited[..j + 1] && p.fired == r.fired[..j]
  }

  function Max(a: nat, b: nat): nat {
    if a < b then b else a
  }

  /** The pass is where the reference is; the outputs it knows are those of the first `k`
      nodes, or of everything visited if that is more. */
  ghost predicate InStep(d: Definition, st: Setting, plan: Plan, r: Ideal, k: nat, i: Ideal, p: Pass) {
    && WellFormed(d) && QueueKnown(d, p.queue) && Sound(d, plan, i) && Sound(d, plan, r)
    && r == IdealFrom(d, st, plan, p.queue, i)
    && k <= |r.visited|
    && p.phase == Going && p.visited == i.visited && p.fired == i.fired
    && Extends(i, r)
    && p.steps == At(r.steps, r.visited[..Max(k, |i.visited|)])
    && RecordsAgree(d, p.records, r, Max(k, |i.visited|))
    && LastOutput(p, r)
  }

  /** What the reference already fixes about the node at the head of the queue. */
  lemma NextVisit(d: Definition, st: Setting, plan: Plan, r: Ideal, queue: seq<NodeId>, i: Ideal)
    requires WellFormed(d) && QueueKnown(d, queue) && Sound(d, plan, i) && Sound(d, plan, r)
    requires queue != [] && queue[0] !in i.visited
    requires r == IdealFrom(d, st, plan, queue, i)
    ensures queue[0] in Ids(d.nodes)
    ensures var u := queue[0];
            var i' := IdealVisit(d, st, plan, i, u);
            var queue' := queue[1..] + Unvisited(Fired(d, st, u, i'.steps), i'.visited);
            && Sound(d, plan, i') && Extends(i', r) && QueueKnown(d, queue')
            && r == IdealFrom(d, st, plan, queue', i')
            && |i.visited| < |r.visited| && r.visited[|i.visited|] == u
            && r.fired[|i.visited|] == Fired(d, st, u, i'.steps)
            && u in r.steps && r.steps[u] == i'.steps[u]
  {
    var u := queue[0];
    assert u in queue;
    IdealVisitProgress(d, st, plan, queue, i);
    IdealVisitSound(d, st, plan, i, u);
    var i' := IdealVisit(d, st, plan, i, u);
    IdealGrows(d, st, plan, queue[1..] + Unvisited(i'.fired[|i.fired|], i'.visited), i');
    assert i'.visited[|i.visited|] == u && i'.fired[|i.fired|] == Fired(d, st, u, i'.steps);
    assert At(r.steps, i'.visited)[u] == i'.steps[u];
  }

  lemma PrefixSnoc<T>(s: seq<T>, n: nat)
    requires n < |s|
    ensures s[..n + 1] == s[..n] + [s[n]]
  {
  }

  lemma InPrefix<T>(s: seq<T>, n: nat, k: nat)
    requires NoDuplicates(s) && n < |s| && k <= |s|
    ensures s[n] in s[..k] <==> n < k
  {
    if n < k {
      assert s[..k][n] == s[n];
    }
  }

  lemma AtLookup(steps: map<NodeId, StepData>, order: seq<NodeId>, v: NodeId)
    requires v in order && v in steps
    ensures v in At(steps, order) && At(steps, order)[v] == steps[v]
  {
  }

  lemma InStepFacts(d: Definition, st: Setting, plan: Plan, r: Ideal, k: nat, i: Ideal, p: Pass)
    requires InStep(d, st, plan, r, k, i, p)
    ensures NoDuplicates(r.visited) && |r.fired| == |r.visited| && |i.fired| == |i.visited|
    ensures |i.visited| <= |r.visited| && r.visited[..|i.visited|] == i.visited && r.fired[..|i.visited|] == i.fired
    ensures At(r.steps, i.visited) == i.steps
    ensures forall v | v in r.visited :: v in Ids(d.nodes) && v in r.steps
    ensures WellFormed(d) && QueueKnown(d, p.queue) && Sound(d, plan, i) && Sound(d, plan, r)
    ensures k <= |r.visited| && r == IdealFrom(d, st, plan, p.queue, i)
    ensures p.phase == Going && p.visited == i.visited && p.fired == i.fired
    ensures p.steps == At(r.steps, r.visited[..Max(k, |i.visited|)])
  {
    hide IdealFrom, RecordsAgree, LastOutput, QueueKnown, WellFormed;
  }

  /** A node completed by an earlier pass: no dispatch, and stability keeps the queue the same. */
  lemma SkipCompleted(d: Definition, st: Setting, plan: Plan, w: World, r: Ideal, k: nat, i: Ideal, p: Pass)
    requires InStep(d, st, plan, r, k, i, p)
    requires p.queue != [] && p.queue[0] !in p.visited && p.queue[0] in r.visited[..k]
    requires |i.visited| < |r.fired|
    requires Fired(d, st, p.queue[0], At(r.steps, r.visited[..k])) == r.fired[|i.visited|]
    ensures p.queue[0] in p.steps && p.queue[0] in Ids(d.nodes)
    ensures var u := p.queue[0];
            InStep(d, st, plan, r, k, IdealVisit(d, st, plan, i, u),
                   Complete(d, st, p.(queue := p.queue[1..], visited := p.visited + [u]), u, p.steps[u]))
  {
    hide Fired, IdealFrom, RecordsAgree, Planned, WellFormed, NoDuplicates, Sound, QueueKnown, At, Extends, Unvisited;
    var u := p.queue[0];
    NextVisit(d, st, plan, r, p.queue, i);
    InStepFacts(d, st, plan, r, k, i, p);
    InPrefix(r.visited, |i.visited|, k);
    AtLookup(r.steps, r.visited[..k], u);
    assert p.steps[u := p.steps[u]] == p.steps;
  }

  /** A node not completed before: it sees exactly the outputs the reference sees there. */
  lemma RunFresh(d: Definition, st: Setting, plan: Plan, w: World, r: Ideal, k: nat, i: Ideal, p: Pass)
    requires InStep(d, st, plan, r, k, i, p) && Follows(w, plan)
    requires p.queue != [] && p.queue[0] !in p.visited && p.queue[0] !in r.visited[..k]
    ensures p.queue[0] in Ids(d.nodes) && k <= |i.visited| < |r.visited|
    ensures p.steps == i.steps
    ensures var u := p.queue[0];
            var a := Attempted(d, st, w, u, p.steps);
            && r.visited[|i.visited|] == u && u in r.steps
            && (a.phase == Going ==> a.record.status == Success(r.steps[u]) && a.data == Some(r.steps[u]))
            && (a.phase != Going ==> !a.record.status.Success?)
            && (a.record.status.WaitingApproval? ==> NodeOf(d.nodes, u).kind == APPROVAL)
            && a.record.nodeId == u
  {
    hide Fired, IdealFrom, RecordsAgree, WellFormed, NoDuplicates, Resolve, Context, Sound, At, Extends;
    var u := p.queue[0];
    NextVisit(d, st, plan, r, p.queue, i);
    InStepFacts(d, st, plan, r, k, i, p);
    InPrefix(r.visited, |i.visited|, k);
  }

  lemma AgreeSnoc(d: Definition, plan: Plan, records: seq<StepRecord>, r: Ideal, k: nat, s: StepRecord)
    requires Sound(d, plan, r) && k < |r.visited| && RecordsAgree(d, records, r, k)
    requires s.nodeId == r.visited[k]
    requires s.status.Success? ==> s.status.data == r.steps[s.nodeId]
    requires s.status.WaitingApproval? ==> NodeOf(d.nodes, s.nodeId).kind == APPROVAL
    ensures RecordsAgree(d, records + [s], r, if s.status.Success? then k + 1 else k)
  {
    PrefixSnoc(r.visited, k);
    var after := records + [s];
    hide NodeOf, Sound, HasSuccess;
    assert forall x :: x in after <==> x in records || x == s;
    forall v ensures HasSuccess(after, v) <==> HasSuccess(records, v) || (s.status.Success? && s.nodeId == v) {
      HasSuccessSnoc(records, s, v);
    }
  }

  lemma ExtendsSteps(i: Ideal, r: Ideal)
    requires Extends(i, r)
    ensures i.visited == r.visited[..|i.visited|] && At(r.steps, r.visited[..|i.visited|]) == i.steps
  {
  }

  lemma FreshSucceeds(d: Definition, st: Setting, plan: Plan, r: Ideal, k: nat, i: Ideal, p: Pass,
                      s: StepRecord, dispatched: seq<NodeId>)
    requires InStep(d, st, plan, r, k, i, p)
    requires p.queue != [] && p.queue[0] !in p.visited && p.queue[0] in Ids(d.nodes)
    requires k <= |i.visited| < |r.visited| && r.visited[|i.visited|] == p.queue[0]
    requires p.steps == i.steps && p.queue[0] in r.steps
    requires s.nodeId == p.queue[0] && s.status == Success(r.steps[p.queue[0]])
    ensures var u := p.queue[0];
            InStep(d, st, plan, r, k, IdealVisit(d, st, plan, i, u),
                   Complete(d, st, p.(queue := p.queue[1..], visited := p.visited + [u], records := p.records + [s],
                                      dispatched := dispatched), u, r.steps[u]))
  {
    hide Fired, IdealFrom, RecordsAgree, Planned, WellFormed, NoDuplicates, NodeOf, Sound, QueueKnown,
         At, Extends, Unvisited;
    NextVisit(d, st, plan, r, p.queue, i);
    AgreeSnoc(d, plan, p.records, r, |i.visited|, s);
    ExtendsSteps(IdealVisit(d, st, plan, i, p.queue[0]), r);
  }

  /** After a fresh node succeeds the pass is still in step; otherwise it stopped there. */
  lemma FreshStep(d: Definition, st: Setting, plan: Plan, w: World, r: Ideal, k: nat, i: Ideal, p: Pass)
    requires InStep(d, st, plan, r, k, i, p) && Follows(w, plan)
    requires p.queue != [] && p.queue[0] !in p.visited && p.queue[0] !in r.visited[..k]
    ensures p.queue[0] in Ids(d.nodes) && k <= |i.visited| < |r.visited|
    ensures var u := p.queue[0];
            var a := Attempted(d, st, w, u, p.steps);
            var q := p.(queue := p.queue[1..], visited := p.visited + [u], records := p.records + [a.record],
                        dispatched := if a.sent then p.dispatched + [u] else p.dispatched);
            if a.phase == Going then
              InStep(d, st, plan, r, k, IdealVisit(d, st, plan, i, u), Complete(d, st, q, u, a.data.value))
            else
              ReachedPosition(d, q.(phase := a.phase), r, |i.visited|)
  {
    hide Fired, IdealFrom, RecordsAgree, Planned, WellFormed, NoDuplicates, Attempted, NodeOf, Sound, QueueKnown,
         At, Extends, Unvisited, Complete, IdealVisit;
    var u := p.queue[0];
    RunFresh(d, st, plan, w, r, k, i, p);
    InStepFacts(d, st, plan, r, k, i, p);
    var a := Attempted(d, st, w, u, p.steps);
    if a.phase == Going {
      FreshSucceeds(d, st, plan, r, k, i, p, a.record, if a.sent then p.dispatched + [u] else p.dispatched);
    } else {
      AgreeSnoc(d, plan, p.records, r, |i.visited|, a.record);
      PrefixSnoc(r.visited, |i.visited|);
    }
  }

  lemma EndInStep(d: Definition, st: Setting, plan: Plan, r: Ideal, k: nat, i: Ideal, p: Pass)
    requires InStep(d, st, plan, r, k, i, p) && p.queue == []
    ensures ReachedPosition(d, p, r, |r.visited|)
  {
    assert r == i;
  }

  lemma VisitedStep(d: Definition, st: Setting, plan: Plan, r: Ideal, k: nat, i: Ideal, p: Pass)
    requires InStep(d, st, plan, r, k, i, p) && p.queue != [] && p.queue[0] in p.visited
    ensures InStep(d, st, plan, r, k, i, p.(queue := p.queue[1..]))
  {
    hide RecordsAgree, Sound, WellFormed;
    assert forall v | v in p.queue[1..] :: v in p.queue;
  }

  lemma TurnOnVisited(d: Definition, st: Setting, w: World, completed: set<NodeId>, p: Pass)
    requires p.queue != [] && p.queue[0] in Ids(d.nodes) && completed <= p.steps.Keys
    requires p.queue[0] in p.visited
    ensures Turn(d, st, w, completed, p) == p.(queue := p.queue[1..])
  {
  }

  lemma TurnOnCompleted(d: Definition, st: Setting, w: World, completed: set<NodeId>, p: Pass)
    requires p.queue != [] && p.queue[0] in Ids(d.nodes) && completed <= p.steps.Keys
    requires p.queue[0] !in p.visited && p.queue[0] in completed
    ensures var u := p.queue[0];
            var q := Turn(d, st, w, completed, p);
            && q == Complete(d, st, p.(queue := p.queue[1..], visited := p.visited + [u]), u, p.steps[u])
            && q.fired == p.fired + [Fired(d, st, u, p.steps)]
  {
    var u := p.queue[0];
    assert p.steps[u := p.steps[u]] == p.steps;
  }

  lemma TurnOnFresh(d: Definition, st: Setting, w: World, completed: set<NodeId>, p: Pass)
    requires p.queue != [] && p.queue[0] in Ids(d.nodes) && completed <= p.steps.Keys
    requires p.queue[0] !in p.visited && p.queue[0] !in completed
    ensures var u := p.queue[0];
            var a := Attempted(d, st, w, u, p.steps);
            var q := p.(queue := p.queue[1..], visited := p.visited + [u], records := p.records + [a.record],
                        dispatched := if a.sent then p.dispatched + [u] else p.dispatched);
            Turn(d, st, w, completed, p) ==
            if a.phase == Going then Complete(d, st, q, u, a.data.value) else q.(phase := a.phase)
  {
    hide Attempted, Fired, Unvisited;
  }

  lemma HeadKnown(d: Definition, st: Setting, plan: Plan, r: Ideal, k: nat, i: Ideal, p: Pass)
    requires InStep(d, st, plan, r, k, i, p) && p.queue != []
    ensures WellFormed(d) && QueueKnown(d, p.queue) && p.queue[0] in Ids(d.nodes) && p.phase == Going
  {
  }

  lemma StableThere(d: Definition, st: Setting, r: Ideal, k: nat, x: nat)
    requires k <= |r.visited| == |r.fired| && StableAt(d, st, r, k) && x < k
    ensures Fired(d, st, r.visited[x], At(r.steps, r.visited[..k])) == r.fired[x]
  {
  }

  lemma InElements<T>(s: seq<T>, x: T)
    ensures x in Elements(s) <==> x in s
  {
  }

  /** One turn keeps the pass in step with the reference, or stops it at the reference's next node. */
  lemma TurnInStep(d: Definition, st: Setting, plan: Plan, w: World, r: Ideal, k: nat, i: Ideal, p: Pass)
      returns (i': Ideal)
    requires InStep(d, st, plan, r, k, i, p) && Follows(w, plan) && p.queue != []
    requires |r.fired| == |r.visited| && k <= |r.visited| && StableAt(d, st, r, k)
    requires Elements(r.visited[..k]) <= p.steps.Keys
    ensures p.queue[0] in Ids(d.nodes)
    ensures var q := Turn(d, st, w, Elements(r.visited[..k]), p);
            if q.phase == Going then InStep(d, st, plan, r, k, i', q)
            else forall v | v in r.visited :: v in Ids(d.nodes) && v in r.steps
    ensures var q := Turn(d, st, w, Elements(r.visited[..k]), p);
            q.phase != Going ==> k <= |i.visited| <= |r.visited| && ReachedPosition(d, q, r, |i.visited|)
  {
    hide *;
    var completed, u := Elements(r.visited[..k]), p.queue[0];
    HeadKnown(d, st, plan, r, k, i, p);
    InStepFacts(d, st, plan, r, k, i, p);
    InElements(r.visited[..k], u);
    i' := i;
    if u in p.visited {
      TurnOnVisited(d, st, w, completed, p);
      VisitedStep(d, st, plan, r, k, i, p);
    } else {
      i' := IdealVisit(d, st, plan, i, u);
      NextVisit(d, st, plan, r, p.queue, i);
      if u in completed {
        InPrefix(r.visited, |i.visited|, k);
        StableThere(d, st, r, k, |i.visited|);
        TurnOnCompleted(d, st, w, completed, p);
        SkipCompleted(d, st, plan, w, r, k, i, p);
        InStepFacts(d, st, plan, r, k, i', Turn(d, st, w, completed, p));
      } else {
        TurnOnFresh(d, st, w, completed, p);
        FreshStep(d, st, plan, w, r, k, i, p);
        if Attempted(d, st, w, u, p.steps).phase == Going {
          InStepFacts(d, st, plan, r, k, i', Turn(d, st, w, completed, p));
        }
      }
    }
  }

  /** A pass resumed with the first `k` nodes completed follows the reference to its end,
      or up to the node that stops it. */
  lemma {:induction false} Simulate(d: Definition, st: Setting, plan: Plan, w: World, r: Ideal, k: nat, i: Ideal, p: Pass)
    requires InStep(d, st, plan, r, k, i, p) && Follows(w, plan)
    requires |r.fired| == |r.visited| && StableAt(d, st, r, k)
    requires Elements(r.visited[..k]) <= p.steps.Keys
    ensures exists j: nat :: k <= j <= |r.visited| &&
              ReachedPosition(d, Traverse(d, st, w, Elements(r.visited[..k]), p), r, j)
    decreases Elements(Ids(d.nodes)) - Elements(p.visited), |p.queue|
  {
    hide *;
    InStepFacts(d, st, plan, r, k, i, p);
    var completed := Elements(r.visited[..k]);
    if p.queue == [] {
      EndInStep(d, st, plan, r, k, i, p);
      TraverseEnd(d, st, w, completed, p);
    } else {
      var i' := TurnInStep(d, st, plan, w, r, k, i, p);
      TraverseTurn(d, st, w, completed, p);
      var q := Turn(d, st, w, completed, p);
      if q.phase == Going {
        Simulate(d, st, plan, w, r, k, i', q);
      }
    }
  }

  lemma CutInStep(d: Definition, st: Setting, plan: Plan, r: Ideal, k: nat, i: Ideal, p: Pass)
    requires InStep(d, st, plan, r, k, i, p) && |r.fired| == |r.visited|
    ensures k <= Max(k, |i.visited|) <= |r.visited| && ReachedPosition(d, p.(phase := Died), r, Max(k, |i.visited|))
  {
    hide IdealFrom, RecordsAgree, WellFormed, QueueKnown, LastOutput;
  }

  lemma CutStopped(d: Definition, p: Pass, r: Ideal, j: nat)
    requires j <= |r.visited| == |r.fired| && forall v | v in r.visited :: v in Ids(d.nodes) && v in r.steps
    requires ReachedPosition(d, p, r, j)
    ensures ReachedPosition(d, p.(phase := Died), r, j)
  {
    hide RecordsAgree;
  }

  /** The same for a pass in which the process dies after `n` turns. */
  lemma {:induction false} SimulateTurns(d: Definition, st: Setting, plan: Plan, w: World, r: Ideal, k: nat, i: Ideal,
                                         p: Pass, n: nat)
    requires InStep(d, st, plan, r, k, i, p) && Follows(w, plan)
    requires |r.fired| == |r.visited| && StableAt(d, st, r, k)
    requires Elements(r.visited[..k]) <= p.steps.Keys
    ensures exists j: nat :: k <= j <= |r.visited| &&
              ReachedPosition(d, Turns(d, st, w, Elements(r.visited[..k]), p, n).(phase := Died), r, j)
    decreases n
  {
    hide *;
    InStepFacts(d, st, plan, r, k, i, p);
    var completed := Elements(r.visited[..k]);
    TurnsUnfold(d, st, w, completed, p, n);
    if n == 0 || p.queue == [] {
      CutInStep(d, st, plan, r, k, i, p);
    } else {
      var i' := TurnInStep(d, st, plan, w, r, k, i, p);
      var q := Turn(d, st, w, completed, p);
      if q.phase == Going {
        SimulateTurns(d, st, plan, w, r, k, i', q, n - 1);
      } else {
        CutStopped(d, q, r, |i.visited|);
        TurnsUnfold(d, st, w, completed, q, n - 1);
      }
    }
  }
}
