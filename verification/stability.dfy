/** When can edge conditions be trusted across a resume? Two sufficient conditions, one of them on
    the definition alone, and a definition that resumes differently. */
module Stability {
  import opened Templates
  import opened Schema
  import opened Engine
  import opened Resume
  import opened Uninterrupted
  import opened Refinement

  // --- A static criterion ---

  /** Every way into `u` from a start node passes through `a`. */
  ghost predicate Dominates(d: Definition, a: NodeId, u: NodeId)
    requires d.nodes != []
  {
    forall p | IsWalk(d.edges, p) && p[0] in Starts(d) && p[|p| - 1] == u :: a in p
  }

  /** The path cannot see the output of a node visited after `u`: it does not enter `steps`,
      or it names something that is not a node, or a node that dominates `u`. */
  ghost predicate LooksBack(d: Definition, path: seq<string>, u: NodeId)
    requires d.nodes != []
  {
    path != [] && (path[0] == "steps" ==>
                     |path| >= 2 && (path[1] !in Ids(d.nodes) || Dominates(d, path[1], u)))
  }

  ghost predicate ConditionsLookBack(d: Definition)
    requires d.nodes != []
  {
    forall e | e in d.edges :: forall path | path in SegmentPaths(e.condition) :: LooksBack(d, path, e.source)
  }

  /** A walk from a start node to `v` through nodes of `within`. */
  ghost predicate Hangs(d: Definition, within: set<NodeId>, v: NodeId)
    requires d.nodes != []
  {
    exists p :: IsWalk(d.edges, p) && p[0] in Starts(d) && p[|p| - 1] == v
                && forall i | 0 <= i < |p| - 1 :: p[i] in within
  }

  /** Visited nodes hang below earlier ones, queued nodes below visited ones, and each log
      entry was computed from the outputs known at that point. */
  ghost predicate Grounded(d: Definition, st: Setting, queue: seq<NodeId>, i: Ideal)
    requires d.nodes != []
  {
    && |i.fired| == |i.visited|
    && (forall x | 0 <= x < |i.visited| :: Hangs(d, Elements(i.visited[..x]), i.visited[x]))
    && (forall v | v in queue :: Hangs(d, Elements(i.visited), v))
    && (forall x | 0 <= x < |i.visited| :: i.fired[x] == Fired(d, st, i.visited[x], At(i.steps, i.visited[..x + 1])))
  }

  lemma HangsMore(d: Definition, within: set<NodeId>, more: set<NodeId>, v: NodeId)
    requires d.nodes != [] && within <= more && Hangs(d, within, v)
    ensures Hangs(d, more, v)
  {
    var p :| IsWalk(d.edges, p) && p[0] in Starts(d) && p[|p| - 1] == v && forall i | 0 <= i < |p| - 1 :: p[i] in within;
    assert forall i | 0 <= i < |p| - 1 :: p[i] in more;
  }

  lemma HangsNext(d: Definition, within: set<NodeId>, u: NodeId, v: NodeId)
    requires d.nodes != [] && Hangs(d, within, u) && u in within && Linked(d.edges, u, v)
    ensures Hangs(d, within, v)
  {
    var p :| IsWalk(d.edges, p) && p[0] in Starts(d) && p[|p| - 1] == u && forall i | 0 <= i < |p| - 1 :: p[i] in within;
    WalkJoin(d.edges, p, [v]);
    var q := p + [v];
    assert q[0] == p[0] && q[|q| - 1] == v;
    assert forall i | 0 <= i < |q| - 1 :: q[i] == p[i];
  }

  lemma GroundedQueue(d: Definition, st: Setting, plan: Plan, queue: seq<NodeId>, i: Ideal)
    requires d.nodes != [] && queue != [] && queue[0] in Ids(d.nodes)
    requires forall v | v in queue :: Hangs(d, Elements(i.visited), v)
    ensures var i' := IdealVisit(d, st, plan, i, queue[0]);
            forall v | v in queue[1..] + Unvisited(i'.fired[|i.fired|], i'.visited) :: Hangs(d, Elements(i'.visited), v)
  {
    var u := queue[0];
    assert u in queue;
    var i' := IdealVisit(d, st, plan, i, u);
    var fired := i'.fired[|i.fired|];
    FiredMembers(d, st, u, i'.steps);
    UnvisitedMembers(fired, i'.visited);
    hide Fired, Unvisited, Planned, Hangs;
    forall v | v in queue
      ensures Hangs(d, Elements(i'.visited), v)
    {
      HangsMore(d, Elements(i.visited), Elements(i'.visited), v);
    }
    forall v | v in Unvisited(fired, i'.visited)
      ensures Hangs(d, Elements(i'.visited), v)
    {
      var e :| e in fired && e.target == v;
      assert Linked(d.edges, u, v);
      HangsNext(d, Elements(i'.visited), u, v);
    }
  }

  lemma AtExtended(steps: map<NodeId, StepData>, order: seq<NodeId>, u: NodeId, data: StepData, x: nat)
    requires u !in order && x <= |order| && steps.Keys == Elements(order)
    ensures x < |order| ==> (order + [u])[..x + 1] == order[..x + 1]
    ensures At(steps[u := data], (order + [u])[..x + 1]) ==
            if x < |order| then At(steps, order[..x + 1]) else steps[u := data]
  {
    if x < |order| {
      assert (order + [u])[..x + 1] == order[..x + 1];
      assert At(steps[u := data], order[..x + 1]) == At(steps, order[..x + 1]);
    } else {
      assert (order + [u])[..x + 1] == order + [u];
      assert At(steps[u := data], order + [u]) == steps[u := data];
    }
  }

  lemma GroundedLog(d: Definition, st: Setting, plan: Plan, i: Ideal, u: NodeId)
    requires d.nodes != [] && u in Ids(d.nodes) && u !in i.visited && Sound(d, plan, i)
    requires Hangs(d, Elements(i.visited), u)
    requires Grounded(d, st, [], i)
    ensures var i' := IdealVisit(d, st, plan, i, u);
            && |i'.fired| == |i'.visited|
            && (forall x | 0 <= x < |i'.visited| :: Hangs(d, Elements(i'.visited[..x]), i'.visited[x]))
            && (forall x | 0 <= x < |i'.visited| ::
                  i'.fired[x] == Fired(d, st, i'.visited[x], At(i'.steps, i'.visited[..x + 1])))
  {
    hide Fired, Planned, Hangs, At, Ids;
    var i' := IdealVisit(d, st, plan, i, u);
    forall x | 0 <= x < |i'.visited|
      ensures Hangs(d, Elements(i'.visited[..x]), i'.visited[x])
      ensures i'.fired[x] == Fired(d, st, i'.visited[x], At(i'.steps, i'.visited[..x + 1]))
    {
      AtExtended(i.steps, i.visited, u, i'.steps[u], x);
      if x < |i.visited| {
        assert i'.visited[..x] == i.visited[..x];
      } else {
        assert i'.visited[..x] == i.visited;
      }
    }
  }

  lemma GroundedVisit(d: Definition, st: Setting, plan: Plan, queue: seq<NodeId>, i: Ideal)
    requires Executable(d) && queue != [] && queue[0] !in i.visited && queue[0] in Ids(d.nodes)
    requires Sound(d, plan, i) && Grounded(d, st, queue, i)
    ensures var i' := IdealVisit(d, st, plan, i, queue[0]);
            Grounded(d, st, queue[1..] + Unvisited(i'.fired[|i.fired|], i'.visited), i')
  {
    var u := queue[0];
    assert u in queue;
    assert Hangs(d, Elements(i.visited), u);
    GroundedQueue(d, st, plan, queue, i);
    GroundedLog(d, st, plan, i, u);
    hide Fired, Unvisited, IdealVisit, Planned, Hangs, At, Sound, Executable;
  }

  lemma {:induction false} IdealGrounded(d: Definition, st: Setting, plan: Plan, queue: seq<NodeId>, i: Ideal)
    requires Executable(d) && QueueKnown(d, queue) && Sound(d, plan, i) && Grounded(d, st, queue, i)
    ensures Grounded(d, st, [], IdealFrom(d, st, plan, queue, i))
    decreases Elements(Ids(d.nodes)) - Elements(i.visited), |queue|
  {
    if queue == [] {
    } else if queue[0] in i.visited {
      assert forall v | v in queue[1..] :: v in queue;
      IdealGrounded(d, st, plan, queue[1..], i);
    } else {
      assert queue[0] in queue;
      IdealVisitProgress(d, st, plan, queue, i);
      IdealVisitSound(d, st, plan, i, queue[0]);
      GroundedVisit(d, st, plan, queue, i);
      var i' := IdealVisit(d, st, plan, i, queue[0]);
      IdealGrounded(d, st, plan, queue[1..] + Unvisited(i'.fired[|i.fired|], i'.visited), i');
    }
  }

  lemma IdealRunGrounded(d: Definition, st: Setting, plan: Plan)
    requires Executable(d)
    ensures Grounded(d, st, [], IdealRun(d, st, plan))
  {
    StartsKnown(d);
    forall v | v in Starts(d)
      ensures Hangs(d, {}, v)
    {
      assert IsWalk(d.edges, [v]);
    }
    var none: seq<NodeId> := [];
    assert Elements(none) == {};
    IdealGrounded(d, st, plan, Starts(d), Ideal([], map[], []));
  }

  lemma {:induction false} FiringFrame(edges: seq<Edge>, a: Value, b: Value, render: Render)
    requires forall e | e in edges :: AgreeOn(SegmentPaths(e.condition), a, b)
    ensures Firing(edges, a, render) == Firing(edges, b, render)
  {
    if edges != [] {
      var n := |edges| - 1;
      assert edges[n] in edges;
      FiringFrame(edges[..n], a, b, render);
      ConditionFrame(edges[n].condition, a, b, render);
    }
  }

  lemma DominatorVisited(d: Definition, order: seq<NodeId>, x: nat, a: NodeId)
    requires d.nodes != [] && x < |order|
    requires Hangs(d, Elements(order[..x]), order[x]) && Dominates(d, a, order[x])
    ensures a in order[..x + 1]
  {
    var p :| IsWalk(d.edges, p) && p[0] in Starts(d) && p[|p| - 1] == order[x]
             && forall i | 0 <= i < |p| - 1 :: p[i] in Elements(order[..x]);
    assert a in p;
    assert order[..x + 1] == order[..x] + [order[x]];
  }

  lemma PrefixLookup(steps: map<NodeId, StepData>, order: seq<NodeId>, early: nat, late: nat, a: NodeId)
    requires early <= late <= |order|
    requires a in order ==> a in order[..early]
    ensures a in At(steps, order[..late]) <==> a in At(steps, order[..early])
    ensures a in At(steps, order[..early]) ==> At(steps, order[..late])[a] == At(steps, order[..early])[a]
  {
    assert order[..early] == order[..late][..early];
  }

  // --- Conditions that read nothing visited later ---

  /** Seen from the `x`-th visited node, the path sees no output of a node the run visits later. */
  ghost predicate ReadsNotLater(r: Ideal, x: nat, path: seq<string>)
    requires x < |r.visited|
  {
    path != [] && (path[0] == "steps" ==>
                     |path| >= 2 && (path[1] in r.visited ==> path[1] in r.visited[..x + 1]))
  }

  ghost predicate ConditionsReadNotLater(d: Definition, r: Ideal) {
    forall x, e, path | 0 <= x < |r.visited| && e in d.edges && e.source == r.visited[x] && path in SegmentPaths(e.condition) ::
      ReadsNotLater(r, x, path)
  }

  lemma StepsPath(st: Setting, late: map<NodeId, StepData>, early: map<NodeId, StepData>, path: seq<string>)
    requires |path| >= 2 && path[0] == "steps"
    requires path[1] in late <==> path[1] in early
    requires path[1] in early ==> late[path[1]] == early[path[1]]
    ensures GetNested(Context(st, late), path) == GetNested(Context(st, early), path)
  {
    assert path[1..][0] == path[1];
    var a, b := Context(st, late).fields["steps"], Context(st, early).fields["steps"];
    assert GetNested(Context(st, late), path) == GetNested(a, path[1..]);
    assert GetNested(Context(st, early), path) == GetNested(b, path[1..]);
  }

  lemma OtherPath(st: Setting, late: map<NodeId, StepData>, early: map<NodeId, StepData>, path: seq<string>)
    requires path != [] && path[0] != "steps"
    ensures GetNested(Context(st, late), path) == GetNested(Context(st, early), path)
  {
    var a, b := Context(st, late), Context(st, early);
    assert path[0] in a.fields <==> path[0] in b.fields;
    assert path[0] in a.fields ==> a.fields[path[0]] == b.fields[path[0]];
  }

  lemma NotLaterReads(st: Setting, r: Ideal, x: nat, k: nat, path: seq<string>)
    requires x < k <= |r.visited| && ReadsNotLater(r, x, path)
    ensures GetNested(Context(st, At(r.steps, r.visited[..k])), path) ==
            GetNested(Context(st, At(r.steps, r.visited[..x + 1])), path)
  {
    var late, early := At(r.steps, r.visited[..k]), At(r.steps, r.visited[..x + 1]);
    if path[0] == "steps" {
      PrefixLookup(r.steps, r.visited, x + 1, k, path[1]);
      hide *;
      StepsPath(st, late, early, path);
    } else {
      OtherPath(st, late, early, path);
    }
  }

  /** If the conditions out of every visited node read only the input and the outputs of nodes
      visited no later than it, resuming never changes the run. */
  lemma ReadingNotLaterIsStable(d: Definition, st: Setting, plan: Plan)
    requires Executable(d) && ConditionsReadNotLater(d, IdealRun(d, st, plan))
    ensures Stable(d, st, plan)
  {
    var r := IdealRun(d, st, plan);
    IdealRunSound(d, st, plan);
    IdealRunGrounded(d, st, plan);
    hide IdealRun;
    forall k, x | 0 <= x < k <= |r.visited|
      ensures Fired(d, st, r.visited[x], At(r.steps, r.visited[..k])) == r.fired[x]
    {
      var u := r.visited[x];
      var late, early := Context(st, At(r.steps, r.visited[..k])), Context(st, At(r.steps, r.visited[..x + 1]));
      OutgoingMembers(d.edges, u);
      forall e, path | e in Outgoing(d.edges, u) && path in SegmentPaths(e.condition)
        ensures GetNested(late, path) == GetNested(early, path)
      {
        NotLaterReads(st, r, x, k, path);
      }
      FiringFrame(Outgoing(d.edges, u), late, early, st.render);
    }
  }

  /** With such conditions, any chain of interrupted passes that ends in SUCCESS is the
      uninterrupted run under the decisions it recorded. */
  lemma ReadingNotLaterRefines(d: Definition, st: Setting, plan: Plan, events: seq<Event>)
    requires Executable(d) && HistoryConsistent(d, st, plan, events) && History(d, st, events).status == RunSuccess
    requires ConditionsReadNotLater(d, IdealRun(d, st, WithDecisions(plan, History(d, st, events))))
    ensures var run, r := History(d, st, events), IdealRun(d, st, WithDecisions(plan, History(d, st, events)));
            && run.visited == r.visited && run.fired == r.fired && Completed(run.steps) == r.steps
            && r.visited != [] && r.visited[|r.visited| - 1] in r.steps
            && run.output == Some(r.steps[r.visited[|r.visited| - 1]].output)
  {
    hide *;
    ReadingNotLaterIsStable(d, st, WithDecisions(plan, History(d, st, events)));
    ResumeRefinesUnderItsDecisions(d, st, plan, events);
  }

  /** A path that looks back reads nothing later, on every run. */
  lemma LookBackReads(d: Definition, st: Setting, r: Ideal, x: nat, path: seq<string>)
    requires d.nodes != [] && x < |r.visited| && Grounded(d, st, [], r)
    requires forall v | v in r.visited :: v in Ids(d.nodes)
    requires LooksBack(d, path, r.visited[x])
    ensures ReadsNotLater(r, x, path)
  {
    if path[0] == "steps" && path[1] in r.visited {
      DominatorVisited(d, r.visited, x, path[1]);
    }
  }

  lemma IsNotLater(d: Definition, r: Ideal)
    requires forall x, e, path |
                 0 <= x < |r.visited| && e in d.edges && e.source == r.visited[x] && path in SegmentPaths(e.condition) ::
               ReadsNotLater(r, x, path)
    ensures ConditionsReadNotLater(d, r)
  {
  }

  /** A criterion on the definition alone: if every edge condition reads only the input and nodes
      that dominate the edge's source, then resuming never changes the run, whatever the
      connectors return. */
  lemma LookingBackIsStable(d: Definition, st: Setting, plan: Plan)
    requires Executable(d) && ConditionsLookBack(d)
    ensures Stable(d, st, plan)
  {
    var r := IdealRun(d, st, plan);
    IdealRunSound(d, st, plan);
    IdealRunGrounded(d, st, plan);
    forall x, e, path | 0 <= x < |r.visited| && e in d.edges && e.source == r.visited[x] && path in SegmentPaths(e.condition)
      ensures ReadsNotLater(r, x, path)
    {
      LookBackReads(d, st, r, x, path);
    }
    hide *;
    IsNotLater(d, r);
    ReadingNotLaterIsStable(d, st, plan);
  }

  // --- A definition that resumes differently ---

  const GO := StepData(map["go" := Bool(true)], 0.0)

  /** Four distinct node ids. */
  datatype Late = Late(a: NodeId, b: NodeId, f: NodeId, c: NodeId) {
    predicate Distinct() {
      a != b && a != f && a != c && b != f && b != c && f != c
    }

    /** a's only edge leads to c and asks for an output of b. */
    function LateEdge(): Edge {
      Edge(a, c, [Hole(["steps", b, "output", "go"])])
    }

    /** Nodes a, b and f start. */
    function Flow(): (d: Definition)
      ensures Ids(d.nodes) == [a, b, f, c]
    {
      Definition(
        [Node(a, "transform", Fixed(Null)), Node(b, "transform", Fixed(Null)),
         Node(f, "transform", Fixed(Null)), Node(c, "transform", Fixed(Null))],
        [LateEdge()])
    }

    /** Everything works except f. */
    function Outage(): World {
      (n: Node, config, context) => if n.id == f then FailedWith("down") else Succeeded(GO)
    }
  }

  function LatePlan(): Plan {
    Plan((n, config, context) => GO, v => map[])
  }

  lemma LateStarts(l: Late)
    requires l.Distinct()
    ensures Executable(l.Flow()) && Starts(l.Flow()) == [l.a, l.b, l.f]
    ensures forall n | n in l.Flow().nodes :: n.kind != APPROVAL
  {
    var d := l.Flow();
    var ids := Ids(d.nodes);
    assert l.LateEdge() in d.edges;
    assert forall v :: HasIncoming(d.edges, v) <==> v == l.c;
    assert ids[..3] == [l.a, l.b, l.f] && ids[..3][..2] == [l.a, l.b] && ids[..3][..2][..1] == [l.a];
    assert WithoutIncoming([l.a], d.edges) == [l.a];
    assert WithoutIncoming([l.a, l.b], d.edges) == [l.a, l.b];
    assert WithoutIncoming([l.a, l.b, l.f], d.edges) == [l.a, l.b, l.f];
  }

  lemma LateDistinct(l: Late)
    requires l.Distinct()
    ensures l.a != l.b && l.a != l.f && l.b != l.f && l.c != l.a && l.c != l.b && l.c != l.f
  {
  }

  lemma IdealStart(d: Definition, st: Setting, plan: Plan)
    requires Executable(d)
    ensures WellFormed(d) && QueueKnown(d, Starts(d))
    ensures IdealRun(d, st, plan) == IdealFrom(d, st, plan, Starts(d), Ideal([], map[], []))
  {
    StartsKnown(d);
  }

  lemma PassStarts(d: Definition, st: Setting, w: World, records: seq<StepRecord>)
    requires Executable(d)
    ensures WellFormed(d) && d.nodes != [] && QueueKnown(d, Starts(d))
    ensures var p := StartPass(d, records);
            && p.queue == Starts(d) && p.visited == [] && p.steps == Completed(records) && p.phase == Going
            && PassOver(d, st, w, records) == Traverse(d, st, w, Completed(records).Keys, p)
            && Completed(PassOver(d, st, w, records).records) == PassOver(d, st, w, records).steps
  {
    StartsKnown(d);
    PassDispatchesOnce(d, st, w, Full, records);
  }

  lemma LateReads(l: Late, st: Setting, steps: map<NodeId, StepData>)
    requires l.b in steps ==> steps[l.b] == GO
    ensures EvaluateCondition(l.LateEdge().condition, Context(st, steps), st.render) == (l.b in steps)
  {
    var context := Context(st, steps);
    var path := ["steps", l.b, "output", "go"];
    var inner := context.fields["steps"];
    assert path[1..] == [l.b, "output", "go"] && path[1..][1..] == ["output", "go"] && path[1..][1..][1..] == ["go"];
    assert GetNested(context, path) == GetNested(inner, path[1..]);
    if l.b in steps {
      assert GetNested(StepValue(GO), ["output", "go"]) == GetNested(Obj(GO.output), ["go"]) == Bool(true);
      assert GetNested(context, path) == Bool(true);
    } else {
      assert GetNested(context, path) == Null;
    }
    var segments := l.LateEdge().condition;
    assert NonBlank(segments) == segments;
  }

  lemma LateFired(l: Late, st: Setting, u: NodeId, steps: map<NodeId, StepData>)
    requires l.b in steps ==> steps[l.b] == GO
    ensures Fired(l.Flow(), st, u, steps) == if u == l.a && l.b in steps then [l.LateEdge()] else []
  {
    LateReads(l, st, steps);
    var context := Context(st, steps);
    hide EvaluateCondition, Context;
    assert l.Flow().edges == [] + [l.LateEdge()];
    NothingFired(u, context, st.render, []);
    FiringSnoc([], l.LateEdge(), u, context, st.render);
  }

  lemma LateEnqueues(l: Late, st: Setting, u: NodeId, steps: map<NodeId, StepData>, visited: seq<NodeId>)
    requires l.b in steps ==> steps[l.b] == GO
    ensures Unvisited(Fired(l.Flow(), st, u, steps), visited) ==
            if u == l.a && l.b in steps && l.c !in visited then [l.c] else []
  {
    LateFired(l, st, u, steps);
    NothingFired(u, Null, st.render, visited);
    UnvisitedSnoc([], l.LateEdge(), visited);
    assert [] + [l.LateEdge()] == [l.LateEdge()];
  }

  /** A node that is complete with `data`, or succeeds with it, has its edges evaluated. */
  lemma TurnSucceeds(d: Definition, st: Setting, w: World, completed: set<NodeId>, p: Pass, u: NodeId, data: StepData)
    requires p.queue != [] && p.queue[0] == u && u in Ids(d.nodes) && completed <= p.steps.Keys
    requires u !in p.visited && p.phase == Going && NodeOf(d.nodes, u).kind != APPROVAL
    requires u in p.steps ==> p.steps[u] == data
    requires forall config, context :: w(NodeOf(d.nodes, u), config, context) == Succeeded(data)
    ensures var q := Turn(d, st, w, completed, p);
            && q.visited == p.visited + [u] && q.steps == p.steps[u := data] && q.phase == Going
            && q.queue == p.queue[1..] + Unvisited(Fired(d, st, u, p.steps[u := data]), p.visited + [u])
  {
    hide Fired, Unvisited, Resolve, Context, Ids, NodeOf;
  }

  /** One turn of a pass on a node that succeeds (or is complete already). */
  lemma LateTurn(l: Late, st: Setting, w: World, completed: set<NodeId>, p: Pass, u: NodeId, rest: seq<NodeId>)
    requires l.Distinct() && QueueKnown(l.Flow(), p.queue)
    requires p.queue == [u] + rest && u !in p.visited && completed <= p.steps.Keys
    requires forall v | v in p.steps :: p.steps[v] == GO
    requires forall n: Node, config, context | n.id == u :: w(n, config, context) == Succeeded(GO)
    requires p.phase == Going && (u == l.a ==> l.c !in p.visited)
    ensures Executable(l.Flow()) && u in Ids(l.Flow().nodes)
    ensures var q := Turn(l.Flow(), st, w, completed, p);
            && q.visited == p.visited + [u] && q.steps == p.steps[u := GO] && q.phase == Going
            && q.queue == (if u == l.a && l.b in p.steps then rest + [l.c] else rest)
            && QueueKnown(l.Flow(), q.queue) && completed <= q.steps.Keys
            && Traverse(l.Flow(), st, w, completed, p) == Traverse(l.Flow(), st, w, completed, q)
  {
    hide *;
    var d := l.Flow();
    LateStarts(l);
    LateDistinct(l);
    LateEnqueues(l, st, u, p.steps[u := GO], p.visited + [u]);
    TraverseTurn(d, st, w, completed, p);
    ExecutableIs(d);
    var node := NodeOf(d.nodes, u);
    TurnSucceeds(d, st, w, completed, p, u, GO);
    assert p.queue[1..] == rest;
    assert rest + [] == rest;
  }

  lemma LateBreaks(l: Late, st: Setting, p: Pass)
    requires l.Distinct() && p.queue == [l.f] && l.f !in p.visited && p.phase == Going
    ensures Executable(l.Flow()) && QueueKnown(l.Flow(), p.queue)
    ensures var q := Traverse(l.Flow(), st, l.Outage(), {}, p);
            q.phase == Broken("down") && q.steps == p.steps
  {
    LateStarts(l);
    TraverseTurn(l.Flow(), st, l.Outage(), {}, p);
    hide Fired, Resolve, Context, Unvisited, WellFormed, Ids, Starts;
  }

  /** The turns on a and b. */
  lemma LateThroughB(l: Late, st: Setting, w: World, completed: set<NodeId>, p: Pass) returns (q: Pass)
    requires l.Distinct() && QueueKnown(l.Flow(), p.queue)
    requires p.queue == [l.a, l.b, l.f] && p.visited == [] && p.phase == Going && completed <= p.steps.Keys
    requires forall v | v in p.steps :: p.steps[v] == GO
    requires forall n: Node, config, context | n.id != l.f :: w(n, config, context) == Succeeded(GO)
    ensures Executable(l.Flow()) && QueueKnown(l.Flow(), q.queue) && completed <= q.steps.Keys
    ensures Traverse(l.Flow(), st, w, completed, p) == Traverse(l.Flow(), st, w, completed, q)
    ensures q.queue == if l.b in p.steps then [l.f, l.c] else [l.f]
    ensures q.visited == [l.a, l.b] && q.phase == Going && q.steps == p.steps[l.a := GO][l.b := GO]
  {
    hide *;
    LateDistinct(l);
    var d := l.Flow();
    assert p.queue == [l.a] + [l.b, l.f];
    LateTurn(l, st, w, completed, p, l.a, [l.b, l.f]);
    var p1 := Turn(d, st, w, completed, p);
    var rest := if l.b in p.steps then [l.f, l.c] else [l.f];
    assert p1.queue == [l.b] + rest;
    LateTurn(l, st, w, completed, p1, l.b, rest);
    q := Turn(d, st, w, completed, p1);
    assert q.visited == [l.a, l.b];
  }

  lemma OutageSpares(l: Late)
    ensures forall n: Node, config, context | n.id != l.f :: l.Outage()(n, config, context) == Succeeded(GO)
  {
  }

  lemma ExecutedBroken(d: Definition, st: Setting, w: World, error: string)
    requires Executable(d) && PassOver(d, st, w, []).phase == Broken(error)
    ensures Executed(d, st, w, Full, NEW_RUN).status == RunFailed
    ensures Executed(d, st, w, Full, NEW_RUN).steps == PassOver(d, st, w, []).records
  {
    hide PassOver;
  }

  /** First pass: a and b succeed, f breaks the run. */
  lemma LateFirstPass(l: Late, st: Setting)
    requires l.Distinct()
    ensures Executable(l.Flow())
    ensures var run := Executed(l.Flow(), st, l.Outage(), Full, NEW_RUN);
            run.status == RunFailed && Completed(run.steps) == map[l.a := GO, l.b := GO]
  {
    hide *;
    var d, w := l.Flow(), l.Outage();
    var none: set<NodeId> := {};
    OutageSpares(l);
    NothingCompleted();
    assert Completed([]).Keys == none;
    LateStarts(l);
    LateDistinct(l);
    PassStarts(d, st, w, []);
    var p := LateThroughB(l, st, w, none, StartPass(d, []));
    assert p.steps == map[l.a := GO, l.b := GO];
    LateBreaks(l, st, p);
    ExecutedBroken(d, st, w, "down");
  }

  lemma PlanSucceeds()
    ensures forall n: Node, config, context :: PlanWorld(LatePlan())(n, config, context) == Succeeded(GO)
  {
  }

  /** The turns on f and c. */
  lemma LateToEnd(l: Late, st: Setting, w: World, completed: set<NodeId>, p: Pass)
    requires l.Distinct() && QueueKnown(l.Flow(), p.queue)
    requires p.queue == [l.f, l.c] && p.visited == [l.a, l.b] && p.phase == Going && completed <= p.steps.Keys
    requires forall v | v in p.steps :: p.steps[v] == GO
    requires forall n: Node, config, context :: w(n, config, context) == Succeeded(GO)
    ensures Executable(l.Flow())
    ensures var q := Traverse(l.Flow(), st, w, completed, p);
            q.phase == Going && q.visited == [l.a, l.b, l.f, l.c]
  {
    hide *;
    LateDistinct(l);
    var d := l.Flow();
    assert p.queue == [l.f] + [l.c];
    LateTurn(l, st, w, completed, p, l.f, [l.c]);
    var p3 := Turn(d, st, w, completed, p);
    assert p3.queue == [l.c] + [];
    LateTurn(l, st, w, completed, p3, l.c, []);
    var p4 := Turn(d, st, w, completed, p3);
    assert p4.visited == [l.a, l.b, l.f, l.c];
    ExecutableIs(d);
    TraverseEnd(d, st, w, completed, p4);
  }

  /** Once b's output is known, a's edge fires: the resumed run also visits c. */
  lemma LateSecondPass(l: Late, st: Setting, records: seq<StepRecord>)
    requires l.Distinct() && Completed(records) == map[l.a := GO, l.b := GO]
    ensures Executable(l.Flow())
    ensures var p := PassOver(l.Flow(), st, PlanWorld(LatePlan()), records);
            p.phase == Going && p.visited == [l.a, l.b, l.f, l.c]
  {
    hide *;
    var d, w := l.Flow(), PlanWorld(LatePlan());
    PlanSucceeds();
    LateStarts(l);
    LateDistinct(l);
    PassStarts(d, st, w, records);
    var completed: set<NodeId> := Completed(records).Keys;
    var p := LateThroughB(l, st, w, completed, StartPass(d, records));
    LateToEnd(l, st, w, completed, p);
  }

  lemma LateIdealVisit(l: Late, st: Setting, queue: seq<NodeId>, i: Ideal, u: NodeId, rest: seq<NodeId>)
    requires l.Distinct() && QueueKnown(l.Flow(), queue)
    requires queue == [u] + rest && u !in i.visited
    requires u == l.a ==> l.b !in i.steps
    requires l.b in i.steps ==> i.steps[l.b] == GO
    ensures Executable(l.Flow()) && QueueKnown(l.Flow(), rest)
    ensures var i' := Ideal(i.visited + [u], i.steps[u := GO], i.fired + [[]]);
            IdealFrom(l.Flow(), st, LatePlan(), queue, i) == IdealFrom(l.Flow(), st, LatePlan(), rest, i')
  {
    var d := l.Flow();
    LateStarts(l);
    assert u in queue;
    LateFired(l, st, u, i.steps[u := GO]);
    IdealVisitProgress(d, st, LatePlan(), queue, i);
    assert forall v | v in rest :: v in queue;
    hide Fired, Resolve, Context, WellFormed, Ids, Starts;
    assert rest + Unvisited([], i.visited + [u]) == rest;
  }

  /** Left alone, the run never visits c. */
  lemma LateIdeal(l: Late, st: Setting)
    requires l.Distinct()
    ensures Executable(l.Flow())
    ensures IdealRun(l.Flow(), st, LatePlan()).visited == [l.a, l.b, l.f]
  {
    hide *;
    LateStarts(l);
    LateDistinct(l);
    var d, plan := l.Flow(), LatePlan();
    IdealStart(d, st, plan);
    LateIdealVisit(l, st, [l.a, l.b, l.f], Ideal([], map[], []), l.a, [l.b, l.f]);
    var i1 := Ideal([] + [l.a], map[][l.a := GO], [] + [[]]);
    LateIdealVisit(l, st, [l.b, l.f], i1, l.b, [l.f]);
    var i2 := Ideal(i1.visited + [l.b], i1.steps[l.b := GO], i1.fired + [[]]);
    LateIdealVisit(l, st, [l.f], i2, l.f, []);
    IdealEnd(d, st, plan, Ideal(i2.visited + [l.f], i2.steps[l.f := GO], i2.fired + [[]]));
  }

  lemma LateFollows(l: Late)
    ensures Follows(l.Outage(), LatePlan()) && Follows(PlanWorld(LatePlan()), LatePlan())
  {
  }

  lemma ExecutedTwice(d: Definition, st: Setting, plan: Plan, w1: World, w2: World)
    requires Executable(d) && Follows(w1, plan) && Follows(w2, plan)
    ensures var events := [Execute(w1, Full), Execute(w2, Full)];
            && HistoryFollows(d, st, plan, events)
            && History(d, st, events) == Executed(d, st, w2, Full, Executed(d, st, w1, Full, NEW_RUN))
  {
    var e1, e2 := Execute(w1, Full), Execute(w2, Full);
    hide History, Executable, Follows, Executed;
    NoEvents(d, st);
    OneMoreEvent(d, st, [], e1);
    OneMoreEvent(d, st, [e1], e2);
    assert [] + [e1] == [e1] && [e1] + [e2] == [e1, e2];
  }

  lemma ExecutedFinishes(d: Definition, st: Setting, w: World, run: Run)
    requires Executable(d) && PassOver(d, st, w, run.steps).phase == Going
    ensures Executed(d, st, w, Full, run).status == RunSuccess
    ensures Executed(d, st, w, Full, run).visited == PassOver(d, st, w, run.steps).visited
  {
    hide PassOver, Executable;
  }

  /** The resumed run and the uninterrupted run disagree: an edge that reads a node visited
      later than its source may fire only on resume. */
  lemma LateOutputsChangeTheRun(l: Late, st: Setting)
    requires l.Distinct()
    ensures Executable(l.Flow())
    ensures var d := l.Flow();
            var events := [Execute(l.Outage(), Full), Execute(PlanWorld(LatePlan()), Full)];
            && HistoryFollows(d, st, LatePlan(), events)
            && History(d, st, events).status == RunSuccess
            && History(d, st, events).visited == [l.a, l.b, l.f, l.c]
            && IdealRun(d, st, LatePlan()).visited == [l.a, l.b, l.f]
            && !Stable(d, st, LatePlan())
  {
    var d := l.Flow();
    var e1, e2 := Execute(l.Outage(), Full), Execute(PlanWorld(LatePlan()), Full);
    var events := [e1, e2];
    hide *;
    LateFirstPass(l, st);
    var run := Executed(d, st, l.Outage(), Full, NEW_RUN);
    LateSecondPass(l, st, run.steps);
    LateIdeal(l, st);
    LateFollows(l);
    ExecutedTwice(d, st, LatePlan(), l.Outage(), PlanWorld(LatePlan()));
    ExecutedFinishes(d, st, PlanWorld(LatePlan()), run);
    if Stable(d, st, LatePlan()) {
      ResumeRefinesUninterrupted(d, st, LatePlan(), events);
    }
  }
}
