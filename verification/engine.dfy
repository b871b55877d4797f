/** The resumable executor: one pass over the definition, the persisted run record,
    and the approve / reject / re-execute operations on it. */
module Engine {
  import opened Templates
  import opened Schema

  // --- Data ---

  /** What a successful step leaves behind for later nodes and later passes. */
  datatype StepData = StepData(output: map<string, Value>, durationMs: real)

  /** The parts of the context that one run never changes. */
  datatype Setting = Setting(input: Value, tenantId: string, traceId: string, render: Render)

  function StepValue(s: StepData): Value {
    Obj(map["output" := Obj(s.output), "duration_ms" := Num(s.durationMs)])
  }

  /** The `context` dictionary handed to templates, conditions and dispatch. */
  function Context(st: Setting, steps: map<NodeId, StepData>): Value {
    Obj(map["input" := st.input,
            "steps" := Obj(map n | n in steps :: StepValue(steps[n])),
            "tenant_id" := Str(st.tenantId),
            "trace_id" := Str(st.traceId)])
  }

  lemma NestedStep(data: Value, key: string, rest: seq<string>)
    ensures GetNested(data, [key] + rest) ==
            if data.Obj? && key in data.fields then GetNested(data.fields[key], rest) else Null
  {
    assert ([key] + rest)[1..] == rest;
  }

  /** What a path finds in the context: the input of the run, its tenant and trace, and its steps;
      anything else is missing. */
  lemma ContextExactly(st: Setting, steps: map<NodeId, StepData>, key: string, rest: seq<string>)
    ensures GetNested(Context(st, steps), [key] + rest) ==
            match key
            case "input" => GetNested(st.input, rest)
            case "steps" => GetNested(Obj(map n | n in steps :: StepValue(steps[n])), rest)
            case "tenant_id" => GetNested(Str(st.tenantId), rest)
            case "trace_id" => GetNested(Str(st.traceId), rest)
            case _ => Null
  {
    NestedStep(Context(st, steps), key, rest);
    hide GetNested, StepValue;
  }

  lemma StepValueExactly(s: StepData, key: string, rest: seq<string>)
    ensures GetNested(StepValue(s), [key] + rest) ==
            match key
            case "output" => GetNested(Obj(s.output), rest)
            case "duration_ms" => GetNested(Num(s.durationMs), rest)
            case _ => Null
  {
    NestedStep(StepValue(s), key, rest);
    hide GetNested;
  }

  /** Of a step the context knows the output, key by key, and the duration; of a node that is not
      complete it knows nothing. */
  lemma StepsExactly(st: Setting, steps: map<NodeId, StepData>, n: NodeId, key: string, rest: seq<string>)
    ensures var at := (path: seq<string>) => GetNested(Context(st, steps), ["steps"] + ([n] + path));
            && (n !in steps ==> at(rest) == Null)
            && (n in steps ==>
                  && at(["output"] + ([key] + rest)) ==
                     (if key in steps[n].output then GetNested(steps[n].output[key], rest) else Null)
                  && at(["duration_ms"] + rest) == GetNested(Num(steps[n].durationMs), rest)
                  && (key != "output" && key != "duration_ms" ==> at([key] + rest) == Null))
  {
    var all := Obj(map m | m in steps :: StepValue(steps[m]));
    forall path: seq<string>
      ensures GetNested(Context(st, steps), ["steps"] + ([n] + path)) ==
              if n in steps then GetNested(StepValue(steps[n]), path) else Null
    {
      ContextExactly(st, steps, "steps", [n] + path);
      NestedStep(all, n, path);
      hide *;
    }
    hide *;
    if n in steps {
      StepValueExactly(steps[n], "output", [key] + rest);
      NestedStep(Obj(steps[n].output), key, rest);
      StepValueExactly(steps[n], "duration_ms", rest);
      StepValueExactly(steps[n], key, rest);
    }
  }

  datatype StepStatus =
    | Running
    | Success(data: StepData)
    | Failed(error: string)
    | WaitingApproval
    | Rejected

  datatype StepRecord = StepRecord(nodeId: NodeId, inputSnapshot: Value, status: StepStatus)

  datatype RunStatus = RunRunning | RunSuccess | RunFailed | RunWaitingApproval | RunRejected

  /** How one dispatch ends; `Crashed` is the process dying before the step is updated. */
  datatype Outcome = Succeeded(data: StepData) | FailedWith(error: string) | Crashed

  /** Everything outside the engine during one pass. */
  type World = (Node, Value, Value) -> Outcome

  const APPROVAL := "action.approval"

  // --- Specification of one pass ---

  predicate HasIncoming(edges: seq<Edge>, v: NodeId) {
    exists e | e in edges :: e.target == v
  }

  function WithoutIncoming(ids: seq<NodeId>, edges: seq<Edge>): seq<NodeId> {
    if ids == [] then []
    else
      WithoutIncoming(ids[..|ids| - 1], edges)
      + if HasIncoming(edges, ids[|ids| - 1]) then [] else [ids[|ids| - 1]]
  }

  function Starts(d: Definition): seq<NodeId>
    requires d.nodes != []
  {
    var sources := WithoutIncoming(Ids(d.nodes), d.edges);
    if sources == [] then [d.nodes[0].id] else sources
  }

  function NodeOf(nodes: seq<Node>, id: NodeId): (n: Node)
    requires id in Ids(nodes)
    ensures n in nodes && n.id == id
  {
    if nodes[0].id == id then nodes[0]
    else
      assert Ids(nodes) == [nodes[0].id] + Ids(nodes[1..]);
      NodeOf(nodes[1..], id)
  }

  function Outgoing(edges: seq<Edge>, u: NodeId): seq<Edge> {
    if edges == [] then []
    else
      var e := edges[|edges| - 1];
      Outgoing(edges[..|edges| - 1], u) + if e.source == u then [e] else []
  }

  /** The edges of the list whose condition holds, in order. */
  function Firing(edges: seq<Edge>, data: Value, render: Render): seq<Edge> {
    if edges == [] then []
    else
      var e := edges[|edges| - 1];
      Firing(edges[..|edges| - 1], data, render)
      + if EvaluateCondition(e.condition, data, render) then [e] else []
  }

  function Fired(d: Definition, st: Setting, u: NodeId, steps: map<NodeId, StepData>): seq<Edge> {
    Firing(Outgoing(d.edges, u), Context(st, steps), st.render)
  }

  function Unvisited(fired: seq<Edge>, visited: seq<NodeId>): seq<NodeId> {
    if fired == [] then []
    else
      var e := fired[|fired| - 1];
      Unvisited(fired[..|fired| - 1], visited) + if e.target in visited then [] else [e.target]
  }

  datatype Phase = Going | Parked | Broken(error: string) | Died

  /** The locals of the traversal loop. `visited` keeps the visiting order; `fired` logs,
      per visited node that completed, the edges that fired; `dispatched` the nodes handed
      to a connector in this pass. */
  datatype Pass = Pass(
    queue: seq<NodeId>,
    visited: seq<NodeId>,
    steps: map<NodeId, StepData>,
    records: seq<StepRecord>,
    last: Option<map<string, Value>>,
    fired: seq<seq<Edge>>,
    dispatched: seq<NodeId>,
    phase: Phase)

  /** `u` is complete with `data`: remember its output and enqueue what its edges reach. */
  function Complete(d: Definition, st: Setting, p: Pass, u: NodeId, data: StepData): Pass {
    var steps := p.steps[u := data];
    var fired := Fired(d, st, u, steps);
    p.(steps := steps, last := Some(data.output), fired := p.fired + [fired],
       queue := p.queue + Unvisited(fired, p.visited))
  }

  /** What running one node does: the step it records, whether it reached a connector,
      and either its data or the reason the pass stops. */
  datatype Attempt = Attempt(record: StepRecord, sent: bool, phase: Phase, data: Option<StepData>)

  function Attempted(d: Definition, st: Setting, w: World, u: NodeId, steps: map<NodeId, StepData>): (a: Attempt)
    requires u in Ids(d.nodes)
    ensures a.data.Some? <==> a.phase == Going
  {
    var node := NodeOf(d.nodes, u);
    var context := Context(st, steps);
    var config := Resolve(node.config, context, st.render);
    if node.kind == APPROVAL then
      Attempt(StepRecord(u, config, WaitingApproval), false, Parked, None)
    else
      match w(node, config, context)
      case Succeeded(data) => Attempt(StepRecord(u, config, Success(data)), true, Going, Some(data))
      case FailedWith(error) => Attempt(StepRecord(u, config, Failed(error)), true, Broken(error), None)
      case Crashed => Attempt(StepRecord(u, config, Running), true, Died, None)
  }

  /** One turn of the traversal loop. */
  function Turn(d: Definition, st: Setting, w: World, completed: set<NodeId>, p: Pass): Pass
    requires p.queue != [] && p.queue[0] in Ids(d.nodes)
    requires completed <= p.steps.Keys
  {
    var u := p.queue[0];
    if u in p.visited then
      p.(queue := p.queue[1..])
    else
      var p' := p.(queue := p.queue[1..], visited := p.visited + [u]);
      if u in completed then
        Complete(d, st, p', u, p.steps[u])
      else
        var a := Attempted(d, st, w, u, p.steps);
        var p'' := p'.(records := p.records + [a.record],
                       dispatched := if a.sent then p.dispatched + [u] else p.dispatched);
        if a.phase == Going then Complete(d, st, p'', u, a.data.value)
        else p''.(phase := a.phase)
  }

  ghost predicate QueueKnown(d: Definition, queue: seq<NodeId>) {
    forall v | v in queue :: v in Ids(d.nodes)
  }

  lemma {:induction false} OutgoingMembers(edges: seq<Edge>, u: NodeId)
    ensures forall e :: e in Outgoing(edges, u) <==> e in edges && e.source == u
  {
    if edges != [] {
      OutgoingMembers(edges[..|edges| - 1], u);
      assert edges == edges[..|edges| - 1] + [edges[|edges| - 1]];
    }
  }

  lemma {:induction false} FiringMembers(edges: seq<Edge>, data: Value, render: Render)
    ensures forall e :: e in Firing(edges, data, render) <==>
                        e in edges && EvaluateCondition(e.condition, data, render)
  {
    if edges != [] {
      FiringMembers(edges[..|edges| - 1], data, render);
      assert edges == edges[..|edges| - 1] + [edges[|edges| - 1]];
    }
  }

  lemma {:induction false} UnvisitedMembers(fired: seq<Edge>, visited: seq<NodeId>)
    ensures forall v :: v in Unvisited(fired, visited) <==> v !in visited && exists e | e in fired :: e.target == v
  {
    if fired != [] {
      UnvisitedMembers(fired[..|fired| - 1], visited);
      assert fired == fired[..|fired| - 1] + [fired[|fired| - 1]];
    }
  }

  lemma NothingFired(u: NodeId, data: Value, render: Render, visited: seq<NodeId>)
    ensures Firing(Outgoing([], u), data, render) == []
    ensures Unvisited([], visited) == []
  {
  }

  lemma FiringSnoc(edges: seq<Edge>, e: Edge, u: NodeId, data: Value, render: Render)
    ensures Firing(Outgoing(edges + [e], u), data, render) ==
            Firing(Outgoing(edges, u), data, render)
            + if e.source == u && EvaluateCondition(e.condition, data, render) then [e] else []
  {
    assert (edges + [e])[..|edges|] == edges;
    var out := Outgoing(edges, u);
    assert (out + [e])[..|out|] == out;
    assert Outgoing(edges + [e], u) == if e.source == u then out + [e] else out;
  }

  /** Which edges fire: exactly those that leave the node and whose condition holds, each once, in the
      order of the definition; `at` are their positions. */
  lemma {:induction false} FiringExactly(edges: seq<Edge>, u: NodeId, data: Value, render: Render) returns (at: seq<nat>)
    ensures forall i | 0 <= i < |at| :: at[i] < |edges| && (i > 0 ==> at[i - 1] < at[i])
    ensures Firing(Outgoing(edges, u), data, render) == seq(|at|, i requires 0 <= i < |at| => edges[at[i]])
    ensures forall k | 0 <= k < |edges| ::
              k in at <==> edges[k].source == u && EvaluateCondition(edges[k].condition, data, render)
  {
    hide *;
    at := [];
    if edges == [] {
      NothingFired(u, data, render, []);
    } else {
      var front, e := edges[..|edges| - 1], edges[|edges| - 1];
      at := FiringExactly(front, u, data, render);
      FiringSnoc(front, e, u, data, render);
      assert edges == front + [e] && |front| !in at;
      if e.source == u && EvaluateCondition(e.condition, data, render) {
        at := at + [|front|];
      }
    }
  }

  lemma UnvisitedSnoc(fired: seq<Edge>, e: Edge, visited: seq<NodeId>)
    ensures Unvisited(fired + [e], visited) ==
            Unvisited(fired, visited) + if e.target in visited then [] else [e.target]
  {
    assert (fired + [e])[..|fired|] == fired;
  }

  /** What they enqueue: the targets not visited yet, one for each edge, in order. */
  lemma {:induction false} UnvisitedExactly(fired: seq<Edge>, visited: seq<NodeId>) returns (at: seq<nat>)
    ensures forall i | 0 <= i < |at| :: at[i] < |fired| && (i > 0 ==> at[i - 1] < at[i])
    ensures Unvisited(fired, visited) == seq(|at|, i requires 0 <= i < |at| => fired[at[i]].target)
    ensures forall k | 0 <= k < |fired| :: k in at <==> fired[k].target !in visited
  {
    at := [];
    if fired != [] {
      var n := |fired| - 1;
      at := UnvisitedExactly(fired[..n], visited);
      UnvisitedSnoc(fired[..n], fired[n], visited);
      assert fired == fired[..n] + [fired[n]] && n !in at;
      hide Unvisited;
      if fired[n].target !in visited {
        at := at + [n];
      }
    }
  }

  lemma WithoutIncomingSnoc(ids: seq<NodeId>, id: NodeId, edges: seq<Edge>)
    ensures WithoutIncoming(ids + [id], edges) == WithoutIncoming(ids, edges) + if HasIncoming(edges, id) then [] else [id]
  {
    assert (ids + [id])[..|ids|] == ids;
  }

  lemma {:induction false} WithoutIncomingExactly(ids: seq<NodeId>, edges: seq<Edge>) returns (at: seq<nat>)
    ensures forall i | 0 <= i < |at| :: at[i] < |ids| && (i > 0 ==> at[i - 1] < at[i])
    ensures WithoutIncoming(ids, edges) == seq(|at|, i requires 0 <= i < |at| => ids[at[i]])
    ensures forall k | 0 <= k < |ids| :: k in at <==> forall e | e in edges :: e.target != ids[k]
  {
    at := [];
    if ids != [] {
      var n := |ids| - 1;
      at := WithoutIncomingExactly(ids[..n], edges);
      WithoutIncomingSnoc(ids[..n], ids[n], edges);
      assert ids == ids[..n] + [ids[n]] && n !in at;
      hide WithoutIncoming;
      if !HasIncoming(edges, ids[n]) {
        at := at + [n];
      }
    }
  }

  /** Where a pass starts: at the nodes no edge points at, in the order of the definition, or at the
      first node when there is none. */
  lemma StartsExactly(d: Definition) returns (at: seq<nat>)
    requires d.nodes != []
    ensures forall i | 0 <= i < |at| :: at[i] < |d.nodes| && (i > 0 ==> at[i - 1] < at[i])
    ensures Starts(d) == seq(|at|, i requires 0 <= i < |at| => d.nodes[at[i]].id)
    ensures || (at != [] && forall k | 0 <= k < |d.nodes| :: k in at <==> forall e | e in d.edges :: e.target != d.nodes[k].id)
            || (at == [0] && forall k | 0 <= k < |d.nodes| :: exists e | e in d.edges :: e.target == d.nodes[k].id)
  {
    var ids := Ids(d.nodes);
    at := WithoutIncomingExactly(ids, d.edges);
    hide WithoutIncoming;
    if at == [] {
      at := [0];
      forall k | 0 <= k < |d.nodes| ensures exists e | e in d.edges :: e.target == d.nodes[k].id {
        assert ids[k] == d.nodes[k].id;
      }
    }
  }

  lemma FiredUnfolds(d: Definition, st: Setting, u: NodeId, steps: map<NodeId, StepData>)
    ensures Fired(d, st, u, steps) == Firing(Outgoing(d.edges, u), Context(st, steps), st.render)
  {
  }

  lemma FiredMembers(d: Definition, st: Setting, u: NodeId, steps: map<NodeId, StepData>)
    ensures forall e :: e in Fired(d, st, u, steps) <==>
              e in d.edges && e.source == u && EvaluateCondition(e.condition, Context(st, steps), st.render)
  {
    OutgoingMembers(d.edges, u);
    FiringMembers(Outgoing(d.edges, u), Context(st, steps), st.render);
  }

  lemma EnqueuedKnown(d: Definition, st: Setting, u: NodeId, steps: map<NodeId, StepData>, visited: seq<NodeId>)
    requires WellFormed(d)
    ensures QueueKnown(d, Unvisited(Fired(d, st, u, steps), visited))
  {
    FiredMembers(d, st, u, steps);
    UnvisitedMembers(Fired(d, st, u, steps), visited);
  }

  lemma TurnProgress(d: Definition, st: Setting, w: World, completed: set<NodeId>, p: Pass)
    requires WellFormed(d) && QueueKnown(d, p.queue) && p.queue != [] && completed <= p.steps.Keys
    ensures var q := Turn(d, st, w, completed, p);
            && QueueKnown(d, q.queue) && completed <= q.steps.Keys
            && (if p.queue[0] in p.visited then q.visited == p.visited && |q.queue| < |p.queue|
                else q.visited == p.visited + [p.queue[0]]
                     && Elements(Ids(d.nodes)) - Elements(q.visited) < Elements(Ids(d.nodes)) - Elements(p.visited))
  {
    var u := p.queue[0];
    assert p.queue == [u] + p.queue[1..];
    assert u in Ids(d.nodes);
    if u !in p.visited {
      var q := Turn(d, st, w, completed, p);
      assert Elements(p.visited + [u]) == Elements(p.visited) + {u};
      assert u in Elements(Ids(d.nodes)) - Elements(p.visited);
      EnqueuedKnown(d, st, u, q.steps, q.visited);
    }
  }

  /** The whole traversal, until the queue is empty or something stops it. */
  function Traverse(d: Definition, st: Setting, w: World, completed: set<NodeId>, p: Pass): Pass
    requires WellFormed(d) && QueueKnown(d, p.queue) && completed <= p.steps.Keys
    decreases Elements(Ids(d.nodes)) - Elements(p.visited), |p.queue|
  {
    if p.queue == [] || p.phase != Going then p
    else
      TurnProgress(d, st, w, completed, p);
      Traverse(d, st, w, completed, Turn(d, st, w, completed, p))
  }

  /** The traversal cut off after at most `n` turns. */
  function Turns(d: Definition, st: Setting, w: World, completed: set<NodeId>, p: Pass, n: nat): Pass
    requires WellFormed(d) && QueueKnown(d, p.queue) && completed <= p.steps.Keys
    decreases n
  {
    if n == 0 || p.queue == [] || p.phase != Going then p
    else
      TurnProgress(d, st, w, completed, p);
      Turns(d, st, w, completed, Turn(d, st, w, completed, p), n - 1)
  }

  lemma TraverseTurn(d: Definition, st: Setting, w: World, completed: set<NodeId>, p: Pass)
    requires WellFormed(d) && QueueKnown(d, p.queue) && completed <= p.steps.Keys
    requires p.queue != [] && p.phase == Going
    ensures p.queue[0] in Ids(d.nodes)
    ensures var q := Turn(d, st, w, completed, p);
            && QueueKnown(d, q.queue) && completed <= q.steps.Keys
            && Traverse(d, st, w, completed, p) == Traverse(d, st, w, completed, q)
            && (q.queue == [] || q.phase != Going ==> Traverse(d, st, w, completed, p) == q)
            && (if p.queue[0] in p.visited then q.visited == p.visited && |q.queue| < |p.queue|
                else q.visited == p.visited + [p.queue[0]]
                     && Elements(Ids(d.nodes)) - Elements(q.visited) < Elements(Ids(d.nodes)) - Elements(p.visited))
  {
    TurnProgress(d, st, w, completed, p);
  }

  lemma TraverseEnd(d: Definition, st: Setting, w: World, completed: set<NodeId>, p: Pass)
    requires WellFormed(d) && QueueKnown(d, p.queue) && completed <= p.steps.Keys
    requires p.queue == [] || p.phase != Going
    ensures Traverse(d, st, w, completed, p) == p
  {
  }

  lemma TurnsUnfold(d: Definition, st: Setting, w: World, completed: set<NodeId>, p: Pass, n: nat)
    requires WellFormed(d) && QueueKnown(d, p.queue) && completed <= p.steps.Keys
    ensures n == 0 || p.queue == [] || p.phase != Going ==> Turns(d, st, w, completed, p, n) == p
    ensures n > 0 && p.queue != [] && p.phase == Going ==>
              p.queue[0] in Ids(d.nodes)
              && var q := Turn(d, st, w, completed, p);
              QueueKnown(d, q.queue) && completed <= q.steps.Keys
              && Turns(d, st, w, completed, p, n) == Turns(d, st, w, completed, q, n - 1)
  {
    if n > 0 && p.queue != [] && p.phase == Going {
      TurnProgress(d, st, w, completed, p);
    }
    hide Turn;
  }

  /** One turn more, taken at the end. */
  lemma {:induction false} TurnsStep(d: Definition, st: Setting, w: World, completed: set<NodeId>, p: Pass, n: nat)
    requires WellFormed(d) && QueueKnown(d, p.queue) && completed <= p.steps.Keys
    ensures var q := Turns(d, st, w, completed, p, n);
            && QueueKnown(d, q.queue) && completed <= q.steps.Keys
            && (q.queue != [] && q.phase == Going ==>
                  Turns(d, st, w, completed, p, n + 1) == Turn(d, st, w, completed, q))
    decreases n
  {
    if n > 0 && p.queue != [] && p.phase == Going {
      TurnProgress(d, st, w, completed, p);
      TurnsStep(d, st, w, completed, Turn(d, st, w, completed, p), n - 1);
    }
    hide Turn;
  }

  /** Once the traversal has ended, further turns change nothing. */
  lemma {:induction false} TurnsEnd(d: Definition, st: Setting, w: World, completed: set<NodeId>, p: Pass, n: nat, m: nat)
    requires WellFormed(d) && QueueKnown(d, p.queue) && completed <= p.steps.Keys && n <= m
    requires var q := Turns(d, st, w, completed, p, n); q.queue == [] || q.phase != Going
    ensures Turns(d, st, w, completed, p, m) == Turns(d, st, w, completed, p, n)
    decreases n
  {
    hide *;
    TurnsUnfold(d, st, w, completed, p, n);
    TurnsUnfold(d, st, w, completed, p, m);
    if n > 0 && p.queue != [] && p.phase == Going {
      TurnsEnd(d, st, w, completed, Turn(d, st, w, completed, p), n - 1, m - 1);
    }
  }

  /** A traversal that has ended after some turns has ended where the whole one does. */
  lemma {:induction false} TurnsTraverse(d: Definition, st: Setting, w: World, completed: set<NodeId>, p: Pass, n: nat)
    requires WellFormed(d) && QueueKnown(d, p.queue) && completed <= p.steps.Keys
    requires var q := Turns(d, st, w, completed, p, n); q.queue == [] || q.phase != Going
    ensures Turns(d, st, w, completed, p, n) == Traverse(d, st, w, completed, p)
    decreases n
  {
    hide Turn;
    if n > 0 && p.queue != [] && p.phase == Going {
      TurnProgress(d, st, w, completed, p);
      TurnsTraverse(d, st, w, completed, Turn(d, st, w, completed, p), n - 1);
    }
  }

  // --- Persisted state ---

  /** The latest SUCCESS record of a node, if it has one. */
  ghost predicate IsLatestSuccess(records: seq<StepRecord>, v: NodeId, i: nat) {
    && i < |records| && records[i].nodeId == v && records[i].status.Success?
    && forall j | i < j < |records| :: !(records[j].nodeId == v && records[j].status.Success?)
  }

  /** The steps that recovery trusts: those recorded as SUCCESS, the latest winning. */
  function Completed(records: seq<StepRecord>): map<NodeId, StepData> {
    if records == [] then map[]
    else
      var r := records[|records| - 1];
      var earlier := Completed(records[..|records| - 1]);
      if r.status.Success? then earlier[r.nodeId := r.status.data] else earlier
  }

  /** Recovery knows exactly the nodes with a SUCCESS record, each with the data of its latest. */
  lemma {:induction false} LatestSuccessWins(records: seq<StepRecord>, v: NodeId)
    ensures v in Completed(records) <==> exists i: nat :: IsLatestSuccess(records, v, i)
    ensures forall i: nat | IsLatestSuccess(records, v, i) :: Completed(records)[v] == records[i].status.data
  {
    if records != [] {
      var n := |records| - 1;
      var front := records[..n];
      LatestSuccessWins(front, v);
      if records[n].nodeId == v && records[n].status.Success? {
        assert IsLatestSuccess(records, v, n);
        assert forall i: nat | IsLatestSuccess(records, v, i) :: i == n;
      } else {
        forall i: nat ensures IsLatestSuccess(records, v, i) <==> IsLatestSuccess(front, v, i) {
          assert forall j | 0 <= j < n :: front[j] == records[j];
        }
        assert v in Completed(records) <==> v in Completed(front);
        hide IsLatestSuccess;
      }
    }
  }

  /** The run record. `visited` and `fired` describe the latest pass (the engine keeps
      them in local variables only). */
  datatype Run = Run(
    status: RunStatus,
    steps: seq<StepRecord>,
    output: Option<map<string, Value>>,
    error: Option<string>,
    visited: seq<NodeId>,
    fired: seq<seq<Edge>>)

  const NEW_RUN := Run(RunRunning, [], None, None, [], [])

  function StartPass(d: Definition, records: seq<StepRecord>): Pass
    requires d.nodes != []
  {
    Pass(Starts(d), [], Completed(records), records, None, [], [], Going)
  }

  lemma {:induction false} WithoutIncomingMembers(ids: seq<NodeId>, edges: seq<Edge>)
    ensures forall v :: v in WithoutIncoming(ids, edges) <==> v in ids && !HasIncoming(edges, v)
  {
    if ids != [] {
      WithoutIncomingMembers(ids[..|ids| - 1], edges);
      assert ids == ids[..|ids| - 1] + [ids[|ids| - 1]];
    }
  }

  lemma StartsKnown(d: Definition)
    requires d.nodes != []
    ensures QueueKnown(d, Starts(d))
  {
    WithoutIncomingMembers(Ids(d.nodes), d.edges);
    assert Ids(d.nodes)[0] == d.nodes[0].id;
  }

  /** A definition the engine can be handed: schema-checked, at least one node. */
  ghost predicate Executable(d: Definition) {
    WellFormed(d) && d.nodes != []
  }

  lemma ExecutableIs(d: Definition)
    requires Executable(d)
    ensures WellFormed(d) && d.nodes != []
  {
  }

  /** The pass that `execute` makes over what is recorded so far. */
  function PassOver(d: Definition, st: Setting, w: World, records: seq<StepRecord>): Pass
    requires Executable(d)
  {
    StartsKnown(d);
    Traverse(d, st, w, Completed(records).Keys, StartPass(d, records))
  }

  /** How long the process lives through one operation: to its end, through some turns of the
      traversal, or only until a decision on a step is saved. */
  datatype Life = Full | Dies(turns: nat) | DiesDeciding

  /** The pass as far as the process lives. Whatever it was about to do next is not recorded. */
  function PassUntil(d: Definition, st: Setting, w: World, life: Life, records: seq<StepRecord>): Pass
    requires Executable(d)
  {
    if life.Dies? then
      StartsKnown(d);
      Turns(d, st, w, Completed(records).Keys, StartPass(d, records), life.turns).(phase := Died)
    else PassOver(d, st, w, records)
  }

  lemma PassIs(d: Definition, st: Setting, w: World, life: Life, records: seq<StepRecord>)
    requires Executable(d)
    ensures WellFormed(d) && QueueKnown(d, Starts(d))
    ensures var p := StartPass(d, records);
            && p.queue == Starts(d) && p.visited == [] && p.steps == Completed(records) && p.records == records
            && p.last == None && p.phase == Going
            && PassUntil(d, st, w, life, records) ==
               if life.Dies? then Turns(d, st, w, Completed(records).Keys, p, life.turns).(phase := Died)
               else Traverse(d, st, w, Completed(records).Keys, p)
  {
    StartsKnown(d);
  }

  /** The run record after a pass. A crash leaves the status RUNNING and the old output in place. */
  function Conclude(run: Run, p: Pass): Run {
    match p.phase
    case Going => Run(RunSuccess, p.records, p.last, None, p.visited, p.fired)
    case Parked => Run(RunWaitingApproval, p.records, None, None, p.visited, p.fired)
    case Broken(error) => Run(RunFailed, p.records, None, Some(error), p.visited, p.fired)
    case Died => Run(RunRunning, p.records, run.output, run.error, p.visited, p.fired)
  }

  function Executed(d: Definition, st: Setting, w: World, life: Life, run: Run): Run
    requires Executable(d)
  {
    if life.DiesDeciding? then run else Conclude(run, PassUntil(d, st, w, life, run.steps))
  }

  /** Position of the first step waiting for approval, or the number of steps. */
  function FirstWaiting(steps: seq<StepRecord>): (i: nat)
    ensures i <= |steps|
    ensures i < |steps| ==> steps[i].status.WaitingApproval?
    ensures forall k | 0 <= k < i :: !steps[k].status.WaitingApproval?
  {
    if steps == [] then 0
    else if steps[0].status.WaitingApproval? then 0
    else 1 + FirstWaiting(steps[1..])
  }

  function Settle(steps: seq<StepRecord>, status: StepStatus): seq<StepRecord> {
    var i := FirstWaiting(steps);
    if i < |steps| then steps[i := steps[i].(status := status)] else steps
  }

  const APPROVAL_MS := 1.0

  /** What can happen to a run. */
  datatype Event =
    | Execute(world: World, life: Life)
    | Approve(decision: map<string, Value>, world: World, life: Life)
    | Reject(reason: string, life: Life)

  /** One operation on the run record. Deciding a run that is not waiting is an error
      and changes nothing. */
  function Apply(d: Definition, st: Setting, run: Run, event: Event): Run
    requires Executable(d)
  {
    match event
    case Execute(w, life) => Executed(d, st, w, life, run)
    case Approve(decision, w, life) =>
      if run.status != RunWaitingApproval then run
      else Executed(d, st, w, life, run.(steps := Settle(run.steps, Success(StepData(decision, APPROVAL_MS)))))
    case Reject(reason, life) =>
      if run.status != RunWaitingApproval then run
      else if !life.Full? then run.(steps := Settle(run.steps, Rejected))
      else run.(status := RunRejected, steps := Settle(run.steps, Rejected), output := None, error := Some(reason))
  }

  function History(d: Definition, st: Setting, events: seq<Event>): Run
    requires Executable(d)
  {
    if events == [] then NEW_RUN
    else Apply(d, st, History(d, st, events[..|events| - 1]), events[|events| - 1])
  }

  // --- The engine itself ---

  /** A persisted run and the operations the engine performs on it. */
  class RunStore {
    const setting: Setting
    var status: RunStatus
    var steps: seq<StepRecord>
    var output: Option<map<string, Value>>
    var error: Option<string>
    ghost var visited: seq<NodeId>
    ghost var fired: seq<seq<Edge>>

    ghost function Snapshot(): Run
      reads this
    {
      Run(status, steps, output, error, visited, fired)
    }

    constructor (setting: Setting)
      ensures Snapshot() == NEW_RUN && this.setting == setting
    {
      this.setting := setting;
      status, steps, output, error := RunRunning, [], None, None;
      visited, fired := [], [];
    }

    /** Rebuilds the completed steps from the records. */
    method LoadCompleted() returns (done: map<NodeId, StepData>)
      ensures done == Completed(steps)
    {
      done := map[];
      for k := 0 to |steps|
        invariant done == Completed(steps[..k])
      {
        assert steps[..k + 1][..k] == steps[..k];
        match steps[k].status {
          case Success(data) => done := done[steps[k].nodeId := data];
          case _ =>
        }
      }
      assert steps[..|steps|] == steps;
    }

    method StartNodes(d: Definition) returns (queue: seq<NodeId>)
      requires Executable(d)
      ensures queue == Starts(d)
    {
      var ids := Ids(d.nodes);
      var targets := set e | e in d.edges :: e.target;
      queue := [];
      for k := 0 to |ids|
        invariant queue == WithoutIncoming(ids[..k], d.edges)
      {
        assert ids[..k + 1][..k] == ids[..k];
        if ids[k] !in targets {
          queue := queue + [ids[k]];
        }
      }
      assert ids[..|ids|] == ids;
      if queue == [] {
        queue := [d.nodes[0].id];
      }
    }

    /** The inner loop: evaluate each outgoing edge and enqueue unvisited targets. */
    method Enqueue(d: Definition, u: NodeId, done: map<NodeId, StepData>, seen: set<NodeId>,
                   ghost order: seq<NodeId>, queue0: seq<NodeId>) returns (queue: seq<NodeId>, ghost log: seq<Edge>)
      requires forall v :: v in seen <==> v in order
      ensures log == Fired(d, setting, u, done)
      ensures queue == queue0 + Unvisited(Fired(d, setting, u, done), order)
    {
      queue, log := queue0, [];
      var context := Context(setting, done);
      NothingFired(u, context, setting.render, order);
      FiredUnfolds(d, setting, u, done);
      hide *;
      assert d.edges[..0] == [];
      for k := 0 to |d.edges|
        invariant log == Firing(Outgoing(d.edges[..k], u), context, setting.render)
        invariant queue == queue0 + Unvisited(log, order)
      {
        var e := d.edges[k];
        assert d.edges[..k + 1] == d.edges[..k] + [e];
        FiringSnoc(d.edges[..k], e, u, context, setting.render);
        if e.source == u && EvaluateCondition(e.condition, context, setting.render) {
          UnvisitedSnoc(log, e, order);
          log := log + [e];
          if e.target !in seen {
            queue := queue + [e.target];
          }
        }
      }
      assert d.edges[..|d.edges|] == d.edges;
    }

    /** Runs one node and records its step. */
    method RunNode(d: Definition, world: World, u: NodeId, done: map<NodeId, StepData>) returns (a: Attempt)
      requires u in Ids(d.nodes)
      modifies this`steps
      ensures a == Attempted(d, setting, world, u, done)
      ensures steps == old(steps) + [a.record]
    {
      var node := NodeOf(d.nodes, u);
      var context := Context(setting, done);
      var config := Resolve(node.config, context, setting.render);
      if node.kind == APPROVAL {
        a := Attempt(StepRecord(u, config, WaitingApproval), false, Parked, None);
      } else {
        match world(node, config, context) {
          case Succeeded(data) => a := Attempt(StepRecord(u, config, Success(data)), true, Going, Some(data));
          case FailedWith(err) => a := Attempt(StepRecord(u, config, Failed(err)), true, Broken(err), None);
          case Crashed => a := Attempt(StepRecord(u, config, Running), true, Died, None);
        }
      }
      steps := steps + [a.record];
    }

    /** The loop's locals are those of the specified pass. */
    ghost predicate Mirrors(p: Pass, queue: seq<NodeId>, seen: set<NodeId>, done: map<NodeId, StepData>,
                            last: Option<map<string, Value>>)
      reads this
    {
      && (forall v :: v in seen <==> v in p.visited)
      && p.queue == queue && p.steps == done && p.records == steps && p.last == last && p.phase == Going
    }

    /** The loop body for a node not seen before. */
    method VisitNext(d: Definition, world: World, completed: set<NodeId>, queue: seq<NodeId>, seen: set<NodeId>,
                     done: map<NodeId, StepData>, last: Option<map<string, Value>>, ghost p: Pass)
        returns (phase: Phase, queue': seq<NodeId>, done': map<NodeId, StepData>, last': Option<map<string, Value>>,
                 ghost q: Pass)
      requires queue != [] && queue[0] in Ids(d.nodes) && queue[0] !in seen && completed <= done.Keys
      requires Mirrors(p, queue, seen, done, last)
      modifies this`steps
      ensures q == Turn(d, setting, world, completed, p)
      ensures phase == q.phase && steps == q.records && last' == q.last
      ensures phase == Going ==> Mirrors(q, queue', seen + {queue[0]}, done', last')
    {
      var u := queue[0];
      ghost var visited := p.visited + [u];
      hide Context, Resolve, Fired, Unvisited, NodeOf, Attempted;
      q := Turn(d, setting, world, completed, p);
      queue', done', last', phase := queue[1..], done, last, Going;
      var data;
      if u in completed {
        data := done[u];
      } else {
        var a := RunNode(d, world, u, done);
        if a.phase != Going {
          phase := a.phase;
          return;
        }
        data := a.data.value;
      }
      last' := Some(data.output);
      done' := done[u := data];
      ghost var edges;
      queue', edges := Enqueue(d, u, done', seen + {u}, visited, queue[1..]);
    }

    lemma MirrorsFields(p: Pass, queue: seq<NodeId>, seen: set<NodeId>, done: map<NodeId, StepData>,
                        last: Option<map<string, Value>>)
      requires Mirrors(p, queue, seen, done, last)
      ensures p.queue == queue && p.phase == Going && p.steps == done && p.records == steps && p.last == last
    {
    }

    lemma MirrorsSkip(d: Definition, world: World, completed: set<NodeId>, queue: seq<NodeId>, seen: set<NodeId>,
                      done: map<NodeId, StepData>, last: Option<map<string, Value>>, p: Pass)
      requires queue != [] && queue[0] in Ids(d.nodes) && queue[0] in seen && completed <= done.Keys
      requires Mirrors(p, queue, seen, done, last)
      ensures Mirrors(Turn(d, setting, world, completed, p), queue[1..], seen, done, last)
      ensures var q := Turn(d, setting, world, completed, p);
              q.queue == queue[1..] && q.phase == Going && q.steps == done && q.visited == p.visited
    {
    }

    /** The traversal loop, for as many turns as the process lives. */
    method WalkTurns(d: Definition, world: World, life: Life, completed: set<NodeId>, start: seq<NodeId>,
                     done0: map<NodeId, StepData>, ghost p0: Pass)
        returns (turns: nat, phase: Phase, last: Option<map<string, Value>>, ghost p: Pass)
      requires WellFormed(d) && QueueKnown(d, start) && completed == p0.steps.Keys && p0.queue == start
      requires Mirrors(p0, start, {}, done0, None) && p0.steps == done0
      modifies this`steps
      ensures p == Turns(d, setting, world, completed, p0, turns) && (life.Dies? ==> turns <= life.turns)
      ensures steps == p.records && phase == p.phase && last == p.last
      ensures p.queue == [] || p.phase != Going || life == Dies(turns)
    {
      hide *;
      var queue, seen, done := start, {}, done0;
      turns, last, phase, p := 0, None, Going, p0;
      TurnsUnfold(d, setting, world, completed, p0, 0);
      MirrorsFields(p0, start, {}, done0, None);
      while queue != [] && life != Dies(turns)
        invariant completed <= done.Keys && QueueKnown(d, queue) && phase == Going
        invariant Mirrors(p, queue, seen, done, last)
        invariant p.queue == queue && p.phase == Going && p.steps == done
        invariant p == Turns(d, setting, world, completed, p0, turns) && (life.Dies? ==> turns <= life.turns)
        decreases Elements(Ids(d.nodes)) - Elements(p.visited), |queue|
      {
        TraverseTurn(d, setting, world, completed, p);
        TurnsStep(d, setting, world, completed, p0, turns);
        turns := turns + 1;
        if queue[0] in seen {
          MirrorsSkip(d, world, completed, queue, seen, done, last, p);
          p := Turn(d, setting, world, completed, p);
          queue := queue[1..];
        } else {
          var u := queue[0];
          phase, queue, done, last, p := VisitNext(d, world, completed, queue, seen, done, last, p);
          seen := seen + {u};
          if phase != Going {
            return;
          }
          MirrorsFields(p, queue, seen, done, last);
        }
      }
      MirrorsFields(p, queue, seen, done, last);
    }

    lemma MirrorsStart(d: Definition)
      requires Executable(d)
      ensures Mirrors(StartPass(d, steps), Starts(d), {}, Completed(steps), None)
    {
    }

    /** Resume from the recorded steps and walk breadth-first. */
    method Walk(d: Definition, world: World, life: Life)
        returns (phase: Phase, last: Option<map<string, Value>>, ghost p: Pass)
      requires Executable(d) && !life.DiesDeciding?
      modifies this`steps
      ensures p == PassUntil(d, setting, world, life, old(steps))
      ensures steps == p.records && phase == p.phase && last == p.last
    {
      hide *;
      ExecutableIs(d);
      var done := LoadCompleted();
      var completed := done.Keys;
      var queue := StartNodes(d);
      ghost var start := StartPass(d, steps);
      PassIs(d, setting, world, life, steps);
      MirrorsStart(d);
      var turns;
      turns, phase, last, p := WalkTurns(d, world, life, completed, queue, done, start);
      if life.Dies? {
        if turns < life.turns {
          TurnsEnd(d, setting, world, completed, start, turns, life.turns);
        }
        phase := Died;
        p := p.(phase := Died);
      } else {
        TurnsTraverse(d, setting, world, completed, start, turns);
      }
    }

    /** One pass, and the status it leaves behind. */
    method Execute(d: Definition, world: World, life: Life)
      requires Executable(d)
      modifies this
      ensures Snapshot() == Executed(d, setting, world, life, old(Snapshot()))
    {
      if life.DiesDeciding? {
        return;
      }
      status := RunRunning;
      ghost var p;
      var phase, last;
      phase, last, p := Walk(d, world, life);
      visited, fired := p.visited, p.fired;
      match phase {
        case Going => status, output, error := RunSuccess, last, None;
        case Parked => status, output, error := RunWaitingApproval, None, None;
        case Broken(err) => status, output, error := RunFailed, None, Some(err);
        case Died =>
      }
    }

    method SettleFirstWaiting(to: StepStatus)
      modifies this`steps
      ensures steps == Settle(old(steps), to)
    {
      for k := 0 to |steps|
        invariant steps == old(steps)
        invariant forall i | 0 <= i < k :: !steps[i].status.WaitingApproval?
      {
        if steps[k].status.WaitingApproval? {
          steps := steps[k := steps[k].(status := to)];
          return;
        }
      }
    }

    /** Approving marks the first waiting step SUCCESS and resumes; rejecting ends the run. */
    method ResumeApproval(d: Definition, approved: bool, decision: map<string, Value>, reason: string, world: World,
                          life: Life)
        returns (ok: bool)
      requires Executable(d)
      modifies this
      ensures ok == (old(status) == RunWaitingApproval)
      ensures Snapshot() == Apply(d, setting, old(Snapshot()),
                                  if approved then Event.Approve(decision, world, life) else Reject(reason, life))
    {
      ok := status == RunWaitingApproval;
      if !ok {
        return;
      }
      if !approved {
        SettleFirstWaiting(Rejected);
        if !life.Full? {
          return;
        }
        status, output, error := RunRejected, None, Some(reason);
        return;
      }
      SettleFirstWaiting(Success(StepData(decision, APPROVAL_MS)));
      Execute(d, world, life);
    }
  }
}
