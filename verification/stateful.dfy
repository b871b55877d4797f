/** Passes and histories whose nodes change what later nodes meet. */
module Stateful {
  import opened Templates
  import opened Schema
  import opened Engine
  import opened Resume
  import opened Uninterrupted
  import opened Refinement

  // --- A pass over nodes that change the world ---

  /** Runs a node in a state of the outside and leaves another one. */
  type Handler<!S> = (S, Node, Value, Value) -> (S, Outcome)

  /** The world as it presents itself in one state. */
  function Facing<S>(h: Handler<S>, s: S): World {
    (node, config, context) => h(s, node, config, context).1
  }

  /** Whether the next turn runs a node, rather than skip one or park at a gate. */
  predicate Runs(d: Definition, completed: set<NodeId>, p: Pass)
    requires p.queue != [] && p.queue[0] in Ids(d.nodes)
  {
    var u := p.queue[0];
    u !in p.visited && u !in completed && NodeOf(d.nodes, u).kind != APPROVAL
  }

  /** What the next turn leaves outside. */
  function After<S>(d: Definition, st: Setting, h: Handler<S>, completed: set<NodeId>, p: Pass, s: S): S
    requires p.queue != [] && p.queue[0] in Ids(d.nodes)
  {
    if Runs(d, completed, p) then
      var node := NodeOf(d.nodes, p.queue[0]);
      var context := Context(st, p.steps);
      h(s, node, Resolve(node.config, context, st.render), context).0
    else s
  }

  /** The traversal for at most `n` turns, each in the state the ones before it left. */
  function TurnsWith<S>(d: Definition, st: Setting, h: Handler<S>, completed: set<NodeId>, p: Pass, s: S,
                        n: nat): (Pass, S)
    requires WellFormed(d) && QueueKnown(d, p.queue) && completed <= p.steps.Keys
    decreases n
  {
    if n == 0 || p.queue == [] || p.phase != Going then (p, s)
    else
      TurnProgress(d, st, Facing(h, s), completed, p);
      TurnsWith(d, st, h, completed, Turn(d, st, Facing(h, s), completed, p), After(d, st, h, completed, p, s), n - 1)
  }

  /** The whole traversal. */
  function TraverseWith<S>(d: Definition, st: Setting, h: Handler<S>, completed: set<NodeId>, p: Pass, s: S): (Pass, S)
    requires WellFormed(d) && QueueKnown(d, p.queue) && completed <= p.steps.Keys
    decreases Elements(Ids(d.nodes)) - Elements(p.visited), |p.queue|
  {
    if p.queue == [] || p.phase != Going then (p, s)
    else
      TurnProgress(d, st, Facing(h, s), completed, p);
      TraverseWith(d, st, h, completed, Turn(d, st, Facing(h, s), completed, p), After(d, st, h, completed, p, s))
  }

  /** What `execute` does over what is recorded so far, as far as the process lives. */
  function PassWith<S>(d: Definition, st: Setting, h: Handler<S>, life: Life, records: seq<StepRecord>, s: S): (Pass, S)
    requires Executable(d)
  {
    StartsKnown(d);
    var completed, start := Completed(records).Keys, StartPass(d, records);
    if life.Dies? then
      var (p, t) := TurnsWith(d, st, h, completed, start, s, life.turns);
      (p.(phase := Died), t)
    else TraverseWith(d, st, h, completed, start, s)
  }

  /** In every state, what succeeds produces what is planned. */
  ghost predicate HandlerFollows<S(!new)>(h: Handler<S>, plan: Plan) {
    forall s :: Follows(Facing(h, s), plan)
  }

  // --- Such a pass is one over some world ---

  /** The two worlds do the same to every node not visited yet. */
  ghost predicate AlikeOff(w: World, w': World, visited: seq<NodeId>) {
    forall node: Node, config, context | node.id !in visited :: w(node, config, context) == w'(node, config, context)
  }

  lemma TurnAlike(d: Definition, st: Setting, w: World, w': World, completed: set<NodeId>, p: Pass)
    requires p.queue != [] && p.queue[0] in Ids(d.nodes) && completed <= p.steps.Keys
    requires AlikeOff(w, w', p.visited)
    ensures Turn(d, st, w, completed, p) == Turn(d, st, w', completed, p)
    ensures p.visited <= Turn(d, st, w, completed, p).visited
  {
    hide Context, Resolve, Fired, Unvisited;
  }

  lemma {:induction false} TurnsAlike(d: Definition, st: Setting, w: World, w': World, completed: set<NodeId>, p: Pass,
                                      n: nat)
    requires WellFormed(d) && QueueKnown(d, p.queue) && completed <= p.steps.Keys
    requires AlikeOff(w, w', p.visited)
    ensures Turns(d, st, w, completed, p, n) == Turns(d, st, w', completed, p, n)
    decreases n
  {
    if n > 0 && p.queue != [] && p.phase == Going {
      TurnProgress(d, st, w, completed, p);
      TurnAlike(d, st, w, w', completed, p);
      TurnsAlike(d, st, w, w', completed, Turn(d, st, w, completed, p), n - 1);
    }
    hide Turn, WellFormed;
  }

  /** Only the node at the head of the queue is asked for. */
  lemma TurnAsksHead(d: Definition, st: Setting, w: World, w': World, completed: set<NodeId>, p: Pass)
    requires p.queue != [] && p.queue[0] in Ids(d.nodes) && completed <= p.steps.Keys
    requires p.queue[0] !in p.visited ==>
               forall node: Node, config, context | node.id == p.queue[0] :: w(node, config, context) == w'(node, config, context)
    ensures Turn(d, st, w, completed, p) == Turn(d, st, w', completed, p)
    ensures Turn(d, st, w, completed, p).visited == if p.queue[0] in p.visited then p.visited else p.visited + [p.queue[0]]
  {
    hide Context, Resolve, Fired, Unvisited;
  }

  /** The world follows every plan that the handler follows. */
  ghost predicate AsPlanned<S(!new)>(h: Handler<S>, w: World) {
    forall plan | HandlerFollows(h, plan) :: Follows(w, plan)
  }

  lemma FacingAsPlanned<S(!new)>(h: Handler<S>, s: S)
    ensures AsPlanned(h, Facing(h, s))
  {
  }

  /** One node of the first world, all others of the second. */
  function Spliced(u: NodeId, now: World, rest: World): World {
    (node: Node, config, context) => if node.id == u then now(node, config, context) else rest(node, config, context)
  }

  lemma SplicedAsPlanned<S(!new)>(h: Handler<S>, u: NodeId, now: World, rest: World)
    requires AsPlanned(h, now) && AsPlanned(h, rest)
    ensures AsPlanned(h, Spliced(u, now, rest))
  {
    forall plan | HandlerFollows(h, plan) ensures Follows(Spliced(u, now, rest), plan) {
      assert Follows(now, plan) && Follows(rest, plan);
    }
  }

  lemma UnfoldTurns<S>(d: Definition, st: Setting, h: Handler<S>, completed: set<NodeId>, p: Pass, s: S, n: nat)
    requires WellFormed(d) && QueueKnown(d, p.queue) && completed <= p.steps.Keys
    ensures n == 0 || p.queue == [] || p.phase != Going ==> TurnsWith(d, st, h, completed, p, s, n) == (p, s)
    ensures n > 0 && p.queue != [] && p.phase == Going ==>
              p.queue[0] in Ids(d.nodes)
              && var q := Turn(d, st, Facing(h, s), completed, p);
              QueueKnown(d, q.queue) && completed <= q.steps.Keys
              && TurnsWith(d, st, h, completed, p, s, n) ==
                 TurnsWith(d, st, h, completed, q, After(d, st, h, completed, p, s), n - 1)
  {
    if n > 0 && p.queue != [] && p.phase == Going {
      TurnProgress(d, st, Facing(h, s), completed, p);
    }
    hide Turn, After, WellFormed;
  }

  lemma SplicedAgrees(u: NodeId, now: World, rest: World, visited: seq<NodeId>)
    ensures forall node: Node, config, context | node.id == u ::
              now(node, config, context) == Spliced(u, now, rest)(node, config, context)
    ensures AlikeOff(rest, rest, visited) && AlikeOff(rest, Spliced(u, now, rest), visited + [u])
  {
  }

  /** A node is run at most once, so the world can be read off the pass. */
  lemma {:induction false} StatefulTurnsAreTurns<S(!new)>(d: Definition, st: Setting, h: Handler<S>, completed: set<NodeId>,
                                                          p: Pass, s: S, n: nat)
      returns (w: World)
    requires WellFormed(d) && QueueKnown(d, p.queue) && completed <= p.steps.Keys
    ensures Turns(d, st, w, completed, p, n) == TurnsWith(d, st, h, completed, p, s, n).0
    ensures AsPlanned(h, w)
    decreases n
  {
    hide *;
    w := Facing(h, s);
    FacingAsPlanned(h, s);
    TurnsUnfold(d, st, w, completed, p, n);
    UnfoldTurns(d, st, h, completed, p, s, n);
    if n > 0 && p.queue != [] && p.phase == Going {
      var u, now := p.queue[0], w;
      var q := Turn(d, st, now, completed, p);
      var rest := StatefulTurnsAreTurns(d, st, h, completed, q, After(d, st, h, completed, p, s), n - 1);
      w := if u in p.visited then rest else Spliced(u, now, rest);
      SplicedAsPlanned(h, u, now, rest);
      SplicedAgrees(u, now, rest, p.visited);
      TurnAsksHead(d, st, now, w, completed, p);
      TurnsAlike(d, st, rest, w, completed, q, n - 1);
      TurnsUnfold(d, st, w, completed, p, n);
    }
  }

  /** Enough turns are the whole traversal. */
  lemma {:induction false} EnoughTurns<S>(d: Definition, st: Setting, h: Handler<S>, completed: set<NodeId>, p: Pass, s: S)
      returns (n: nat)
    requires WellFormed(d) && QueueKnown(d, p.queue) && completed <= p.steps.Keys
    ensures TurnsWith(d, st, h, completed, p, s, n) == TraverseWith(d, st, h, completed, p, s)
    ensures var q := TraverseWith(d, st, h, completed, p, s).0; q.queue == [] || q.phase != Going
    decreases Elements(Ids(d.nodes)) - Elements(p.visited), |p.queue|
  {
    n := 0;
    if p.queue != [] && p.phase == Going {
      TurnProgress(d, st, Facing(h, s), completed, p);
      var q, t := Turn(d, st, Facing(h, s), completed, p), After(d, st, h, completed, p, s);
      var m := EnoughTurns(d, st, h, completed, q, t);
      n := m + 1;
      hide Turn, After, WellFormed, Facing;
      UnfoldTurns(d, st, h, completed, p, s, n);
    }
  }

  /** However long the process lives, a pass over nodes that change the outside is one over some
      world that stays the same, and that follows every plan the nodes follow. */
  lemma StatefulPassIsAPass<S(!new)>(d: Definition, st: Setting, h: Handler<S>, life: Life, records: seq<StepRecord>, s: S)
      returns (w: World)
    requires Executable(d)
    ensures PassUntil(d, st, w, life, records) == PassWith(d, st, h, life, records, s).0
    ensures AsPlanned(h, w)
  {
    PassIs(d, st, Facing(h, s), life, records);
    var start, completed := StartPass(d, records), Completed(records).Keys;
    hide Turns, Traverse, TurnsWith, TraverseWith, PassUntil, AsPlanned, StartPass, Completed, Executable;
    var n := if life.Dies? then life.turns else 0;
    if !life.Dies? {
      n := EnoughTurns(d, st, h, completed, start, s);
    }
    w := StatefulTurnsAreTurns(d, st, h, completed, start, s, n);
    PassIs(d, st, w, life, records);
    if !life.Dies? {
      TurnsTraverse(d, st, w, completed, start, n);
    }
  }

  // --- Histories ---

  /** What is asked of the engine, whatever the outside is like by then. */
  datatype Call =
    | ExecuteRun(life: Life)
    | ApproveRun(decision: map<string, Value>, life: Life)
    | RejectRun(reason: string, life: Life)

  function EventOf(call: Call, w: World): Event {
    match call
    case ExecuteRun(life) => Execute(w, life)
    case ApproveRun(decision, life) => Approve(decision, w, life)
    case RejectRun(reason, life) => Reject(reason, life)
  }

  function ExecutedWith<S>(d: Definition, st: Setting, h: Handler<S>, life: Life, run: Run, s: S): (Run, S)
    requires Executable(d)
  {
    if life.DiesDeciding? then (run, s)
    else
      var (p, t) := PassWith(d, st, h, life, run.steps, s);
      (Conclude(run, p), t)
  }

  function ApplyWith<S>(d: Definition, st: Setting, h: Handler<S>, run: Run, call: Call, s: S): (Run, S)
    requires Executable(d)
  {
    match call
    case ExecuteRun(life) => ExecutedWith(d, st, h, life, run, s)
    case ApproveRun(decision, life) =>
      if run.status != RunWaitingApproval then (run, s)
      else ExecutedWith(d, st, h, life, run.(steps := Settle(run.steps, Success(StepData(decision, APPROVAL_MS)))), s)
    case RejectRun(reason, life) => (Apply(d, st, run, Reject(reason, life)), s)
  }

  /** The run and the outside after any calls. */
  function HistoryWith<S>(d: Definition, st: Setting, h: Handler<S>, calls: seq<Call>, s: S): (Run, S)
    requires Executable(d)
  {
    if calls == [] then (NEW_RUN, s)
    else
      var (run, t) := HistoryWith(d, st, h, calls[..|calls| - 1], s);
      ApplyWith(d, st, h, run, calls[|calls| - 1], t)
  }

  lemma ExecutedWithIsExecuted<S(!new)>(d: Definition, st: Setting, h: Handler<S>, life: Life, run: Run, s: S)
      returns (w: World)
    requires Executable(d)
    ensures Executed(d, st, w, life, run) == ExecutedWith(d, st, h, life, run, s).0
    ensures AsPlanned(h, w)
  {
    hide PassUntil, PassWith, AsPlanned, Executable;
    w := StatefulPassIsAPass(d, st, h, life, run.steps, s);
  }

  lemma ApplyWithIsApply<S(!new)>(d: Definition, st: Setting, h: Handler<S>, run: Run, call: Call, s: S) returns (w: World)
    requires Executable(d)
    ensures Apply(d, st, run, EventOf(call, w)) == ApplyWith(d, st, h, run, call, s).0
    ensures AsPlanned(h, w)
  {
    hide Executed, ExecutedWith, AsPlanned, Executable, Settle;
    var start := match call
      case ApproveRun(decision, _) => run.(steps := Settle(run.steps, Success(StepData(decision, APPROVAL_MS))))
      case _ => run;
    w := ExecutedWithIsExecuted(d, st, h, call.life, start, s);
  }

  /** A history over an outside that changes is a history of events, each with a world of its own. */
  ghost predicate Played<S(!new)>(d: Definition, st: Setting, h: Handler<S>, calls: seq<Call>, s: S, events: seq<Event>)
    requires Executable(d)
  {
    && |events| == |calls|
    && (forall i | 0 <= i < |calls| :: exists w: World :: events[i] == EventOf(calls[i], w) && AsPlanned(h, w))
    && forall i | 0 <= i <= |calls| :: History(d, st, events[..i]) == HistoryWith(d, st, h, calls[..i], s).0
  }

  lemma OneMoreCall<S>(d: Definition, st: Setting, h: Handler<S>, calls: seq<Call>, call: Call, s: S)
    requires Executable(d)
    ensures var (run, t) := HistoryWith(d, st, h, calls, s);
            HistoryWith(d, st, h, calls + [call], s) == ApplyWith(d, st, h, run, call, t)
  {
    hide ApplyWith, Executable;
    assert (calls + [call])[..|calls|] == calls;
  }

  lemma OneMorePlayed<S(!new)>(d: Definition, st: Setting, h: Handler<S>, calls: seq<Call>, call: Call, s: S,
                               events: seq<Event>, w: World)
    requires Executable(d) && Played(d, st, h, calls, s, events) && AsPlanned(h, w)
    requires History(d, st, events + [EventOf(call, w)]) == HistoryWith(d, st, h, calls + [call], s).0
    ensures Played(d, st, h, calls + [call], s, events + [EventOf(call, w)])
  {
    hide Executable, AsPlanned, EventOf, History, HistoryWith;
    var n, longer, more := |calls|, calls + [call], events + [EventOf(call, w)];
    assert longer[..n + 1] == longer && more[..n + 1] == more;
    forall i | 0 <= i <= n ensures longer[..i] == calls[..i] && more[..i] == events[..i] {
    }
  }

  lemma NothingPlayed<S(!new)>(d: Definition, st: Setting, h: Handler<S>, s: S)
    requires Executable(d)
    ensures Played(d, st, h, [], s, [])
  {
  }

  lemma PlayedWhole<S(!new)>(d: Definition, st: Setting, h: Handler<S>, calls: seq<Call>, s: S, events: seq<Event>)
    requires Executable(d) && Played(d, st, h, calls, s, events)
    ensures History(d, st, events) == HistoryWith(d, st, h, calls, s).0
  {
    hide AsPlanned, EventOf, History, HistoryWith;
    assert calls[..|calls|] == calls && events[..|calls|] == events;
  }

  lemma {:induction false} StatefulHistoryIsAHistory<S(!new)>(d: Definition, st: Setting, h: Handler<S>, calls: seq<Call>, s: S)
      returns (events: seq<Event>)
    requires Executable(d)
    ensures Played(d, st, h, calls, s, events)
  {
    hide *;
    if calls == [] {
      events := [];
      NothingPlayed(d, st, h, s);
    } else {
      var n := |calls| - 1;
      var front := StatefulHistoryIsAHistory(d, st, h, calls[..n], s);
      PlayedWhole(d, st, h, calls[..n], s, front);
      var (run, t) := HistoryWith(d, st, h, calls[..n], s);
      var w := ApplyWithIsApply(d, st, h, run, calls[n], t);
      events := front + [EventOf(calls[n], w)];
      assert calls == calls[..n] + [calls[n]];
      OneMoreEvent(d, st, front, EventOf(calls[n], w));
      OneMoreCall(d, st, h, calls[..n], calls[n], s);
      OneMorePlayed(d, st, h, calls[..n], calls[n], s, front, w);
    }
  }

  /** No gate gets a second, different decision. */
  ghost predicate CallConsistent(run: Run, call: Call) {
    call.ApproveRun? && run.status == RunWaitingApproval ==>
      var i := FirstWaiting(run.steps);
      i < |run.steps| && run.steps[i].nodeId in Completed(run.steps) ==>
        Completed(run.steps)[run.steps[i].nodeId] == StepData(call.decision, APPROVAL_MS)
  }

  lemma PlayedConsistent<S(!new)>(d: Definition, st: Setting, h: Handler<S>, plan: Plan, calls: seq<Call>, s: S,
                                  events: seq<Event>)
    requires Executable(d) && HandlerFollows(h, plan) && Played(d, st, h, calls, s, events)
    requires forall i | 0 <= i < |calls| :: CallConsistent(HistoryWith(d, st, h, calls[..i], s).0, calls[i])
    ensures HistoryConsistent(d, st, plan, events)
  {
    hide Executable, History, HistoryWith, Completed, FirstWaiting, HandlerFollows, Follows;
    forall i | 0 <= i < |events| ensures EventConsistent(History(d, st, events[..i]), plan, events[i]) {
      var w: World :| events[i] == EventOf(calls[i], w) && AsPlanned(h, w);
      assert CallConsistent(HistoryWith(d, st, h, calls[..i], s).0, calls[i]);
      assert Follows(w, plan);
    }
  }

  /** Any chain of interrupted passes over nodes that change what later nodes meet (breakers,
      retries, quotas), if it ends in SUCCESS and what succeeds is as planned, is one pass that never
      stops under the decisions it recorded. */
  lemma StatefulHistoriesRefine<S(!new)>(d: Definition, st: Setting, h: Handler<S>, plan: Plan, calls: seq<Call>, s: S)
    requires Executable(d) && HandlerFollows(h, plan)
    requires forall i | 0 <= i < |calls| :: CallConsistent(HistoryWith(d, st, h, calls[..i], s).0, calls[i])
    requires Stable(d, st, WithDecisions(plan, HistoryWith(d, st, h, calls, s).0))
    requires HistoryWith(d, st, h, calls, s).0.status == RunSuccess
    ensures var run := HistoryWith(d, st, h, calls, s).0;
            var r := IdealRun(d, st, WithDecisions(plan, run));
            && run.visited == r.visited && run.fired == r.fired
            && Completed(run.steps) == r.steps
            && r.visited != [] && r.visited[|r.visited| - 1] in r.steps
            && run.output == Some(r.steps[r.visited[|r.visited| - 1]].output)
  {
    hide *;
    var events := StatefulHistoryIsAHistory(d, st, h, calls, s);
    PlayedConsistent(d, st, h, plan, calls, s, events);
    PlayedWhole(d, st, h, calls, s, events);
    ResumeRefinesUnderItsDecisions(d, st, plan, events);
  }
}
