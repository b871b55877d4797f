/** The command protocol as a whole: server, agent, buffer and a network that may delay, lose
    or repeat requests, lose responses, and outlive agent crashes. */
module Protocol {
  import opened Schema
  import opened Commands
  import opened Agent

  /** The X-Tenant-ID header: missing, the agent's own tenant, or another one. */
  datatype Header = Absent | Matching | Foreign

  datatype Request = Request(o: Outcome, header: Header)

  /** What the body limits make of a request: too many bytes, or nested too deeply. */
  datatype BodyVerdict = Fits | TooLarge | TooDeep

  /** `open` is a development or test server, which accepts requests without the header;
      `header` is what the agent sends when polling and reporting. `front` has the codes with
      which layers before the endpoint may turn away any request: 429 when the rate limiter is
      on. `body` is the verdict of the body limits, which look at the request alone. */
  datatype Setting = Setting(me: string, open: bool, header: Header, front: set<int>, body: Request -> BodyVerdict)

  datatype Reply = Reply(request: Request, code: int)

  datatype Mode =
    | Idle
    | Working(todo: seq<string>)
    | Reporting(o: Outcome, todo: seq<string>)
    | Draining(left: seq<Event>, done: seq<nat>)

  /** The last four fields are the history the properties are about: what was executed, what
      came of it, which results the agent saw acknowledged, and which it lost. Requests and
      replies stay in the network for ever, so each may arrive late and more than once. */
  datatype System = System(
    table: Table, inFlight: map<nat, seq<string>>, mode: Mode, store: Buffer.Store<Payload>,
    requests: set<Request>, replies: set<Reply>,
    executed: seq<string>, produced: map<string, Outcome>, acked: set<string>, lost: set<string>)

  const BOOT := System(Table([], map[]), map[], Idle, Buffer.Store([], 1), {}, {}, [], map[], {}, {})

  // --- The server's answers ---

  function Refusal(st: Setting, header: Header): Option<int> {
    if header == Absent && !st.open then Some(401)
    else if header == Foreign then Some(403)
    else None
  }

  /** The refusal a request meets for certain: its body is looked at before its header. */
  function Refused(st: Setting, r: Request): Option<int> {
    match st.body(r)
    case TooLarge => Some(413)
    case TooDeep => Some(400)
    case Fits => Refusal(st, r.header)
  }

  /** A code below 500 with which the request may be answered without being recorded. */
  predicate MayDrop(st: Setting, r: Request, code: int) {
    (400 <= code <= 499 && code in st.front) || Refused(st, r) == Some(code)
  }

  function Answer(st: Setting, t: Table, r: Request): (int, Table) {
    var refusal := Refused(st, r);
    if refusal.Some? then (refusal.value, t)
    else if r.o.id !in t.rows then (404, t)
    else (200, WithOutcome(t, r.o))
  }

  /** What the endpoint answers, and that only a 200 changes the table. The body comes first, then the
      header, then the command id; the row keeps its agent and takes status and body of the result. */
  lemma AnswerExactly(st: Setting, t: Table, r: Request)
    ensures var (code, t') := Answer(st, t, r);
            && (code == 413 <==> st.body(r) == TooLarge)
            && (code == 400 <==> st.body(r) == TooDeep)
            && (code == 401 <==> st.body(r) == Fits && r.header == Absent && !st.open)
            && (code == 403 <==> st.body(r) == Fits && r.header == Foreign)
            && (code == 404 || code == 200 <==> st.body(r) == Fits && (r.header == Absent ==> st.open) && r.header != Foreign)
            && (code == 404 ==> r.o.id !in t.rows) && (code == 200 ==> r.o.id in t.rows)
            && (code != 200 ==> t' == t)
            && (code == 200 ==>
                  && t'.order == t.order && t'.rows.Keys == t.rows.Keys
                  && t'.rows[r.o.id] == Row(t.rows[r.o.id].agentId, r.o.status, Some(r.o.body))
                  && forall id | id in t.rows && id != r.o.id :: t'.rows[id] == t.rows[id])
  {
  }

  // --- Steps ---

  datatype Action =
    | Create(id: string, agentId: string)
    | Poll(key: nat)
    | LoseResponse(key: nat)
    | Receive(key: nat)
    | Execute(o: Outcome)
    | Send
    | Serve(request: Request)
    | TurnAway(request: Request, code: int)
    | Fail(request: Request, recorded: bool, code: int)
    | Acknowledge(code: int)
    | GiveUp(written: bool)
    | StartDrain
    | SendBuffered
    | AcknowledgeBuffered(code: int)
    | SkipBuffered
    | DropHeartbeat
    | EndDrain(deletable: bool)
    | BufferHeartbeat(written: bool)
    | Crash

  function Then(todo: seq<string>): Mode {
    if todo == [] then Idle else Working(todo)
  }

  /** The drain stands before a result it can send. */
  predicate AtResult(m: Mode) {
    m.Draining? && m.left != [] && m.left[0].payload.ResultOf? && m.left[0].payload.o.id != ""
  }

  function Step(st: Setting, s: System, a: Action): System {
    match a
    case Create(id, agentId) =>
      if id in s.table.rows then s else s.(table := WithCommand(s.table, id, agentId))
    case Poll(key) =>
      if key in s.inFlight || Refusal(st, st.header).Some? then s
      else
        var ids := Pending(s.table, st.me, POLL_LIMIT);
        s.(table := AllDispatched(s.table, ids), inFlight := s.inFlight[key := ids])
    case LoseResponse(key) => s.(inFlight := s.inFlight - {key})
    case Receive(key) =>
      if s.mode == Idle && key in s.inFlight
      then s.(mode := Then(s.inFlight[key]), inFlight := s.inFlight - {key}) else s
    case Execute(o) =>
      if s.mode.Working? && s.mode.todo != [] && o.id == s.mode.todo[0] && ByAgent(o)
      then s.(mode := Reporting(o, s.mode.todo[1..]), executed := s.executed + [o.id], produced := s.produced[o.id := o])
      else s
    case Send =>
      if s.mode.Reporting? then s.(requests := s.requests + {Request(s.mode.o, st.header)}) else s
    case Serve(r) =>
      if r in s.requests then
        var (code, table) := Answer(st, s.table, r);
        s.(table := table, replies := s.replies + {Reply(r, code)})
      else s
    case TurnAway(r, code) =>
      if r in s.requests && 400 <= code <= 499 && code in st.front
      then s.(replies := s.replies + {Reply(r, code)}) else s
    case Fail(r, recorded, code) =>
      if r in s.requests && code >= 500
      then s.(table := if recorded then Answer(st, s.table, r).1 else s.table, replies := s.replies + {Reply(r, code)})
      else s
    case Acknowledge(code) =>
      if s.mode.Reporting? && Reply(Request(s.mode.o, st.header), code) in s.replies && Acknowledged(Some(code))
      then s.(mode := Then(s.mode.todo), acked := s.acked + {s.mode.o.id}) else s
    case GiveUp(written) =>
      if s.mode.Reporting?
      then s.(mode := Then(s.mode.todo), store := Reported(s.store, s.mode.o, None, written),
              lost := if written then s.lost else s.lost + {s.mode.o.id})
      else s
    case StartDrain =>
      if s.mode == Idle then s.(mode := Draining(Buffer.Peeked(s.store, DRAIN_LIMIT), [])) else s
    case SendBuffered =>
      if AtResult(s.mode) then s.(requests := s.requests + {Request(s.mode.left[0].payload.o, Absent)}) else s
    case AcknowledgeBuffered(code) =>
      if AtResult(s.mode) && Reply(Request(s.mode.left[0].payload.o, Absent), code) in s.replies && Acknowledged(Some(code))
      then s.(mode := Draining(s.mode.left[1..], s.mode.done + [s.mode.left[0].id]),
              acked := s.acked + {s.mode.left[0].payload.o.id})
      else s
    case SkipBuffered =>
      if s.mode.Draining? && s.mode.left != [] && s.mode.left[0].payload.ResultOf?
      then s.(mode := Draining(s.mode.left[1..], s.mode.done)) else s
    case DropHeartbeat =>
      if s.mode.Draining? && s.mode.left != [] && s.mode.left[0].payload.Heartbeat?
      then s.(mode := Draining(s.mode.left[1..], s.mode.done + [s.mode.left[0].id])) else s
    case EndDrain(deletable) =>
      if s.mode.Draining? && s.mode.left == []
      then s.(mode := Idle, store := if deletable then Buffer.Deleted(s.store, s.mode.done) else s.store) else s
    case BufferHeartbeat(written) =>
      if s.mode == Idle && written then s.(store := Buffer.Enqueued(s.store, Heartbeat)) else s
    case Crash =>
      s.(mode := Idle, lost := if s.mode.Reporting? then s.lost + {s.mode.o.id} else s.lost)
  }

  /** The steps the server takes other than answering a poll. */
  predicate ByServer(a: Action) {
    a.Create? || a.Serve? || a.TurnAway? || a.Fail?
  }

  /** The system after any sequence of steps; a step that is not possible changes nothing. */
  function After(st: Setting, actions: seq<Action>): System {
    if actions == [] then BOOT
    else Step(st, After(st, actions[..|actions| - 1]), actions[|actions| - 1])
  }

  // --- A command is in one place at a time ---

  function Todo(m: Mode): seq<string> {
    match m
    case Working(todo) => todo
    case Reporting(_, todo) => todo
    case _ => []
  }

  /** Handed out by a poll at some time. */
  ghost predicate HandedOut(s: System, id: string) {
    id in s.table.rows && !s.table.rows[id].status.Queued?
  }

  ghost predicate FlightsDisjoint(f: map<nat, seq<string>>) {
    forall k, i, k', i' | k in f && k' in f && 0 <= i < |f[k]| && 0 <= i' < |f[k']| && f[k][i] == f[k'][i'] ::
      k == k' && i == i'
  }

  ghost predicate InFlight(f: map<nat, seq<string>>, id: string) {
    exists k :: k in f && id in f[k]
  }

  ghost predicate OnePlace(s: System) {
    && WellFormedTable(s.table)
    && FlightsDisjoint(s.inFlight)
    && NoDuplicates(Todo(s.mode)) && NoDuplicates(s.executed)
    && (forall id :: InFlight(s.inFlight, id) ==> HandedOut(s, id) && id !in Todo(s.mode) && id !in s.executed)
    && (forall id | id in Todo(s.mode) :: HandedOut(s, id) && id !in s.executed)
    && forall id | id in s.executed :: HandedOut(s, id)
  }

  // --- Every copy of a result is the result that was produced ---

  ghost predicate Genuine(s: System, o: Outcome) {
    o.id in s.produced && s.produced[o.id] == o
  }

  ghost predicate Recorded(t: Table, o: Outcome) {
    o.id in t.rows && t.rows[o.id].status == o.status && t.rows[o.id].body == Some(o.body)
  }

  /** A row is still waiting for a result, or holds the one produced. */
  ghost predicate RowGenuine(s: System, id: string)
    requires id in s.table.rows
  {
    var row := s.table.rows[id];
    if row.body.None? then row.status.Queued? || row.status.Dispatched? else Genuine(s, Outcome(id, row.status, row.body.value))
  }

  ghost predicate AgentTruthful(s: System) {
    && (forall id :: id in s.produced <==> id in s.executed)
    && (forall id | id in s.produced :: s.produced[id].id == id && ByAgent(s.produced[id]))
    && (forall r | r in s.requests :: Genuine(s, r.o))
    && (forall e | e in s.store.rows && e.payload.ResultOf? :: Genuine(s, e.payload.o))
    && (s.mode.Reporting? ==> Genuine(s, s.mode.o))
    && (s.mode.Draining? ==> forall e | e in s.mode.left :: e in s.store.rows)
  }

  ghost predicate ServerTruthful(s: System) {
    && (forall id | id in s.table.rows :: RowGenuine(s, id))
    && forall r | r in s.replies && r.code == 200 :: Recorded(s.table, r.request.o)
  }

  ghost predicate Truthful(s: System) {
    AgentTruthful(s) && ServerTruthful(s)
  }

  // --- No result goes missing unnoticed ---

  ghost predicate Buffered(s: System, id: string) {
    exists e :: e in s.store.rows && e.payload.ResultOf? && e.payload.o.id == id
  }

  ghost predicate InHand(s: System, id: string) {
    s.mode.Reporting? && s.mode.o.id == id
  }

  ghost predicate Accounted(s: System) {
    && Buffer.Increasing(s.store)
    && (s.mode.Draining? ==>
          forall e | e in s.store.rows && e.id in s.mode.done && e.payload.ResultOf? :: e.payload.o.id in s.acked)
    && (forall id | id in s.produced :: InHand(s, id) || Buffered(s, id) || id in s.acked || id in s.lost)
    && (forall id | id in s.acked :: id in s.produced)
  }

  ghost predicate Sound(s: System) {
    OnePlace(s) && Truthful(s) && Accounted(s)
  }

  lemma SameFlight(f: map<nat, seq<string>>, k: nat, k': nat, id: string)
    requires FlightsDisjoint(f) && k in f && k' in f && id in f[k] && id in f[k']
    ensures k == k'
  {
    var i :| 0 <= i < |f[k]| && f[k][i] == id;
    var j :| 0 <= j < |f[k']| && f[k'][j] == id;
  }

  lemma FewerInFlight(f: map<nat, seq<string>>, key: nat)
    requires FlightsDisjoint(f)
    ensures FlightsDisjoint(f - {key})
    ensures forall id :: InFlight(f - {key}, id) ==> InFlight(f, id)
    ensures key in f ==> NoDuplicates(f[key])
    ensures key in f ==> forall id | id in f[key] :: InFlight(f, id) && !InFlight(f - {key}, id)
  {
    var g := f - {key};
    forall id ensures InFlight(g, id) ==> InFlight(f, id) {
      if InFlight(g, id) {
        var k :| k in g && id in g[k];
        assert k in f && f[k] == g[k];
      }
    }
    if key in f {
      forall id, k | id in f[key] && k in f && id in f[k] ensures k == key {
        SameFlight(f, key, k, id);
      }
    }
  }

  lemma MoreInFlight(f: map<nat, seq<string>>, key: nat, ids: seq<string>)
    requires FlightsDisjoint(f) && key !in f && NoDuplicates(ids) && forall id | id in ids :: !InFlight(f, id)
    ensures FlightsDisjoint(f[key := ids])
    ensures forall id :: InFlight(f[key := ids], id) <==> InFlight(f, id) || id in ids
  {
    var g := f[key := ids];
    assert forall k, i | k in f && 0 <= i < |f[k]| :: InFlight(f, f[k][i]);
    forall id ensures InFlight(g, id) <==> InFlight(f, id) || id in ids {
      if InFlight(f, id) {
        var k :| k in f && id in f[k];
        assert k in g && id in g[k];
      }
      if id in ids {
        assert key in g && id in g[key];
      }
    }
  }

  /** The server may change rows as long as what was handed out stays so. */
  lemma NewTable(s: System, s': System)
    requires OnePlace(s) && WellFormedTable(s'.table) && forall id | HandedOut(s, id) :: HandedOut(s', id)
    requires s' == s.(table := s'.table, replies := s'.replies)
    ensures OnePlace(s')
  {
    hide WellFormedTable, HandedOut, InFlight, FlightsDisjoint;
  }

  lemma PollHandsOut(st: Setting, s: System, key: nat, s': System)
    requires WellFormedTable(s.table) && key !in s.inFlight && Refusal(st, st.header).None?
    requires s' == Step(st, s, Poll(key))
    ensures WellFormedTable(s'.table) && NoDuplicates(s'.inFlight[key])
    ensures s'.inFlight == s.inFlight[key := s'.inFlight[key]] && s' == s.(table := s'.table, inFlight := s'.inFlight)
    ensures forall id | id in s'.inFlight[key] :: !HandedOut(s, id) && HandedOut(s', id)
    ensures forall id | HandedOut(s', id) && !HandedOut(s, id) :: id in s'.inFlight[key]
    ensures forall id | HandedOut(s, id) :: HandedOut(s', id) && s'.table.rows[id] == s.table.rows[id]
    ensures s'.table.rows.Keys == s.table.rows.Keys
    ensures forall id | id in s.table.rows ::
              s'.table.rows[id] == s.table.rows[id]
              || (s.table.rows[id].status.Queued? && s'.table.rows[id] == s.table.rows[id].(status := Dispatched))
  {
    PollHandsOutOnce(s.table, st.me);
    hide Pending, AllDispatched, NoDuplicates, WellFormedTable;
  }

  lemma PollKeepsOnePlace(st: Setting, s: System, key: nat)
    requires OnePlace(s)
    ensures OnePlace(Step(st, s, Poll(key)))
  {
    if key !in s.inFlight && Refusal(st, st.header).None? {
      var s' := Step(st, s, Poll(key));
      PollHandsOut(st, s, key, s');
      hide Step, InFlight, FlightsDisjoint, WellFormedTable, HandedOut, NoDuplicates;
      MoreInFlight(s.inFlight, key, s'.inFlight[key]);
    }
  }

  lemma ReceiveKeepsOnePlace(st: Setting, s: System, key: nat)
    requires OnePlace(s)
    ensures OnePlace(Step(st, s, Receive(key))) && OnePlace(Step(st, s, LoseResponse(key)))
  {
    FewerInFlight(s.inFlight, key);
    hide InFlight, FlightsDisjoint, WellFormedTable, HandedOut;
    if key !in s.inFlight {
      assert s.inFlight - {key} == s.inFlight;
    }
  }

  /** What the server does to its table: nothing, one more row, or the result of a known command. */
  lemma ServerEffect(st: Setting, s: System, a: Action)
    requires ByServer(a)
    ensures var s' := Step(st, s, a);
            && s' == s.(table := s'.table, replies := s'.replies)
            && (|| s'.table == s.table
                || (a.Create? && a.id !in s.table.rows && s'.table == WithCommand(s.table, a.id, a.agentId))
                || (!a.Create? && a.request in s.requests && Refused(st, a.request).None?
                    && a.request.o.id in s.table.rows && s'.table == WithOutcome(s.table, a.request.o)))
            && forall r | r in s'.replies && r.code == 200 ::
                 r in s.replies || (!a.Create? && r.request == a.request && a.request.o.id in s.table.rows
                                    && s'.table == WithOutcome(s.table, a.request.o))
  {
    hide WithCommand, WithOutcome;
  }

  lemma ServerKeepsHandedOut(st: Setting, s: System, a: Action)
    requires WellFormedTable(s.table) && ByServer(a)
    requires forall r | r in s.requests :: ByAgent(r.o)
    ensures var s' := Step(st, s, a);
            && WellFormedTable(s'.table) && (forall id | HandedOut(s, id) :: HandedOut(s', id))
            && s' == s.(table := s'.table, replies := s'.replies)
  {
    ServerEffect(st, s, a);
    hide Step;
  }

  lemma ServerKeepsOnePlace(st: Setting, s: System, a: Action)
    requires Sound(s) && ByServer(a)
    ensures OnePlace(Step(st, s, a))
  {
    assert forall r | r in s.requests :: Genuine(s, r.o);
    hide Step, WellFormedTable, HandedOut, InFlight, FlightsDisjoint;
    ServerKeepsHandedOut(st, s, a);
    NewTable(s, Step(st, s, a));
  }

  lemma ExecuteKeepsOnePlace(st: Setting, s: System, o: Outcome)
    requires OnePlace(s)
    ensures OnePlace(Step(st, s, Execute(o)))
  {
    hide InFlight, FlightsDisjoint, WellFormedTable, ByAgent;
    var s' := Step(st, s, Execute(o));
    if s' != s {
      var todo := s.mode.todo;
      assert forall i | 1 <= i < |todo| :: todo[i] != todo[0];
      assert forall id :: HandedOut(s', id) == HandedOut(s, id);
      hide HandedOut;
      assert forall id | id in s.executed :: id in s'.executed && id != o.id;
      assert todo[0] in todo;
    }
  }

  lemma AgentEffect(st: Setting, s: System, a: Action)
    requires !(ByServer(a) || a.Poll? || a.LoseResponse? || a.Receive? || a.Execute?)
    ensures var s' := Step(st, s, a);
            && s'.table == s.table && s'.inFlight == s.inFlight && s'.executed == s.executed
            && (Todo(s'.mode) == Todo(s.mode) || Todo(s'.mode) == [])
  {
    hide Buffer.Enqueued, Buffer.Deleted, Buffer.Peeked, Reported;
  }

  lemma AgentKeepsOnePlace(st: Setting, s: System, a: Action)
    requires OnePlace(s) && !(ByServer(a) || a.Poll? || a.LoseResponse? || a.Receive? || a.Execute?)
    ensures OnePlace(Step(st, s, a))
  {
    var s' := Step(st, s, a);
    AgentEffect(st, s, a);
    hide Step, InFlight, FlightsDisjoint, WellFormedTable;
    assert forall id :: HandedOut(s', id) == HandedOut(s, id);
  }

  lemma OnePlaceKept(st: Setting, s: System, a: Action)
    requires Sound(s)
    ensures OnePlace(Step(st, s, a))
  {
    if a.Poll? {
      PollKeepsOnePlace(st, s, a.key);
    } else if a.LoseResponse? || a.Receive? {
      ReceiveKeepsOnePlace(st, s, a.key);
    } else if ByServer(a) {
      ServerKeepsOnePlace(st, s, a);
    } else if a.Execute? {
      ExecuteKeepsOnePlace(st, s, a.o);
    } else {
      AgentKeepsOnePlace(st, s, a);
    }
  }

  lemma SameProduced(s: System, s': System)
    requires s'.produced == s.produced
    ensures forall o :: Genuine(s', o) == Genuine(s, o)
  {
  }

  lemma SameServer(s: System, s': System)
    requires ServerTruthful(s) && s'.produced == s.produced && s'.table == s.table && s'.replies == s.replies
    ensures ServerTruthful(s')
  {
    forall id | id in s'.table.rows ensures RowGenuine(s', id) {
      assert RowGenuine(s, id);
    }
  }

  lemma SameAgent(s: System, s': System)
    requires AgentTruthful(s) && s'.produced == s.produced && s'.executed == s.executed
    requires s'.requests == s.requests && s'.store == s.store && s'.mode == s.mode
    ensures AgentTruthful(s')
  {
    SameProduced(s, s');
    hide Genuine;
  }

  /** A row that has its result is no longer waiting. */
  lemma ResultMeansReported(s: System, id: string)
    requires Truthful(s) && id in s.table.rows && s.table.rows[id].body.Some?
    ensures !s.table.rows[id].status.Queued? && !s.table.rows[id].status.Dispatched?
  {
    assert RowGenuine(s, id);
  }

  lemma PollKeepsTruthful(st: Setting, s: System, key: nat)
    requires Sound(s)
    ensures Truthful(Step(st, s, Poll(key)))
  {
    if key !in s.inFlight && Refusal(st, st.header).None? {
      var s' := Step(st, s, Poll(key));
      PollHandsOut(st, s, key, s');
      SameAgent(s, s');
      SameProduced(s, s');
      hide Step, OnePlace, Accounted, NoDuplicates, WellFormedTable, HandedOut, AgentTruthful, Genuine;
      forall id | id in s.table.rows ensures RowGenuine(s', id) {
        assert RowGenuine(s, id);
        if s.table.rows[id].body.Some? { ResultMeansReported(s, id); }
      }
      forall r | r in s'.replies && r.code == 200 ensures Recorded(s'.table, r.request.o) {
        assert Recorded(s.table, r.request.o);
        ResultMeansReported(s, r.request.o.id);
      }
    }
  }

  lemma ExecuteKeepsTruthful(st: Setting, s: System, o: Outcome)
    requires Sound(s)
    ensures Truthful(Step(st, s, Execute(o)))
  {
    var s' := Step(st, s, Execute(o));
    if s' != s {
      assert o.id in Todo(s.mode) && o.id !in s.produced;
      hide OnePlace, Accounted, ByAgent;
      assert forall x | Genuine(s, x) :: Genuine(s', x);
      forall id | id in s'.table.rows ensures RowGenuine(s', id) {
        assert RowGenuine(s, id);
      }
      assert Genuine(s', o);
    }
    hide OnePlace, Accounted, Genuine, RowGenuine, Recorded;
  }

  lemma ServerKeepsTruthful(st: Setting, s: System, a: Action)
    requires Truthful(s) && ByServer(a)
    ensures Truthful(Step(st, s, a))
  {
    var s' := Step(st, s, a);
    ServerEffect(st, s, a);
    SameAgent(s, s');
    SameProduced(s, s');
    hide Step;
    forall id | id in s'.table.rows ensures RowGenuine(s', id) {
      assert id in s.table.rows ==> RowGenuine(s, id);
    }
    forall r | r in s'.replies && r.code == 200 ensures Recorded(s'.table, r.request.o) {
      if r in s.replies {
        assert Recorded(s.table, r.request.o);
        assert RowGenuine(s, r.request.o.id);
      }
    }
  }

  lemma SendKeepsTruthful(st: Setting, s: System, a: Action)
    requires Truthful(s) && (a.Send? || a.SendBuffered?)
    ensures Truthful(Step(st, s, a))
  {
    var s' := Step(st, s, a);
    SameServer(s, s');
    SameProduced(s, s');
    hide ServerTruthful, Genuine;
    if AtResult(s.mode) {
      assert s.mode.left[0] in s.mode.left;
    }
  }

  lemma EnqueueKeepsTruthful(st: Setting, s: System, a: Action)
    requires Truthful(s) && (a.GiveUp? || a.BufferHeartbeat?)
    ensures Truthful(Step(st, s, a))
  {
    var s' := Step(st, s, a);
    SameServer(s, s');
    SameProduced(s, s');
    hide ServerTruthful, Genuine;
  }

  /** Steps that leave the buffer and the network alone. */
  lemma QuietKeepsTruthful(s: System, s': System)
    requires Truthful(s) && s'.table == s.table && s'.produced == s.produced && s'.executed == s.executed
    requires s'.replies == s.replies && s'.requests == s.requests && s'.store == s.store
    requires s'.mode.Reporting? ==> s.mode.Reporting? && s'.mode.o == s.mode.o
    requires s'.mode.Draining? ==> forall e | e in s'.mode.left :: e in s.store.rows
    ensures Truthful(s')
  {
    SameServer(s, s');
    SameProduced(s, s');
    hide ServerTruthful, Genuine;
  }

  lemma QuietEffect(st: Setting, s: System, a: Action)
    requires a.LoseResponse? || a.Receive? || a.Acknowledge? || a.StartDrain? || a.AcknowledgeBuffered? || a.SkipBuffered?
             || a.DropHeartbeat? || a.Crash?
    ensures var s' := Step(st, s, a);
            && s'.table == s.table && s'.produced == s.produced && s'.executed == s.executed
            && s'.replies == s.replies && s'.requests == s.requests && s'.store == s.store
            && (s'.mode.Reporting? ==> s.mode.Reporting? && s'.mode.o == s.mode.o)
            && (s'.mode.Draining? ==>
                  || (s.mode.Draining? && s'.mode.left == s.mode.left)
                  || (s.mode.Draining? && s.mode.left != [] && s'.mode.left == s.mode.left[1..])
                  || s'.mode.left == Buffer.Peeked(s.store, DRAIN_LIMIT))
  {
    hide Acknowledged, Buffer.Peeked;
  }

  lemma PeekedIsPart(store: Buffer.Store<Payload>)
    ensures forall e | e in Buffer.Peeked(store, DRAIN_LIMIT) :: e in store.rows
  {
  }

  lemma QuietLeft(st: Setting, s: System, s': System)
    requires AgentTruthful(s)
    requires s'.mode.Draining? ==>
               || (s.mode.Draining? && s'.mode.left == s.mode.left)
               || (s.mode.Draining? && s.mode.left != [] && s'.mode.left == s.mode.left[1..])
               || s'.mode.left == Buffer.Peeked(s.store, DRAIN_LIMIT)
    ensures s'.mode.Draining? ==> forall e | e in s'.mode.left :: e in s.store.rows
  {
    hide Genuine;
    PeekedIsPart(s.store);
  }

  lemma AgentKeepsTruthful(st: Setting, s: System, a: Action)
    requires Truthful(s)
    requires a.LoseResponse? || a.Receive? || a.Acknowledge? || a.StartDrain? || a.AcknowledgeBuffered? || a.SkipBuffered?
             || a.DropHeartbeat? || a.Crash?
    ensures Truthful(Step(st, s, a))
  {
    QuietEffect(st, s, a);
    hide Step, AgentTruthful, ServerTruthful;
    QuietLeft(st, s, Step(st, s, a));
    QuietKeepsTruthful(s, Step(st, s, a));
  }

  lemma EndDrainKeepsTruthful(st: Setting, s: System, a: Action)
    requires Truthful(s) && a.EndDrain?
    ensures Truthful(Step(st, s, a))
  {
    var s' := Step(st, s, a);
    forall e | e in s'.store.rows ensures e in s.store.rows {
      if s'.store != s.store {
        Buffer.DeletedIsPart(s.store, s.mode.done, e);
      }
    }
    SameServer(s, s');
    SameProduced(s, s');
    hide ServerTruthful, Genuine;
  }

  lemma TruthfulKept(st: Setting, s: System, a: Action)
    requires Sound(s)
    ensures Truthful(Step(st, s, a))
  {
    if a.Poll? {
      PollKeepsTruthful(st, s, a.key);
    } else if a.Execute? {
      ExecuteKeepsTruthful(st, s, a.o);
    } else if a.EndDrain? {
      EndDrainKeepsTruthful(st, s, a);
    } else if ByServer(a) {
      ServerKeepsTruthful(st, s, a);
    } else if a.Send? || a.SendBuffered? {
      SendKeepsTruthful(st, s, a);
    } else if a.GiveUp? || a.BufferHeartbeat? {
      EnqueueKeepsTruthful(st, s, a);
    } else {
      AgentKeepsTruthful(st, s, a);
    }
  }

  lemma EndDrainKeepsAccounted(st: Setting, s: System, a: Action)
    requires Accounted(s) && a.EndDrain?
    ensures Accounted(Step(st, s, a))
  {
    if s.mode.Draining? {
      Buffer.KeepExact(s.store.rows, s.mode.done);
      Buffer.KeepIncreasing(s.store, s.mode.done);
    }
    hide Buffer.Keep, Buffer.Increasing;
  }

  lemma InHandIsProduced(s: System)
    requires AgentTruthful(s)
    ensures forall id | InHand(s, id) :: id in s.produced
  {
  }

  /** The buffer stays, and with it everything buffered. */
  lemma SameStore(s: System, s': System)
    requires s'.store == s.store
    ensures forall id :: Buffered(s', id) == Buffered(s, id)
  {
  }

  /** What the remaining steps can do to the things an account is made of. */
  lemma RestEffect(st: Setting, s: System, a: Action)
    requires !(a.EndDrain? || a.GiveUp? || a.BufferHeartbeat? || a.AcknowledgeBuffered? || a.DropHeartbeat?)
    ensures var s' := Step(st, s, a);
            && s'.store == s.store && s.acked <= s'.acked && s.lost <= s'.lost
            && (forall id | InHand(s, id) :: InHand(s', id) || id in s'.acked || id in s'.lost)
            && (forall id | id in s'.acked && id !in s.acked :: InHand(s, id))
            && (forall id | id in s'.produced && id !in s.produced :: InHand(s', id))
            && s.produced.Keys <= s'.produced.Keys
            && (s'.mode.Draining? ==> s'.mode.done == [] || (s.mode.Draining? && s'.mode.done == s.mode.done))
  {
    hide Pending, AllDispatched, Answer, Refusal, Buffer.Peeked, ByAgent;
  }

  lemma RestKeepsAccounted(st: Setting, s: System, a: Action)
    requires Sound(s)
    requires !(a.EndDrain? || a.GiveUp? || a.BufferHeartbeat? || a.AcknowledgeBuffered? || a.DropHeartbeat?)
    ensures Accounted(Step(st, s, a))
  {
    var s' := Step(st, s, a);
    InHandIsProduced(s);
    hide Step, Buffered, InHand, OnePlace, Truthful, Buffer.Increasing;
    RestEffect(st, s, a);
    SameStore(s, s');
  }

  /** One more row in the buffer; what was in hand is the only thing that may leave the agent's hands. */
  lemma EnqueuedKeepsAccounted(s: System, s': System, payload: Payload)
    requires Accounted(s) && s'.store == Buffer.Enqueued(s.store, payload)
    requires !s'.mode.Draining? && s'.produced == s.produced && s'.acked == s.acked && s'.lost == s.lost
    requires forall id | InHand(s, id) :: InHand(s', id) || (payload.ResultOf? && payload.o.id == id)
    ensures Accounted(s')
  {
    hide InHand;
    var e := s'.store.rows[|s.store.rows|];
    assert e in s'.store.rows && e.payload == payload;
    forall id | Buffered(s, id) ensures Buffered(s', id) {
      var f :| f in s.store.rows && f.payload.ResultOf? && f.payload.o.id == id;
      assert f in s'.store.rows;
    }
    hide Buffered;
  }

  lemma EnqueueKeepsAccounted(st: Setting, s: System, a: Action)
    requires Sound(s) && (a.GiveUp? || a.BufferHeartbeat?)
    ensures Accounted(Step(st, s, a))
  {
    hide OnePlace, ServerTruthful;
    var s' := Step(st, s, a);
    if a.GiveUp? && a.written && s.mode.Reporting? {
      EnqueuedKeepsAccounted(s, s', ResultOf(s.mode.o));
    } else if s' != s && a.BufferHeartbeat? {
      EnqueuedKeepsAccounted(s, s', Heartbeat);
    }
  }

  lemma HeadProduced(s: System, e: Event)
    requires e.payload.ResultOf? ==> Genuine(s, e.payload.o)
    ensures e.payload.ResultOf? ==> e.payload.o.id in s.produced
  {
  }

  lemma DrainKeepsAccounted(st: Setting, s: System, a: Action)
    requires Sound(s) && (a.AcknowledgeBuffered? || a.DropHeartbeat?)
    ensures Accounted(Step(st, s, a))
  {
    hide OnePlace, ServerTruthful, Genuine;
    var s' := Step(st, s, a);
    SameStore(s, s');
    hide Buffered;
    if s.mode.Draining? && s.mode.left != [] {
      var head := s.mode.left[0];
      assert head in s.mode.left;
      forall e | e in s.store.rows && e.id == head.id ensures e == head {
        Buffer.SameRow(s.store, e, head);
      }
      assert head.payload.ResultOf? ==> Genuine(s, head.payload.o);
      HeadProduced(s, head);
    }
    hide Buffer.Increasing;
  }

  lemma AccountedKept(st: Setting, s: System, a: Action)
    requires Sound(s)
    ensures Accounted(Step(st, s, a))
  {
    if a.EndDrain? {
      EndDrainKeepsAccounted(st, s, a);
    } else if a.GiveUp? || a.BufferHeartbeat? {
      EnqueueKeepsAccounted(st, s, a);
    } else if a.AcknowledgeBuffered? || a.DropHeartbeat? {
      DrainKeepsAccounted(st, s, a);
    } else {
      RestKeepsAccounted(st, s, a);
    }
  }

  // --- Main results, for every sequence of steps ---

  lemma OneMore(st: Setting, actions: seq<Action>, a: Action)
    ensures After(st, actions + [a]) == Step(st, After(st, actions), a)
  {
    hide Step;
    assert (actions + [a])[..|actions|] == actions;
  }

  lemma NothingYet(st: Setting)
    ensures After(st, []) == BOOT
  {
  }

  lemma BootSound()
    ensures Sound(BOOT)
  {
  }

  lemma StepSound(st: Setting, s: System, a: Action)
    requires Sound(s)
    ensures Sound(Step(st, s, a))
  {
    OnePlaceKept(st, s, a);
    TruthfulKept(st, s, a);
    AccountedKept(st, s, a);
    hide OnePlace, Truthful, Accounted, Step;
  }

  lemma {:induction false} AlwaysSound(st: Setting, actions: seq<Action>)
    ensures Sound(After(st, actions))
  {
    hide *;
    if actions == [] {
      NothingYet(st);
      BootSound();
    } else {
      var n := |actions| - 1;
      assert actions == actions[..n] + [actions[n]];
      OneMore(st, actions[..n], actions[n]);
      AlwaysSound(st, actions[..n]);
      StepSound(st, After(st, actions[..n]), actions[n]);
    }
  }

  /** Every command is executed at most once, and only after a poll handed it out. */
  lemma ExecutedAtMostOnce(st: Setting, actions: seq<Action>)
    ensures var s := After(st, actions);
            NoDuplicates(s.executed) && forall id | id in s.executed :: HandedOut(s, id)
  {
    AlwaysSound(st, actions);
  }

  /** The result of every executed command is in hand, in the buffer, acknowledged below 500,
      or was lost to a crash in hand or a failed local write. */
  lemma EveryResultAccountedFor(st: Setting, actions: seq<Action>)
    ensures var s := After(st, actions);
            forall id | id in s.executed ::
              id in s.produced
              && ((s.mode.Reporting? && s.mode.o == s.produced[id])
                  || (exists e :: e in s.store.rows && e.payload == ResultOf(s.produced[id]))
                  || id in s.acked || id in s.lost)
  {
    AlwaysSound(st, actions);
    var s := After(st, actions);
    forall id | id in s.executed
      ensures id in s.produced
      ensures (s.mode.Reporting? && s.mode.o == s.produced[id])
              || (exists e :: e in s.store.rows && e.payload == ResultOf(s.produced[id]))
              || id in s.acked || id in s.lost
    {
      if Buffered(s, id) {
        var e :| e in s.store.rows && e.payload.ResultOf? && e.payload.o.id == id;
        assert Genuine(s, e.payload.o);
      }
      if InHand(s, id) {
        assert Genuine(s, s.mode.o);
      }
    }
  }

  /** Whatever result the server holds for a command is the one the agent produced for it. */
  lemma RecordedIsProduced(st: Setting, actions: seq<Action>, id: string)
    ensures var s := After(st, actions);
            id in s.table.rows && s.table.rows[id].body.Some? ==>
              id in s.produced && s.produced[id] == Outcome(id, s.table.rows[id].status, s.table.rows[id].body.value)
  {
    AlwaysSound(st, actions);
    var s := After(st, actions);
    assert id in s.table.rows ==> RowGenuine(s, id);
  }

  lemma ServerKeepsRows(st: Setting, s: System, a: Action, id: string)
    requires Sound(s) && id in s.table.rows && ByServer(a)
    ensures var s' := Step(st, s, a);
            && id in s'.table.rows
            && (HandedOut(s, id) ==> HandedOut(s', id))
            && (s.table.rows[id].body.Some? ==> s'.table.rows[id] == s.table.rows[id])
  {
    ServerEffect(st, s, a);
    assert RowGenuine(s, id);
    assert !a.Create? && a.request in s.requests ==> Genuine(s, a.request.o);
    hide Step, OnePlace, Accounted, ServerTruthful, RowGenuine;
  }

  lemma StepKeepsRows(st: Setting, s: System, a: Action, id: string)
    requires Sound(s) && id in s.table.rows
    ensures var s' := Step(st, s, a);
            && id in s'.table.rows
            && (HandedOut(s, id) ==> HandedOut(s', id))
            && (s.table.rows[id].body.Some? ==> s'.table.rows[id] == s.table.rows[id])
  {
    var s' := Step(st, s, a);
    if a.Poll? {
      if s' != s {
        PollHandsOut(st, s, a.key, s');
        if s.table.rows[id].body.Some? { ResultMeansReported(s, id); }
      }
      hide Step, OnePlace, Accounted, Truthful;
    } else if ByServer(a) {
      ServerKeepsRows(st, s, a, id);
      hide Step, Sound;
    } else {
      assert s'.table == s.table;
      hide Step, Sound;
    }
  }

  /** Redelivery is idempotent: once a command has left the queue it never returns, and once a
      result is recorded the row never changes again, whatever arrives late or twice. */
  lemma {:induction false} NothingReturnsToTheQueue(st: Setting, actions: seq<Action>, more: seq<Action>, id: string)
    requires id in After(st, actions).table.rows
    ensures var (s, s') := (After(st, actions), After(st, actions + more));
            && id in s'.table.rows
            && (HandedOut(s, id) ==> HandedOut(s', id))
            && (s.table.rows[id].body.Some? ==> s'.table.rows[id] == s.table.rows[id])
    decreases |more|
  {
    hide *;
    if more == [] {
      assert actions + more == actions;
    } else {
      var n := |more| - 1;
      assert actions + more == (actions + more[..n]) + [more[n]];
      OneMore(st, actions + more[..n], more[n]);
      NothingReturnsToTheQueue(st, actions, more[..n], id);
      AlwaysSound(st, actions + more[..n]);
      StepKeepsRows(st, After(st, actions + more[..n]), more[n], id);
    }
  }

  /** Handed out, but neither on its way, nor in hand, nor executed. */
  ghost predicate Stranded(s: System, id: string) {
    HandedOut(s, id) && !InFlight(s.inFlight, id) && id !in Todo(s.mode) && id !in s.executed
  }

  lemma PollKeepsStranded(st: Setting, s: System, key: nat, id: string)
    requires OnePlace(s) && Stranded(s, id)
    ensures Stranded(Step(st, s, Poll(key)), id)
  {
    var s' := Step(st, s, Poll(key));
    if s' != s {
      PollHandsOut(st, s, key, s');
      hide Step, HandedOut, InFlight, FlightsDisjoint, WellFormedTable, NoDuplicates;
      MoreInFlight(s.inFlight, key, s'.inFlight[key]);
    }
  }

  lemma ReceiveKeepsStranded(st: Setting, s: System, key: nat, id: string)
    requires OnePlace(s) && Stranded(s, id)
    ensures Stranded(Step(st, s, Receive(key)), id) && Stranded(Step(st, s, LoseResponse(key)), id)
  {
    FewerInFlight(s.inFlight, key);
    assert key in s.inFlight ==> id !in s.inFlight[key];
    hide InFlight, OnePlace, FlightsDisjoint;
  }

  lemma ExecuteKeepsStranded(st: Setting, s: System, o: Outcome, id: string)
    requires Stranded(s, id)
    ensures Stranded(Step(st, s, Execute(o)), id)
  {
    hide InFlight, ByAgent;
  }

  lemma StepKeepsStranded(st: Setting, s: System, a: Action, id: string)
    requires Sound(s) && Stranded(s, id)
    ensures Stranded(Step(st, s, a), id)
  {
    StepKeepsRows(st, s, a, id);
    if a.Poll? {
      PollKeepsStranded(st, s, a.key, id);
    } else if a.LoseResponse? || a.Receive? {
      ReceiveKeepsStranded(st, s, a.key, id);
    } else if ByServer(a) {
      ServerEffect(st, s, a);
    } else if a.Execute? {
      ExecuteKeepsStranded(st, s, a.o, id);
    } else {
      AgentEffect(st, s, a);
    }
    hide Step, HandedOut, InFlight, Sound;
  }

  /** The price of at most once: a command whose poll response was lost, or that was in hand at
      a crash, is never executed by any later run. */
  lemma {:induction false} StrandedForEver(st: Setting, actions: seq<Action>, more: seq<Action>, id: string)
    requires Stranded(After(st, actions), id)
    ensures Stranded(After(st, actions + more), id)
    decreases |more|
  {
    hide *;
    if more == [] {
      assert actions + more == actions;
    } else {
      var n := |more| - 1;
      assert actions + more == (actions + more[..n]) + [more[n]];
      OneMore(st, actions + more[..n], more[n]);
      StrandedForEver(st, actions, more[..n], id);
      AlwaysSound(st, actions + more[..n]);
      StepKeepsStranded(st, After(st, actions + more[..n]), more[n], id);
    }
  }

  /** The two steps that lose a command: the response carrying it, or the agent holding it. */
  ghost predicate Loses(s: System, a: Action, id: string) {
    (a.LoseResponse? && a.key in s.inFlight && id in s.inFlight[a.key]) || (a.Crash? && id in Todo(s.mode))
  }

  lemma LosingStrands(st: Setting, s: System, a: Action, id: string)
    requires Sound(s) && Loses(s, a, id)
    ensures Stranded(Step(st, s, a), id)
  {
    if a.LoseResponse? {
      FewerInFlight(s.inFlight, a.key);
      assert InFlight(s.inFlight, id);
    } else {
      assert forall x :: InFlight(s.inFlight, x) ==> x !in Todo(s.mode);
    }
    hide InFlight, FlightsDisjoint, NoDuplicates;
  }

  lemma AgentKeepsHold(st: Setting, s: System, a: Action, id: string)
    requires !(ByServer(a) || a.Poll? || a.LoseResponse? || a.Receive?)
    requires id in Todo(s.mode) || id in s.executed
    ensures var s' := Step(st, s, a); id in Todo(s'.mode) || id in s'.executed || Loses(s, a, id)
  {
    if a.Execute? && s.mode.Working? && s.mode.todo != [] {
      assert s.mode.todo == [s.mode.todo[0]] + s.mode.todo[1..];
    }
  }

  lemma PollStrandsNothing(st: Setting, s: System, key: nat, id: string)
    requires OnePlace(s) && !Stranded(s, id)
    ensures !Stranded(Step(st, s, Poll(key)), id)
  {
    var s' := Step(st, s, Poll(key));
    if s' != s {
      PollHandsOut(st, s, key, s');
      hide Step, InFlight, FlightsDisjoint, WellFormedTable, NoDuplicates;
      MoreInFlight(s.inFlight, key, s'.inFlight[key]);
    }
  }

  lemma ServerHandsNothing(st: Setting, s: System, a: Action, id: string)
    requires Sound(s) && ByServer(a)
    ensures HandedOut(Step(st, s, a), id) ==> HandedOut(s, id)
  {
    if !a.Create? && a.request in s.requests {
      assert Genuine(s, a.request.o);
      assert HandedOut(s, a.request.o.id);
    }
    hide Sound;
  }

  lemma MovedOrLost(st: Setting, s: System, a: Action, id: string)
    requires Sound(s) && (a.LoseResponse? || a.Receive?) && InFlight(s.inFlight, id)
    ensures var s' := Step(st, s, a);
            InFlight(s'.inFlight, id) || id in Todo(s'.mode) || Loses(s, a, id)
  {
    var s' := Step(st, s, a);
    var k :| k in s.inFlight && id in s.inFlight[k];
    if k != a.key {
      assert k in s'.inFlight && s'.inFlight[k] == s.inFlight[k];
    }
    hide Sound;
  }

  lemma OnlyLosingStrands(st: Setting, s: System, a: Action, id: string)
    requires Sound(s) && !Stranded(s, id) && Stranded(Step(st, s, a), id)
    ensures Loses(s, a, id)
  {
    var s' := Step(st, s, a);
    if a.Poll? {
      PollStrandsNothing(st, s, a.key, id);
    } else if a.LoseResponse? || a.Receive? {
      if InFlight(s.inFlight, id) { MovedOrLost(st, s, a, id); }
      assert s'.table == s.table && s'.executed == s.executed;
      assert id in Todo(s.mode) ==> id in Todo(s'.mode);
      hide Sound, InFlight, Step;
    } else if ByServer(a) {
      assert s'.inFlight == s.inFlight && s'.mode == s.mode && s'.executed == s.executed;
      ServerHandsNothing(st, s, a, id);
      hide Sound, InFlight, Step;
    } else {
      assert s'.table == s.table && s'.inFlight == s.inFlight;
      if id in Todo(s.mode) || id in s.executed { AgentKeepsHold(st, s, a, id); }
      hide Sound, InFlight, Step;
    }
  }

  lemma BootStrandsNothing(id: string)
    ensures !Stranded(BOOT, id)
  {
  }

  /** A command a poll has handed out is on its way, in hand or executed, unless one of its
      losses happened; and one that was lost is none of these again in any later state. */
  lemma {:induction false} StrandedExactly(st: Setting, actions: seq<Action>, id: string)
    ensures Stranded(After(st, actions), id) <==>
            exists i | 0 <= i < |actions| :: Loses(After(st, actions[..i]), actions[i], id)
  {
    hide *;
    if actions == [] {
      NothingYet(st);
      BootStrandsNothing(id);
    } else {
      var n := |actions| - 1;
      var earlier := actions[..n];
      var s := After(st, earlier);
      assert actions == earlier + [actions[n]];
      OneMore(st, earlier, actions[n]);
      AlwaysSound(st, earlier);
      StrandedExactly(st, earlier, id);
      assert forall i | 0 <= i < n :: earlier[..i] == actions[..i];
      if Stranded(s, id) {
        StepKeepsStranded(st, s, actions[n], id);
        var i :| 0 <= i < n && Loses(After(st, earlier[..i]), earlier[i], id);
        assert Loses(After(st, actions[..i]), actions[i], id);
      } else if Loses(s, actions[n], id) {
        LosingStrands(st, s, actions[n], id);
      } else if Stranded(Step(st, s, actions[n]), id) {
        OnlyLosingStrands(st, s, actions[n], id);
      }
    }
  }

  // --- Does an acknowledgement mean the result is recorded? ---

  ghost predicate AckedIsRecorded(s: System) {
    forall id | id in s.acked :: id in s.produced && Recorded(s.table, s.produced[id])
  }

  /** A request as the agent sends it: reports carry its header, drained results carry none. */
  predicate Ours(st: Setting, r: Request) {
    r.header == st.header || (r.header == Absent && r.o.id != "")
  }

  /** Some server answered the result below 500 without recording it. */
  ghost predicate WasTurnedAway(st: Setting, s: System, o: Outcome) {
    exists r | r in s.replies :: r.request.o == o && MayDrop(st, r.request, r.code)
  }

  ghost predicate Explained(st: Setting, s: System) {
    && (forall r | r in s.requests :: Ours(st, r))
    && (forall r | r in s.replies :: Ours(st, r.request) && (r.code >= 500 || r.code == 200 || MayDrop(st, r.request, r.code)))
    && forall id | id in s.acked ::
         id in s.produced && (Recorded(s.table, s.produced[id]) || WasTurnedAway(st, s, s.produced[id]))
  }

  lemma OnlyExecutingProduces(st: Setting, s: System, a: Action)
    requires !a.Execute?
    ensures Step(st, s, a).produced == s.produced
  {
    hide Pending, AllDispatched, Answer, Refusal, Reported, Acknowledged;
  }

  lemma ProducedStays(st: Setting, s: System, a: Action, id: string)
    requires Sound(s) && id in s.produced
    ensures var s' := Step(st, s, a); id in s'.produced && s'.produced[id] == s.produced[id]
  {
    assert id in s.executed;
    if a.Execute? {
      hide WellFormedTable, FlightsDisjoint, InFlight, HandedOut, ServerTruthful, Accounted, Genuine;
      assert s.mode.Working? && s.mode.todo != [] ==> s.mode.todo[0] in Todo(s.mode);
    } else {
      OnlyExecutingProduces(st, s, a);
      hide Step, Sound;
    }
  }

  lemma RepliesStay(st: Setting, s: System, a: Action)
    ensures s.replies <= Step(st, s, a).replies
  {
    hide Pending, AllDispatched, Answer, Refusal, Reported, Acknowledged, ByAgent;
  }

  /** A recorded result stays recorded, and a refusal that was sent stays sent. */
  lemma StaysExplained(st: Setting, s: System, a: Action, id: string)
    requires Sound(s) && id in s.produced
    ensures var s' := Step(st, s, a);
            && id in s'.produced && s'.produced[id] == s.produced[id]
            && (Recorded(s.table, s.produced[id]) ==> Recorded(s'.table, s.produced[id]))
            && (WasTurnedAway(st, s, s.produced[id]) ==> WasTurnedAway(st, s', s.produced[id]))
  {
    var s' := Step(st, s, a);
    ProducedStays(st, s, a, id);
    assert s.produced[id].id == id && id in s.executed;
    StepKeepsRows(st, s, a, id);
    RepliesStay(st, s, a);
    hide Step, Sound, MayDrop;
  }

  lemma WhoTouches(st: Setting, s: System, a: Action)
    ensures var s' := Step(st, s, a);
            && (!ByServer(a) ==> s'.replies == s.replies)
            && (!(a.Acknowledge? || a.AcknowledgeBuffered?) ==> s'.acked == s.acked)
            && forall r | r in s'.requests && r !in s.requests :: Ours(st, r)
  {
    hide Pending, AllDispatched, Answer, Refusal, Reported, Acknowledged, ByAgent;
  }

  lemma ServerExplains(st: Setting, s: System, a: Action)
    requires Sound(s) && Explained(st, s) && ByServer(a)
    ensures forall r | r in Step(st, s, a).replies ::
              Ours(st, r.request) && (r.code >= 500 || r.code == 200 || MayDrop(st, r.request, r.code))
  {
    if a.Serve? && a.request in s.requests {
      assert Genuine(s, a.request.o);
      assert HandedOut(s, a.request.o.id);
    }
    hide Sound, Ours, Refused;
  }

  /** The reply an acknowledgement rests on explains it. */
  lemma ReplyExplains(st: Setting, s: System, r: Reply)
    requires Sound(s) && Explained(st, s) && r in s.replies && r.code < 500 && Genuine(s, r.request.o)
    ensures var o := r.request.o;
            o.id in s.produced && s.produced[o.id] == o && (Recorded(s.table, o) || WasTurnedAway(st, s, o))
  {
    hide MayDrop, Ours;
    assert r.code == 200 ==> Recorded(s.table, r.request.o);
  }

  lemma SameTurnedAway(st: Setting, s: System, s': System)
    requires s'.replies == s.replies
    ensures forall o :: WasTurnedAway(st, s', o) == WasTurnedAway(st, s, o)
  {
    hide MayDrop;
  }

  /** An acknowledgement rests on a reply to a result the agent holds. */
  lemma AckEffect(st: Setting, s: System, a: Action) returns (reply: Option<Reply>)
    requires AgentTruthful(s) && (a.Acknowledge? || a.AcknowledgeBuffered?)
    ensures var s' := Step(st, s, a);
            && s'.produced == s.produced && s'.table == s.table && s'.replies == s.replies
            && (|| s'.acked == s.acked
                || (reply.Some? && reply.value in s.replies && reply.value.code < 500 && Genuine(s, reply.value.request.o)
                    && s'.acked == s.acked + {reply.value.request.o.id}))
  {
    hide Genuine;
    reply := None;
    if a.Acknowledge? && s.mode.Reporting? {
      reply := Some(Reply(Request(s.mode.o, st.header), a.code));
    } else if a.AcknowledgeBuffered? && AtResult(s.mode) {
      reply := Some(Reply(Request(s.mode.left[0].payload.o, Absent), a.code));
      assert s.mode.left[0] in s.mode.left;
    }
  }

  lemma AckExplained(st: Setting, s: System, a: Action)
    requires Sound(s) && Explained(st, s) && (a.Acknowledge? || a.AcknowledgeBuffered?)
    ensures var s' := Step(st, s, a);
            forall id | id in s'.acked ::
              id in s'.produced && (Recorded(s'.table, s'.produced[id]) || WasTurnedAway(st, s', s'.produced[id]))
  {
    hide Step, Genuine, Recorded, WasTurnedAway, MayDrop, Ours, OnePlace, AgentTruthful, ServerTruthful, Accounted;
    var s' := Step(st, s, a);
    var reply := AckEffect(st, s, a);
    if s'.acked != s.acked {
      ReplyExplains(st, s, reply.value);
    }
    SameTurnedAway(st, s, s');
  }

  lemma StepExplained(st: Setting, s: System, a: Action)
    requires Sound(s) && Explained(st, s)
    ensures Explained(st, Step(st, s, a))
  {
    var s' := Step(st, s, a);
    WhoTouches(st, s, a);
    hide Step, Sound, MayDrop, Ours;
    if ByServer(a) {
      ServerExplains(st, s, a);
    }
    if a.Acknowledge? || a.AcknowledgeBuffered? {
      AckExplained(st, s, a);
    }
    forall id | id in s.acked
      ensures id in s'.produced && (Recorded(s'.table, s'.produced[id]) || WasTurnedAway(st, s', s'.produced[id]))
    {
      StaysExplained(st, s, a, id);
    }
    hide Recorded, WasTurnedAway;
  }

  lemma NothingToExplain(st: Setting)
    ensures Explained(st, BOOT)
  {
  }

  lemma {:induction false} AlwaysExplained(st: Setting, actions: seq<Action>)
    ensures Explained(st, After(st, actions))
  {
    hide *;
    if actions == [] {
      NothingYet(st);
      NothingToExplain(st);
    } else {
      var n := |actions| - 1;
      assert actions == actions[..n] + [actions[n]];
      OneMore(st, actions[..n], actions[n]);
      AlwaysSound(st, actions[..n]);
      AlwaysExplained(st, actions[..n]);
      StepExplained(st, After(st, actions[..n]), actions[n]);
    }
  }

  /** On any server and in every run: an acknowledged result is recorded, or some request of the
      agent carrying it was answered below 500 by a refusal its setting allows. */
  lemma AckedIsRecordedOrTurnedAway(st: Setting, actions: seq<Action>, id: string)
    requires id in After(st, actions).acked
    ensures var s := After(st, actions);
            id in s.produced
            && (Recorded(s.table, s.produced[id])
                || exists r | r in s.replies ::
                     r.request.o == s.produced[id] && Ours(st, r.request) && MayDrop(st, r.request, r.code))
  {
    AlwaysExplained(st, actions);
    hide After, Recorded, Ours, MayDrop;
    var s := After(st, actions);
    if !Recorded(s.table, s.produced[id]) {
      var r :| r in s.replies && r.request.o == s.produced[id] && MayDrop(st, r.request, r.code);
      assert Ours(st, r.request);
    }
  }

  // --- Runs that lose an acknowledged result ---

  lemma Longer(st: Setting, actions: seq<Action>, s: System, a: Action) returns (more: seq<Action>)
    requires After(st, actions) == s
    ensures After(st, more) == Step(st, s, a)
  {
    OneMore(st, actions, a);
    more := actions + [a];
  }

  lemma OnlyCommand(st: Setting, c: string)
    ensures var t := Table([c], map[c := Row(st.me, Queued, None)]);
            Pending(t, st.me, POLL_LIMIT) == [c]
            && AllDispatched(t, [c]) == Table([c], map[c := Row(st.me, Dispatched, None)])
  {
    var t := Table([c], map[c := Row(st.me, Queued, None)]);
    assert PendingIn(t, st.me, [c][..0]) == [] && AllDispatched(t, [c][..0]) == t;
    assert t.rows[c := Row(st.me, Dispatched, None)] == map[c := Row(st.me, Dispatched, None)];
  }

  /** The one command created, polled and executed, its result in hand. */
  function InHandOnly(st: Setting, o: Outcome): System {
    BOOT.(table := Table([o.id], map[o.id := Row(st.me, Dispatched, None)]), mode := Reporting(o, []),
          executed := [o.id], produced := map[o.id := o])
  }

  lemma TakenRun(st: Setting, o: Outcome, before: seq<Action>, s2: System) returns (actions: seq<Action>)
    requires After(st, before) == s2 && ByAgent(o) && s2.mode == Idle
    requires s2.inFlight == map[0 := [o.id]] && s2.executed == [] && s2.produced == map[]
    ensures After(st, actions) ==
            s2.(inFlight := map[], mode := Reporting(o, []), executed := [o.id], produced := map[o.id := o])
  {
    hide After;
    var s3 := s2.(mode := Working([o.id]), inFlight := map[]);
    assert map[0 := [o.id]] - {0} == map[] && [o.id][1..] == [];
    actions := Longer(st, before, s2, Receive(0));
    actions := Longer(st, actions, s3, Execute(o));
  }

  lemma ExecutedRun(st: Setting, o: Outcome) returns (actions: seq<Action>)
    requires Refusal(st, st.header).None? && ByAgent(o)
    ensures After(st, actions) == InHandOnly(st, o)
  {
    hide After, Pending, AllDispatched;
    var c := o.id;
    var s1 := BOOT.(table := Table([c], map[c := Row(st.me, Queued, None)]));
    var s2 := s1.(table := Table([c], map[c := Row(st.me, Dispatched, None)]), inFlight := map[0 := [c]]);
    NothingYet(st);
    actions := Longer(st, [], BOOT, Create(c, st.me));
    OnlyCommand(st, c);
    actions := Longer(st, actions, s1, Poll(0));
    actions := TakenRun(st, o, actions, s2);
  }

  /** The server step that answers a request without recording it. */
  lemma DropReply(st: Setting, s: System, r: Request, code: int) returns (a: Action)
    requires r in s.requests && MayDrop(st, r, code)
    ensures Step(st, s, a) == s.(replies := s.replies + {Reply(r, code)}) && code <= 499
  {
    a := if Refused(st, r) == Some(code) then Serve(r) else TurnAway(r, code);
  }

  /** An acknowledged result that nothing holds any more and no row records. */
  ghost predicate Dropped(st: Setting, s: System, o: Outcome) {
    && o.id in s.acked && s.produced == map[o.id := o]
    && s.mode == Idle && s.store.rows == []
    && o.id in s.table.rows && s.table.rows[o.id] == Row(st.me, Dispatched, None)
  }

  /** A report the server may answer below 500 without recording it. */
  lemma ReportedIsDropped(st: Setting, o: Outcome, code: int) returns (actions: seq<Action>)
    requires Refusal(st, st.header).None? && ByAgent(o) && MayDrop(st, Request(o, st.header), code)
    ensures Dropped(st, After(st, actions), o)
  {
    hide After, MayDrop;
    var r := Request(o, st.header);
    actions := ExecutedRun(st, o);
    var s := InHandOnly(st, o);
    actions := Longer(st, actions, s, Send);
    s := s.(requests := {r});
    var a := DropReply(st, s, r, code);
    actions := Longer(st, actions, s, a);
    s := s.(replies := {Reply(r, code)});
    actions := Longer(st, actions, s, Acknowledge(code));
  }

  lemma DroppedRun(st: Setting, o: Outcome, code: int, event: Event, before: seq<Action>, s8: System)
      returns (actions: seq<Action>)
    requires After(st, before) == s8 && o.id != [] && event == Buffer.Row(1, ResultOf(o)) && code <= 499
    requires s8.mode == Draining([event], []) && Reply(Request(o, Absent), code) in s8.replies && s8.store.rows == [event]
    ensures var s := After(st, actions);
            && o.id in s.acked && s.store.rows == [] && s.mode == Idle && s.table == s8.table && s.produced == s8.produced
  {
    hide After;
    var s9 := s8.(mode := Draining([], [1]), acked := s8.acked + {o.id});
    assert [event][1..] == [] && [event][0] == event && [] + [event.id] == [1];
    actions := Longer(st, before, s8, AcknowledgeBuffered(code));
    assert Buffer.Keep([event], [1]) == Buffer.Keep([event][..0], [1]) == [];
    actions := Longer(st, actions, s9, EndDrain(true));
  }

  lemma DrainedRun(st: Setting, o: Outcome, code: int, before: seq<Action>, s5: System) returns (actions: seq<Action>)
    requires After(st, before) == s5 && o.id != [] && s5.mode == Idle && MayDrop(st, Request(o, Absent), code)
    requires s5.store == Buffer.Store([Buffer.Row(1, ResultOf(o))], 2)
    ensures var s := After(st, actions);
            && o.id in s.acked && s.store.rows == [] && s.mode == Idle && s.table == s5.table && s.produced == s5.produced
  {
    hide After, MayDrop;
    var event := Buffer.Row(1, ResultOf(o));
    var r := Request(o, Absent);
    var s6 := s5.(mode := Draining([event], []));
    var s7 := s6.(requests := s6.requests + {r});
    var s8 := s7.(replies := s7.replies + {Reply(r, code)});
    assert s8.mode == Draining([event], []) && s8.store == s5.store && s8.table == s5.table;
    actions := Longer(st, before, s5, StartDrain);
    actions := Longer(st, actions, s6, SendBuffered);
    var a := DropReply(st, s7, r, code);
    actions := Longer(st, actions, s7, a);
    actions := DroppedRun(st, o, code, event, actions, s8);
  }

  /** The same for a result that was buffered first: a drain sends it without a header. */
  lemma BufferedIsDropped(st: Setting, o: Outcome, code: int) returns (actions: seq<Action>)
    requires Refusal(st, st.header).None? && ByAgent(o) && o.id != [] && MayDrop(st, Request(o, Absent), code)
    ensures Dropped(st, After(st, actions), o)
  {
    hide After, MayDrop;
    actions := ExecutedRun(st, o);
    var s := InHandOnly(st, o);
    actions := Longer(st, actions, s, GiveUp(true));
    s := s.(mode := Idle, store := Buffer.Store([Buffer.Row(1, ResultOf(o))], 2));
    actions := DrainedRun(st, o, code, actions, s);
  }

  /** A throttled report is lost, development server or not: the agent takes 429 for delivery. */
  lemma ThrottledIsDropped(st: Setting, o: Outcome) returns (actions: seq<Action>)
    requires Refusal(st, st.header).None? && 429 in st.front && ByAgent(o)
    ensures Dropped(st, After(st, actions), o)
  {
    actions := ReportedIsDropped(st, o, 429);
  }

  /** On a server that demands the tenant header, draining drops the result: the drain sends
      none, is refused, and deletes the event as delivered. */
  lemma DrainedIsDropped(st: Setting, o: Outcome) returns (actions: seq<Action>)
    requires !st.open && st.header == Matching && ByAgent(o) && o.id != []
    ensures Dropped(st, After(st, actions), o)
  {
    actions := BufferedIsDropped(st, o, Refused(st, Request(o, Absent)).value);
  }

  // --- The settings in which no acknowledged result is lost ---

  /** The server accepts requests without the tenant header, no layer before it turns requests
      away below 500, and the body limits let every result the agent may send through. */
  ghost predicate Reliable(st: Setting) {
    && st.open
    && (forall code | code in st.front :: !(400 <= code <= 499))
    && forall o: Outcome | ByAgent(o) ::
         st.body(Request(o, st.header)).Fits? && (o.id != "" ==> st.body(Request(o, Absent)).Fits?)
  }

  /** Nothing can ever be executed, because every poll is refused. */
  ghost predicate Inert(s: System) {
    s.inFlight == map[] && Todo(s.mode) == [] && s.executed == []
  }

  lemma StepInert(st: Setting, s: System, a: Action)
    requires Inert(s) && Refusal(st, st.header).Some?
    ensures Inert(Step(st, s, a))
  {
    hide Pending, AllDispatched, Answer, Acknowledged, ByAgent, Reported;
    if a.LoseResponse? {
      assert s.inFlight - {a.key} == map[];
    }
  }

  lemma {:induction false} AlwaysInert(st: Setting, actions: seq<Action>)
    requires Refusal(st, st.header).Some?
    ensures Inert(After(st, actions))
  {
    if actions != [] {
      var n := |actions| - 1;
      AlwaysInert(st, actions[..n]);
      StepInert(st, After(st, actions[..n]), actions[n]);
      hide Step;
    }
  }

  lemma ReliableDropsNothing(st: Setting, r: Request, code: int)
    requires Reliable(st) && Refusal(st, st.header).None? && ByAgent(r.o) && Ours(st, r)
    ensures !MayDrop(st, r, code)
  {
    assert st.body(r).Fits? by {
      assert r == Request(r.o, r.header);
    }
  }

  lemma AlwaysRecorded(st: Setting, actions: seq<Action>)
    requires Refusal(st, st.header).Some? || Reliable(st)
    ensures AckedIsRecorded(After(st, actions))
  {
    var s := After(st, actions);
    AlwaysSound(st, actions);
    if Refusal(st, st.header).Some? {
      AlwaysInert(st, actions);
    } else {
      hide After, MayDrop, Reliable, Ours, Recorded;
      forall id | id in s.acked ensures id in s.produced && Recorded(s.table, s.produced[id]) {
        AckedIsRecordedOrTurnedAway(st, actions, id);
        assert ByAgent(s.produced[id]);
        forall r | r in s.replies && r.request.o == s.produced[id] && Ours(st, r.request)
          ensures !MayDrop(st, r.request, r.code)
        {
          ReliableDropsNothing(st, r.request, r.code);
        }
      }
    }
  }

  /** A setting that is not reliable, and lets the agent poll, has a run that loses a result. */
  lemma UnreliableLoses(st: Setting) returns (actions: seq<Action>, o: Outcome)
    requires Refusal(st, st.header).None? && !Reliable(st)
    ensures Dropped(st, After(st, actions), o)
  {
    var id, body := "c", "";
    o := Outcome(id, Completed, body);
    if code :| code in st.front && 400 <= code <= 499 {
      actions := ReportedIsDropped(st, o, code);
    } else if !st.open {
      actions := DrainedIsDropped(st, o);
    } else {
      o :| ByAgent(o) && !(st.body(Request(o, st.header)).Fits? && (o.id != "" ==> st.body(Request(o, Absent)).Fits?));
      if !st.body(Request(o, st.header)).Fits? {
        actions := ReportedIsDropped(st, o, Refused(st, Request(o, st.header)).value);
      } else {
        actions := BufferedIsDropped(st, o, Refused(st, Request(o, Absent)).value);
      }
    }
  }

  /** An acknowledged result is a recorded one in every run exactly when no refusal below 500
      can reach a report, or the agent's own header gets it nothing to execute. */
  lemma AckedIsRecordedExactly(st: Setting)
    ensures (forall actions :: AckedIsRecorded(After(st, actions))) <==> Refusal(st, st.header).Some? || Reliable(st)
  {
    if Refusal(st, st.header).Some? || Reliable(st) {
      forall actions ensures AckedIsRecorded(After(st, actions)) {
        AlwaysRecorded(st, actions);
      }
    } else {
      var actions, o := UnreliableLoses(st);
      hide After;
      assert !AckedIsRecorded(After(st, actions));
    }
  }

  // --- The agent's drain loop is one of these runs ---

  /** The network holds the answers the loop is given. */
  ghost predicate Answered(s: System, events: seq<Event>, answers: Answers) {
    forall e | e in events && e.payload.ResultOf? && Settled(e, answers) ::
      Reply(Request(e.payload.o, Absent), answers(e.id).value) in s.replies
  }

  lemma DrainOne(st: Setting, s: System, events: seq<Event>, i: nat, answers: Answers) returns (a: Action)
    requires i < |events| && s.mode == Draining(events[i..], Settling(events[..i], answers)) && Answered(s, events, answers)
    ensures var s' := Step(st, s, a);
            s'.mode == Draining(events[i + 1..], Settling(events[..i + 1], answers))
            && s'.store == s.store && s'.replies == s.replies
  {
    var e := events[i];
    assert e in events && s.mode.left[0] == e && s.mode.left[1..] == events[i + 1..];
    assert events[..i + 1][..i] == events[..i];
    a := if e.payload.Heartbeat? then DropHeartbeat
         else if Settled(e, answers) then AcknowledgeBuffered(answers(e.id).value)
         else SkipBuffered;
  }

  lemma {:induction false} DrainUpTo(st: Setting, before: seq<Action>, events: seq<Event>, i: nat, answers: Answers)
      returns (actions: seq<Action>)
    requires i <= |events| && After(st, before).mode == Draining(events, []) && Answered(After(st, before), events, answers)
    ensures var (s, s') := (After(st, before), After(st, actions));
            s'.mode == Draining(events[i..], Settling(events[..i], answers)) && s'.store == s.store && s'.replies == s.replies
  {
    if i == 0 {
      actions := before;
      assert events[0..] == events && events[..0] == [];
    } else {
      hide Step, After, Settling;
      var shorter := DrainUpTo(st, before, events, i - 1, answers);
      var s := After(st, shorter);
      var a := DrainOne(st, s, events, i - 1, answers);
      OneMore(st, shorter, a);
      actions := shorter + [a];
    }
  }

  /** Whatever the agent's drain does to its buffer, the protocol can do: the invariants above
      hold of the buffer it leaves. */
  lemma DrainIsARun(st: Setting, before: seq<Action>, answers: Answers, deletable: bool) returns (actions: seq<Action>)
    requires After(st, before).mode == Idle
    requires Answered(After(st, before), Buffer.Peeked(After(st, before).store, DRAIN_LIMIT), answers)
    ensures var (s, s') := (After(st, before), After(st, actions));
            s'.mode == Idle && s'.store == if deletable then Drained(s.store, answers) else s.store
  {
    hide After, Settling;
    var s := After(st, before);
    var events := Buffer.Peeked(s.store, DRAIN_LIMIT);
    OneMore(st, before, StartDrain);
    actions := DrainUpTo(st, before + [StartDrain], events, |events|, answers);
    assert events[|events|..] == [] && events[..|events|] == events;
    OneMore(st, actions, EndDrain(deletable));
    actions := actions + [EndDrain(deletable)];
  }

  // --- So is the loop over a poll's commands ---

  /** An answer below 500 that the server can give to a genuine report. */
  predicate CanAnswer(st: Setting, o: Outcome, answer: Option<int>) {
    Acknowledged(answer) ==>
      var r := Request(o, st.header);
      MayDrop(st, r, answer.value) || (answer.value == 200 && Refused(st, r).None?)
  }

  lemma AnswerStep(st: Setting, s: System, o: Outcome, code: int) returns (a: Action)
    requires Sound(s) && s.mode.Reporting? && s.mode.o == o && Request(o, st.header) in s.requests
    requires code < 500 && CanAnswer(st, o, Some(code))
    ensures var s' := Step(st, s, a);
            s'.mode == s.mode && s'.store == s.store && Reply(Request(o, st.header), code) in s'.replies
  {
    var r := Request(o, st.header);
    if MayDrop(st, r, code) {
      a := DropReply(st, s, r, code);
    } else {
      assert Genuine(s, o) && HandedOut(s, o.id);
      a := Serve(r);
    }
    hide Sound;
  }

  /** Reporting one result, whatever the answer: what `ReportResult` does to the buffer. */
  lemma ReportIsARun(st: Setting, before: seq<Action>, o: Outcome, todo: seq<string>, answer: Option<int>, written: bool)
      returns (actions: seq<Action>)
    requires After(st, before).mode == Reporting(o, todo) && CanAnswer(st, o, answer)
    ensures var (s, s') := (After(st, before), After(st, actions));
            s'.mode == Then(todo) && s'.store == Reported(s.store, o, answer, written)
  {
    hide After, Sound, CanAnswer;
    var s := After(st, before);
    if !Acknowledged(answer) {
      actions := Longer(st, before, s, GiveUp(written));
    } else {
      actions := Longer(st, before, s, Send);
      var s1 := After(st, actions);
      AlwaysSound(st, actions);
      var a := AnswerStep(st, s1, o, answer.value);
      actions := Longer(st, actions, s1, a);
      actions := Longer(st, actions, After(st, actions), Acknowledge(answer.value));
    }
  }

  /** The results the agent produces for the commands it was handed. */
  ghost predicate Results(st: Setting, ids: seq<string>, os: seq<Outcome>, answers: Answers) {
    |os| == |ids| && forall i | 0 <= i < |ids| :: os[i].id == ids[i] && ByAgent(os[i]) && CanAnswer(st, os[i], answers(i))
  }

  lemma TakesNext(st: Setting, s: System, o: Outcome)
    requires s.mode.Working? && s.mode.todo != [] && s.mode.todo[0] == o.id && ByAgent(o)
    ensures var s' := Step(st, s, Execute(o)); s'.mode == Reporting(o, s.mode.todo[1..]) && s'.store == s.store
  {
  }

  lemma {:induction false} CommandsUpTo(st: Setting, before: seq<Action>, ids: seq<string>, os: seq<Outcome>, i: nat,
                                        answers: Answers, written: nat -> bool)
      returns (actions: seq<Action>)
    requires After(st, before).mode == Then(ids) && Results(st, ids, os, answers) && i <= |ids|
    ensures var (s, s') := (After(st, before), After(st, actions));
            s'.mode == Then(ids[i..]) && s'.store == ReportedAll(s.store, os[..i], answers, written)
  {
    if i == 0 {
      actions := before;
      assert ids[0..] == ids && os[..0] == [];
    } else {
      hide After, Step, CanAnswer, Reported;
      actions := CommandsUpTo(st, before, ids, os, i - 1, answers, written);
      var s, o := After(st, actions), os[i - 1];
      assert ids[i - 1..][0] == ids[i - 1] && ids[i - 1..][1..] == ids[i..];
      assert os[..i][..i - 1] == os[..i - 1];
      TakesNext(st, s, o);
      actions := Longer(st, actions, s, Execute(o));
      actions := ReportIsARun(st, actions, o, ids[i..], answers(i - 1), written(i - 1));
    }
  }

  lemma SameLength(st: Setting, ids: seq<string>, os: seq<Outcome>, answers: Answers)
    requires Results(st, ids, os, answers)
    ensures |os| == |ids|
  {
  }

  /** Whatever the agent's loop over a poll's commands does to its buffer, the protocol can do. */
  lemma PollIsARun(st: Setting, before: seq<Action>, key: nat, os: seq<Outcome>, answers: Answers, written: nat -> bool)
      returns (actions: seq<Action>)
    requires After(st, before).mode == Idle && key in After(st, before).inFlight
    requires Results(st, After(st, before).inFlight[key], os, answers)
    ensures var (s, s') := (After(st, before), After(st, actions));
            s'.mode == Idle && s'.store == ReportedAll(s.store, os, answers, written)
  {
    hide After, Results, ReportedAll;
    var s := After(st, before);
    var ids := s.inFlight[key];
    assert |os| == |ids| by { SameLength(st, ids, os, answers); }
    actions := Longer(st, before, s, Receive(key));
    actions := CommandsUpTo(st, actions, ids, os, |ids|, answers, written);
    assert ids[|ids|..] == [] && os[..|os|] == os;
  }
}
