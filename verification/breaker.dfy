/** The circuit breaker of the state store, in memory and on Redis. */
module Breaker {
  import opened Schema

  datatype State = Closed | Open | HalfOpen

  /** Everything stored about one connection. */
  datatype Cell = Cell(failures: int, state: State, openedAt: Option<real>)

  const FRESH := Cell(0, Closed, None)

  // --- Specification of the operations on one connection ---

  function OpenedAt(c: Cell): real {
    if c.openedAt.Some? then c.openedAt.value else 0.0
  }

  /** Reading the state is what turns OPEN into HALF-OPEN. */
  function Queried(c: Cell, now: real, cooldown: real): Cell {
    if c.state == Open && now - OpenedAt(c) >= cooldown then c.(state := HalfOpen) else c
  }

  function Failed(c: Cell, now: real, threshold: int): Cell {
    if c.state == HalfOpen then c.(state := Open, openedAt := Some(now))
    else if c.failures + 1 >= threshold then Cell(c.failures + 1, Open, Some(now))
    else c.(failures := c.failures + 1)
  }

  /** What recording a failure reports to its caller. */
  function FailedReport(c: Cell, threshold: int): State {
    if c.state == HalfOpen || c.failures + 1 >= threshold then Open else Closed
  }

  // --- In memory ---

  class MemoryStateStore {
    const defaultCooldown: real
    var circuitFailures: map<string, int>
    var circuitState: map<string, State>
    var circuitOpenedAt: map<string, real>

    function CellOf(id: string): Cell
      reads this
    {
      Cell(if id in circuitFailures then circuitFailures[id] else 0,
           if id in circuitState then circuitState[id] else Closed,
           if id in circuitOpenedAt then Some(circuitOpenedAt[id]) else None)
    }

    constructor (defaultCooldown: real)
      ensures forall id :: CellOf(id) == FRESH
      ensures this.defaultCooldown == defaultCooldown
    {
      this.defaultCooldown := defaultCooldown;
      circuitFailures, circuitState, circuitOpenedAt := map[], map[], map[];
    }

    method GetState(id: string, cooldown: Option<real>, now: real) returns (state: State)
      modifies this
      ensures CellOf(id) == Queried(old(CellOf(id)), now, if cooldown.Some? then cooldown.value else defaultCooldown)
      ensures state == CellOf(id).state
      ensures forall other | other != id :: CellOf(other) == old(CellOf(other))
    {
      state := if id in circuitState then circuitState[id] else Closed;
      if state == Open {
        var wait := if cooldown.Some? then cooldown.value else defaultCooldown;
        var openedAt := if id in circuitOpenedAt then circuitOpenedAt[id] else 0.0;
        if now - openedAt >= wait {
          circuitState := circuitState[id := HalfOpen];
          state := HalfOpen;
        }
      }
    }

    method RecordFailure(id: string, threshold: int, now: real) returns (report: State)
      modifies this
      ensures CellOf(id) == Failed(old(CellOf(id)), now, threshold)
      ensures report == FailedReport(old(CellOf(id)), threshold)
      ensures forall other | other != id :: CellOf(other) == old(CellOf(other))
    {
      var current := if id in circuitState then circuitState[id] else Closed;
      if current == HalfOpen {
        circuitState := circuitState[id := Open];
        circuitOpenedAt := circuitOpenedAt[id := now];
        return Open;
      }
      var count := (if id in circuitFailures then circuitFailures[id] else 0) + 1;
      circuitFailures := circuitFailures[id := count];
      if count >= threshold {
        circuitState := circuitState[id := Open];
        circuitOpenedAt := circuitOpenedAt[id := now];
        return Open;
      }
      report := Closed;
    }

    method RecordSuccess(id: string) returns (report: State)
      modifies this
      ensures CellOf(id) == FRESH && report == Closed
      ensures forall other | other != id :: CellOf(other) == old(CellOf(other))
    {
      circuitFailures := circuitFailures[id := 0];
      circuitState := circuitState[id := Closed];
      circuitOpenedAt := circuitOpenedAt - {id};
      report := Closed;
    }
  }

  // --- On Redis: one flat key space, each script one atomic step ---

  datatype Stored = StateText(state: State) | Counter(n: int) | Time(t: real)

  const STATE := "state"
  const OPENED_AT := "opened_at"
  const FAILURES := "failures"

  function Key(id: string, field: string): string {
    "cb:" + id + ":" + field
  }

  predicate IsField(field: string) {
    field == STATE || field == OPENED_AT || field == FAILURES
  }

  /** No two connections share a key, whatever characters their ids contain. */
  lemma KeysDistinct(id: string, field: string, id': string, field': string)
    requires IsField(field) && IsField(field')
    ensures Key(id, field) == Key(id', field') <==> id == id' && field == field'
  {
    var k, k' := Key(id, field), Key(id', field');
    if k == k' {
      assert k[|k| - 1] == field[|field| - 1] && k'[|k'| - 1] == field'[|field'| - 1];
      assert field == field';
      assert k[3..3 + |id|] == id && k'[3..3 + |id'|] == id';
    }
  }

  // What the three commands of a success do, one by one.

  function DropCounter(c: Cell): Cell {
    c.(failures := 0)
  }

  function MarkClosed(c: Cell): Cell {
    c.(state := Closed)
  }

  function DropTime(c: Cell): Cell {
    c.(openedAt := None)
  }

  class RedisStateStore {
    const defaultCooldown: real
    var keys: map<string, Stored>

    /** The breaker's keys hold what its own scripts wrote. */
    ghost predicate Valid()
      reads this
    {
      forall id ::
        && (Key(id, STATE) in keys ==> keys[Key(id, STATE)].StateText?)
        && (Key(id, OPENED_AT) in keys ==> keys[Key(id, OPENED_AT)].Time?)
        && (Key(id, FAILURES) in keys ==> keys[Key(id, FAILURES)].Counter?)
    }

    ghost function CellOf(id: string): Cell
      requires Valid()
      reads this
    {
      Cell(if Key(id, FAILURES) in keys then keys[Key(id, FAILURES)].n else 0,
           if Key(id, STATE) in keys then keys[Key(id, STATE)].state else Closed,
           if Key(id, OPENED_AT) in keys then Some(keys[Key(id, OPENED_AT)].t) else None)
    }

    constructor (defaultCooldown: real)
      ensures Valid() && this.defaultCooldown == defaultCooldown
      ensures forall id :: CellOf(id) == FRESH
    {
      this.defaultCooldown := defaultCooldown;
      keys := map[];
    }

    lemma AllKeysDistinct()
      ensures forall id, field, id', field' {:trigger Key(id, field), Key(id', field')} |
                IsField(field) && IsField(field') ::
                Key(id, field) == Key(id', field') <==> id == id' && field == field'
    {
      forall id, field, id', field' | IsField(field) && IsField(field') {
        KeysDistinct(id, field, id', field');
      }
    }

    method GetState(id: string, cooldown: Option<real>, now: real) returns (state: State)
      requires Valid()
      modifies this
      ensures Valid()
      ensures CellOf(id) == Queried(old(CellOf(id)), now, if cooldown.Some? then cooldown.value else defaultCooldown)
      ensures state == CellOf(id).state
      ensures forall other | other != id :: CellOf(other) == old(CellOf(other))
    {
      AllKeysDistinct();
      var wait := if cooldown.Some? then cooldown.value else defaultCooldown;
      state := if Key(id, STATE) in keys then keys[Key(id, STATE)].state else Closed;
      if state == Open {
        var openedAt := if Key(id, OPENED_AT) in keys then keys[Key(id, OPENED_AT)].t else 0.0;
        if now - openedAt >= wait {
          keys := keys[Key(id, STATE) := StateText(HalfOpen)];
          state := HalfOpen;
        }
      }
    }

    method RecordFailure(id: string, threshold: int, now: real) returns (report: State)
      requires Valid()
      modifies this
      ensures Valid()
      ensures CellOf(id) == Failed(old(CellOf(id)), now, threshold)
      ensures report == FailedReport(old(CellOf(id)), threshold)
      ensures forall other | other != id :: CellOf(other) == old(CellOf(other))
    {
      AllKeysDistinct();
      var current := if Key(id, STATE) in keys then keys[Key(id, STATE)].state else Closed;
      if current == HalfOpen {
        keys := keys[Key(id, STATE) := StateText(Open)][Key(id, OPENED_AT) := Time(now)];
        return Open;
      }
      var count := (if Key(id, FAILURES) in keys then keys[Key(id, FAILURES)].n else 0) + 1;
      keys := keys[Key(id, FAILURES) := Counter(count)];
      if count >= threshold {
        keys := keys[Key(id, STATE) := StateText(Open)][Key(id, OPENED_AT) := Time(now)];
        return Open;
      }
      report := Closed;
    }

    method DeleteFailures(id: string)
      requires Valid()
      modifies this
      ensures Valid() && CellOf(id) == DropCounter(old(CellOf(id)))
      ensures forall other | other != id :: CellOf(other) == old(CellOf(other))
    {
      AllKeysDistinct();
      keys := keys - {Key(id, FAILURES)};
    }

    method SetClosed(id: string)
      requires Valid()
      modifies this
      ensures Valid() && CellOf(id) == MarkClosed(old(CellOf(id)))
      ensures forall other | other != id :: CellOf(other) == old(CellOf(other))
    {
      AllKeysDistinct();
      keys := keys[Key(id, STATE) := StateText(Closed)];
    }

    method DeleteOpenedAt(id: string)
      requires Valid()
      modifies this
      ensures Valid() && CellOf(id) == DropTime(old(CellOf(id)))
      ensures forall other | other != id :: CellOf(other) == old(CellOf(other))
    {
      AllKeysDistinct();
      keys := keys - {Key(id, OPENED_AT)};
    }

    /** Three commands, here with nothing between them. */
    method RecordSuccess(id: string) returns (report: State)
      requires Valid()
      modifies this
      ensures Valid()
      ensures CellOf(id) == FRESH && report == Closed
      ensures forall other | other != id :: CellOf(other) == old(CellOf(other))
    {
      DeleteFailures(id);
      SetClosed(id);
      DeleteOpenedAt(id);
      report := Closed;
    }
  }

  // --- Histories ---

  datatype Event =
    | Query(now: real, cooldown: Option<real>)
    | Failure(now: real, threshold: int)
    | Success

  function Step(c: Cell, event: Event, defaultCooldown: real): Cell {
    match event
    case Query(now, cooldown) => Queried(c, now, if cooldown.Some? then cooldown.value else defaultCooldown)
    case Failure(now, threshold) => Failed(c, now, threshold)
    case Success => FRESH
  }

  function Report(c: Cell, event: Event, defaultCooldown: real): State {
    match event
    case Query(_, _) => Step(c, event, defaultCooldown).state
    case Failure(_, threshold) => FailedReport(c, threshold)
    case Success => Closed
  }

  /** The cell after any history, from any cell. */
  function RunFrom(c: Cell, events: seq<Event>, defaultCooldown: real): Cell {
    if events == [] then c
    else Step(RunFrom(c, events[..|events| - 1], defaultCooldown), events[|events| - 1], defaultCooldown)
  }

  function Run(events: seq<Event>, defaultCooldown: real): Cell {
    RunFrom(FRESH, events, defaultCooldown)
  }

  /** What happened to one connection. */
  function EventsOf(events: seq<(string, Event)>, id: string): seq<Event> {
    if events == [] then []
    else
      var earlier, last := EventsOf(events[..|events| - 1], id), events[|events| - 1];
      if last.0 == id then earlier + [last.1] else earlier
  }

  // --- Both stores in lockstep ---

  lemma OneMoreEvent(events: seq<(string, Event)>, k: nat, id: string, c: Cell, defaultCooldown: real)
    requires k < |events|
    ensures var before := RunFrom(c, EventsOf(events[..k], id), defaultCooldown);
            RunFrom(c, EventsOf(events[..k + 1], id), defaultCooldown) ==
            if events[k].0 == id then Step(before, events[k].1, defaultCooldown) else before
  {
    hide Step;
    assert events[..k + 1][..k] == events[..k];
    var earlier := EventsOf(events[..k], id);
    assert (earlier + [events[k].1])[..|earlier|] == earlier;
  }

  /** Every connection holds what its own events make of its cell at the start. */
  ghost predicate Holds(cells: string -> Cell, start: string -> Cell, events: seq<(string, Event)>, defaultCooldown: real) {
    forall id :: cells(id) == RunFrom(start(id), EventsOf(events, id), defaultCooldown)
  }

  /** Every operation reports what the history of its connection says. */
  ghost predicate ReportsOf(reports: seq<State>, start: string -> Cell, events: seq<(string, Event)>, defaultCooldown: real) {
    && |reports| <= |events|
    && forall k | 0 <= k < |reports| ::
         reports[k] == Report(RunFrom(start(events[k].0), EventsOf(events[..k], events[k].0), defaultCooldown),
                              events[k].1, defaultCooldown)
  }

  lemma HoldsStep(cells: string -> Cell, next: string -> Cell, start: string -> Cell, events: seq<(string, Event)>, k: nat,
                  reports: seq<State>, report: State, defaultCooldown: real)
    requires k < |events| && Holds(cells, start, events[..k], defaultCooldown)
    requires |reports| == k && ReportsOf(reports, start, events, defaultCooldown)
    requires next(events[k].0) == Step(cells(events[k].0), events[k].1, defaultCooldown)
    requires forall other | other != events[k].0 :: next(other) == cells(other)
    requires report == Report(cells(events[k].0), events[k].1, defaultCooldown)
    ensures Holds(next, start, events[..k + 1], defaultCooldown)
    ensures ReportsOf(reports + [report], start, events, defaultCooldown)
  {
    hide Step, Report, RunFrom, EventsOf;
    forall id ensures next(id) == RunFrom(start(id), EventsOf(events[..k + 1], id), defaultCooldown) {
      OneMoreEvent(events, k, id, start(id), defaultCooldown);
    }
  }

  /** The cells of a store, as a value. */
  ghost function Cells(memory: MemoryStateStore): string -> Cell
    reads memory
  {
    var failures, states, times := memory.circuitFailures, memory.circuitState, memory.circuitOpenedAt;
    id => Cell(if id in failures then failures[id] else 0,
               if id in states then states[id] else Closed,
               if id in times then Some(times[id]) else None)
  }

  lemma CellsAre(memory: MemoryStateStore)
    ensures forall id :: Cells(memory)(id) == memory.CellOf(id)
  {
  }

  lemma NothingReported(start: string -> Cell, events: seq<(string, Event)>, defaultCooldown: real)
    ensures ReportsOf([], start, events, defaultCooldown)
  {
  }

  /** One operation on both stores. */
  method Operate(memory: MemoryStateStore, redis: RedisStateStore, id: string, event: Event) returns (m: State, r: State)
    requires redis.Valid() && memory.defaultCooldown == redis.defaultCooldown
    requires forall id :: memory.CellOf(id) == redis.CellOf(id)
    modifies memory, redis
    ensures redis.Valid() && forall id :: memory.CellOf(id) == redis.CellOf(id)
    ensures memory.CellOf(id) == Step(old(memory.CellOf(id)), event, memory.defaultCooldown)
    ensures forall other | other != id :: memory.CellOf(other) == old(memory.CellOf(other))
    ensures m == r == Report(old(memory.CellOf(id)), event, memory.defaultCooldown)
  {
    match event {
      case Query(now, cooldown) =>
        m := memory.GetState(id, cooldown, now);
        r := redis.GetState(id, cooldown, now);
      case Failure(now, threshold) =>
        m := memory.RecordFailure(id, threshold, now);
        r := redis.RecordFailure(id, threshold, now);
      case Success =>
        m := memory.RecordSuccess(id);
        r := redis.RecordSuccess(id);
    }
  }

  /** The same operations on the same connections, from equal stores: both report the same
      states, and both hold on every connection what its own events make of it. */
  method Lockstep(memory: MemoryStateStore, redis: RedisStateStore, events: seq<(string, Event)>)
      returns (fromMemory: seq<State>, fromRedis: seq<State>)
    requires redis.Valid() && memory.defaultCooldown == redis.defaultCooldown
    requires forall id :: memory.CellOf(id) == redis.CellOf(id)
    modifies memory, redis
    ensures redis.Valid() && forall id :: memory.CellOf(id) == redis.CellOf(id)
    ensures Holds(Cells(memory), old(Cells(memory)), events, memory.defaultCooldown)
    ensures fromMemory == fromRedis && |fromMemory| == |events|
    ensures ReportsOf(fromMemory, old(Cells(memory)), events, memory.defaultCooldown)
  {
    fromMemory, fromRedis := [], [];
    ghost var start := Cells(memory);
    assert events[..0] == [] && Holds(start, start, [], memory.defaultCooldown);
    hide Holds, Cells, ReportsOf, RunFrom, EventsOf, Step, Report, RedisStateStore.Valid;
    NothingReported(start, events, memory.defaultCooldown);
    for k := 0 to |events|
      invariant redis.Valid() && forall id :: memory.CellOf(id) == redis.CellOf(id)
      invariant Holds(Cells(memory), start, events[..k], memory.defaultCooldown)
      invariant fromMemory == fromRedis && |fromMemory| == k
      invariant ReportsOf(fromMemory, start, events, memory.defaultCooldown)
    {
      ghost var cells := Cells(memory);
      CellsAre(memory);
      var m, r := Operate(memory, redis, events[k].0, events[k].1);
      CellsAre(memory);
      HoldsStep(cells, Cells(memory), start, events, k, fromMemory, m, memory.defaultCooldown);
      fromMemory, fromRedis := fromMemory + [m], fromRedis + [r];
    }
    assert events[..|events|] == events;
  }

  // --- What the history of one connection says about its state ---

  /** Failures since the last success (or reset, which stores the same). */
  function FailuresSince(events: seq<Event>): nat {
    if events == [] then 0
    else
      match events[|events| - 1]
      case Success => 0
      case Failure(_, _) => FailuresSince(events[..|events| - 1]) + 1
      case Query(_, _) => FailuresSince(events[..|events| - 1])
  }

  /** When the latest failure since the last success happened. */
  function LastFailure(events: seq<Event>): Option<real> {
    if events == [] then None
    else
      match events[|events| - 1]
      case Success => None
      case Failure(now, _) => Some(now)
      case Query(_, _) => LastFailure(events[..|events| - 1])
  }

  /** Some query since the latest failure came at least its cooldown after it. */
  predicate CooledDown(events: seq<Event>, defaultCooldown: real) {
    events != [] &&
    var earlier := events[..|events| - 1];
    match events[|events| - 1]
    case Query(now, cooldown) =>
      var wait := if cooldown.Some? then cooldown.value else defaultCooldown;
      CooledDown(earlier, defaultCooldown) || (LastFailure(earlier).Some? && now - LastFailure(earlier).value >= wait)
    case _ => false
  }

  predicate FixedThreshold(events: seq<Event>, threshold: int) {
    forall i | 0 <= i < |events| :: events[i].Failure? ==> events[i].threshold == threshold
  }

  /** The stored state is a function of three facts about the history: enough failures since
      the last success or not, and whether the latest failure has been seen to cool down. */
  lemma {:induction false} StateOfHistory(events: seq<Event>, threshold: int, defaultCooldown: real)
    requires threshold >= 1 && FixedThreshold(events, threshold)
    ensures var c := Run(events, defaultCooldown);
            && c.state == (if FailuresSince(events) < threshold then Closed
                           else if CooledDown(events, defaultCooldown) then HalfOpen else Open)
            && (c.state != Closed ==> c.openedAt == LastFailure(events) && c.openedAt.Some?)
            && (c.state == Closed ==> c.failures == FailuresSince(events))
            && (c.state != Closed ==> c.failures >= threshold)
  {
    if events != [] {
      StateOfHistory(events[..|events| - 1], threshold, defaultCooldown);
    }
  }

  /** At a fixed threshold every operation reports the state it leaves behind. */
  lemma ReportsAreStored(events: seq<Event>, event: Event, threshold: int, defaultCooldown: real)
    requires threshold >= 1 && FixedThreshold(events + [event], threshold)
    ensures Report(Run(events, defaultCooldown), event, defaultCooldown) == Run(events + [event], defaultCooldown).state
  {
    assert (events + [event])[..|events|] == events;
    assert forall i | 0 <= i < |events| :: events[i] == (events + [event])[i];
    assert (events + [event])[|events|] == event;
    StateOfHistory(events, threshold, defaultCooldown);
  }

  /** With thresholds that differ between calls, after any history the report of a failure is wrong
      exactly when an open circuit is told about one whose own threshold is not reached yet. */
  lemma MisreportsExactlyWhen(events: seq<Event>, now: real, threshold: int, defaultCooldown: real)
    ensures var c, failure := Run(events, defaultCooldown), Failure(now, threshold);
            Report(c, failure, defaultCooldown) != Run(events + [failure], defaultCooldown).state <==>
            c.state == Open && c.failures + 1 < threshold
  {
    var failure := Failure(now, threshold);
    assert (events + [failure])[..|events|] == events;
  }

  /** Such a history: one failure at threshold 1 opens the circuit, one at threshold 5 reads CLOSED. */
  lemma MisreportIsReached(first: real, second: real, defaultCooldown: real)
    ensures var events, failure := [Failure(first, 1)], Failure(second, 5);
            && Report(Run(events, defaultCooldown), failure, defaultCooldown) == Closed
            && Run(events + [failure], defaultCooldown).state == Open
  {
    var events := [Failure(first, 1)];
    assert events[..0] == [] && RunFrom(FRESH, [], defaultCooldown) == FRESH;
    assert RunFrom(FRESH, events, defaultCooldown) == Step(FRESH, events[0], defaultCooldown);
    MisreportsExactlyWhen(events, second, 5, defaultCooldown);
    assert (events + [Failure(second, 5)])[..1] == events;
  }

  // --- A success on Redis is three commands ---

  /** The three commands of a success with other operations between them. */
  function Interleaved(c: Cell, early: seq<Event>, late: seq<Event>, defaultCooldown: real): Cell {
    var counted := RunFrom(DropCounter(c), early, defaultCooldown);
    DropTime(RunFrom(MarkClosed(counted), late, defaultCooldown))
  }

  function Failures(events: seq<Event>): nat {
    if events == [] then 0
    else Failures(events[..|events| - 1]) + if events[|events| - 1].Failure? then 1 else 0
  }

  predicate HasSuccess(events: seq<Event>) {
    exists i | 0 <= i < |events| :: events[i].Success?
  }

  lemma HasSuccessSnoc(events: seq<Event>)
    requires events != []
    ensures HasSuccess(events) <==> HasSuccess(events[..|events| - 1]) || events[|events| - 1].Success?
  {
    var n := |events| - 1;
    assert forall i | 0 <= i < n :: events[..n][i] == events[i];
  }

  lemma {:induction false} FailuresSinceAppend(early: seq<Event>, late: seq<Event>)
    ensures FailuresSince(early + late) ==
            if HasSuccess(late) then FailuresSince(late) else FailuresSince(early) + Failures(late)
  {
    if late == [] {
      assert early + late == early;
    } else {
      var n := |late| - 1;
      var all := early + late;
      HasSuccessSnoc(late);
      assert all[..|all| - 1] == early + late[..n] && all[|all| - 1] == late[n];
      FailuresSinceAppend(early, late[..n]);
      hide HasSuccess;
    }
  }

  /** After a success it does not matter what the cell was before. */
  lemma {:induction false} SuccessForgets(c: Cell, events: seq<Event>, defaultCooldown: real)
    requires HasSuccess(events)
    ensures RunFrom(c, events, defaultCooldown) == Run(events, defaultCooldown)
  {
    HasSuccessSnoc(events);
    if !events[|events| - 1].Success? {
      SuccessForgets(c, events[..|events| - 1], defaultCooldown);
    }
    hide HasSuccess;
  }

  /** A circuit that starts closed trips at the first failure that brings its counter to the
      threshold. */
  lemma {:induction false} TripsFrom(c: Cell, events: seq<Event>, threshold: int, defaultCooldown: real)
    requires c.state == Closed && !HasSuccess(events) && FixedThreshold(events, threshold)
    ensures var r := RunFrom(c, events, defaultCooldown);
            && (r.state != Closed <==> Failures(events) >= 1 && c.failures + Failures(events) >= threshold)
            && (r.state == Closed ==> r.failures == c.failures + Failures(events))
  {
    if events != [] {
      HasSuccessSnoc(events);
      TripsFrom(c, events[..|events| - 1], threshold, defaultCooldown);
      hide HasSuccess;
    }
  }

  /** A counter that starts at zero never exceeds the failures since the last success: a failure
      on a half-open circuit is not counted. */
  lemma {:induction false} CounterAtMost(c: Cell, events: seq<Event>, defaultCooldown: real)
    requires c.failures == 0
    ensures 0 <= RunFrom(c, events, defaultCooldown).failures <= FailuresSince(events)
  {
    if events != [] {
      CounterAtMost(c, events[..|events| - 1], defaultCooldown);
    }
  }

  /** The trip is lost: no other success came after the state was set, and either no failure did,
      or the counter the earlier ones left does not bring those to the threshold. */
  predicate HidesTrip(c: Cell, early: seq<Event>, late: seq<Event>, threshold: int, defaultCooldown: real) {
    && FailuresSince(early + late) >= threshold && !HasSuccess(late)
    && (Failures(late) == 0
        || RunFrom(DropCounter(c), early, defaultCooldown).failures + Failures(late) < threshold)
  }

  /** From any cell and for any operations between the three commands, counting failures from the
      first command on: the circuit ends not CLOSED exactly when at least `threshold` failures came
      since the last success, unless the interleaving hides the trip; it never opens falsely. */
  lemma InterleavedSuccessExactly(c: Cell, early: seq<Event>, late: seq<Event>, threshold: int, defaultCooldown: real)
    requires threshold >= 1 && FixedThreshold(early, threshold) && FixedThreshold(late, threshold)
    ensures var r, failures := Interleaved(c, early, late, defaultCooldown), FailuresSince(early + late);
            && ((r.state != Closed <==> failures >= threshold) <==> !HidesTrip(c, early, late, threshold, defaultCooldown))
            && (r.state != Closed ==> failures >= threshold)
  {
    var counted := RunFrom(DropCounter(c), early, defaultCooldown);
    FailuresSinceAppend(early, late);
    if HasSuccess(late) {
      SuccessForgets(MarkClosed(counted), late, defaultCooldown);
      StateOfHistory(late, threshold, defaultCooldown);
    } else {
      TripsFrom(MarkClosed(counted), late, threshold, defaultCooldown);
      CounterAtMost(DropCounter(c), early, defaultCooldown);
    }
    hide RunFrom, FailuresSince, HasSuccess, Failures;
  }

  /** An interleaving that leaves the circuit open has deleted the time of the trip: the next query
      half-opens it as soon as the clock itself shows the cooldown. */
  lemma InterleavedSuccessLosesTheTime(c: Cell, early: seq<Event>, late: seq<Event>, now: real, cooldown: real,
                                       defaultCooldown: real)
    ensures var r := Interleaved(c, early, late, defaultCooldown);
            r.openedAt == None && (r.state == Open ==> (Queried(r, now, cooldown).state == HalfOpen <==> now >= cooldown))
  {
  }

  function FailuresAt(now: real, threshold: int, n: nat): seq<Event> {
    if n == 0 then [] else FailuresAt(now, threshold, n - 1) + [Failure(now, threshold)]
  }

  lemma {:induction false} FailingLength(now: real, threshold: int, n: nat)
    ensures |FailuresAt(now, threshold, n)| == n
  {
    if n > 0 { FailingLength(now, threshold, n - 1); }
  }

  lemma FailingLast(now: real, threshold: int, n: nat)
    requires n > 0
    ensures var events := FailuresAt(now, threshold, n);
            |events| == n && events[n - 1] == Failure(now, threshold) && events[..n - 1] == FailuresAt(now, threshold, n - 1)
  {
    FailingLength(now, threshold, n - 1);
  }

  lemma {:induction false} FailingFacts(now: real, threshold: int, n: nat)
    ensures var events := FailuresAt(now, threshold, n);
            && FixedThreshold(events, threshold) && FailuresSince(events) == n == Failures(events) && !HasSuccess(events)
            && LastFailure(events) == if n == 0 then None else Some(now)
  {
    if n > 0 {
      var events := FailuresAt(now, threshold, n);
      FailingLast(now, threshold, n);
      FailingFacts(now, threshold, n - 1);
      HasSuccessSnoc(events);
      hide HasSuccess, FailuresAt;
    }
  }

  /** Failures on a half-open circuit: the first reopens it without being counted. */
  lemma {:induction false} FailingHalfOpen(c: Cell, now: real, threshold: int, n: nat, defaultCooldown: real)
    requires c.state == HalfOpen && n >= 1
    ensures var r := RunFrom(c, FailuresAt(now, threshold, n), defaultCooldown);
            r.failures == c.failures + n - 1 && r.state == Open
  {
    FailingLast(now, threshold, n);
    if n > 1 {
      FailingHalfOpen(c, now, threshold, n - 1, defaultCooldown);
    }
    hide FailuresAt;
  }

  /** Recovery is where this happens: on a half-open circuit, `threshold` failures between the first
      two commands of the probe's success reopen it, are one short on the counter, and are hidden. */
  lemma RecoveryHidesTrip(c: Cell, now: real, threshold: int, defaultCooldown: real)
    requires threshold >= 1 && c.state == HalfOpen
    ensures var early := FailuresAt(now, threshold, threshold);
            var r := Interleaved(c, early, [], defaultCooldown);
            && HidesTrip(c, early, [], threshold, defaultCooldown)
            && RunFrom(DropCounter(c), early, defaultCooldown).state == Open
            && r.state == Closed && r.failures == threshold - 1
  {
    var early := FailuresAt(now, threshold, threshold);
    FailingFacts(now, threshold, threshold);
    FailingHalfOpen(DropCounter(c), now, threshold, threshold, defaultCooldown);
    FailuresSinceAppend(early, []);
    var counted := RunFrom(DropCounter(c), early, defaultCooldown);
    assert !HasSuccess([]) && Failures([]) == 0;
    assert RunFrom(MarkClosed(counted), [], defaultCooldown) == MarkClosed(counted);
    hide RunFrom, FailuresSince, HasSuccess, Failures, FailuresAt;
  }

  /** A half-open circuit is reached: enough failures, then a query after the cooldown. */
  lemma HalfOpenIsReached(now: real, threshold: int, defaultCooldown: real)
    requires threshold >= 1
    ensures var events := FailuresAt(now, threshold, threshold) + [Query(now + defaultCooldown, None)];
            Run(events, defaultCooldown).state == HalfOpen
  {
    var front := FailuresAt(now, threshold, threshold);
    var events := front + [Query(now + defaultCooldown, None)];
    FailingFacts(now, threshold, threshold);
    assert events[..|front|] == front;
    StateOfHistory(front, threshold, defaultCooldown);
  }
}
