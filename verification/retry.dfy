/** One node under retries: backoff, circuit breaker, and the dead letter queue. */
module Retry {
  import opened Schema
  import opened Breaker

  // --- Backoff ---

  datatype BackoffKind = Exponential | Fixed | Linear

  /** `maxAttempts` is any integer: a policy given as a plain dictionary is not range-checked. */
  datatype Policy = Policy(maxAttempts: int, backoff: BackoffKind, initial: real, maximum: real, jitter: bool)

  function Min(a: real, b: real): real {
    if a <= b then a else b
  }

  function Pow2(n: nat): real {
    if n == 0 then 1.0 else 2.0 * Pow2(n - 1)
  }

  function Times(a: real, b: real): real {
    a * b
  }

  /** What the initial interval is multiplied by. */
  function Multiplier(attempt: int, kind: BackoffKind): real {
    var n := if attempt < 1 then 1 else attempt;
    match kind
    case Fixed => 1.0
    case Linear => n as real
    case Exponential => Pow2(n - 1)
  }

  function BaseInterval(attempt: int, p: Policy): real {
    if p.backoff == Fixed then p.initial
    else Min(p.maximum, Times(p.initial, Multiplier(attempt, p.backoff)))
  }

  /** `luck` is the random position inside the jitter band, from 0 to 1. */
  function CalculateBackoff(attempt: int, p: Policy, luck: real): real {
    var base := BaseInterval(attempt, p);
    if p.jitter && base > 0.0 then 0.5 * base + Times(0.5 * base, luck) else base
  }

  lemma {:induction false} Pow2Monotone(m: nat, n: nat)
    requires m <= n
    ensures 1.0 <= Pow2(m) <= Pow2(n)
    decreases n
  {
    if n == 0 {
    } else if m == n {
      Pow2Monotone(m - 1, n - 1);
    } else {
      Pow2Monotone(m, n - 1);
    }
  }

  lemma Scale(x: real, a: real, b: real)
    requires 0.0 <= x && a <= b
    ensures Times(x, a) <= Times(x, b)
  {
  }

  lemma MultiplierMonotone(a: int, b: int, kind: BackoffKind)
    requires a <= b
    ensures Multiplier(a, kind) <= Multiplier(b, kind)
  {
    var m, n := if a < 1 then 1 else a, if b < 1 then 1 else b;
    Pow2Monotone(m - 1, n - 1);
  }

  lemma BaseMonotone(a: int, b: int, p: Policy)
    requires a <= b && p.initial >= 0.0
    ensures BaseInterval(a, p) <= BaseInterval(b, p)
  {
    hide Multiplier, Times;
    MultiplierMonotone(a, b, p.backoff);
    Scale(p.initial, Multiplier(a, p.backoff), Multiplier(b, p.backoff));
  }

  /** Without jitter the interval never shrinks; exponential and linear backoff never exceed
      the maximum, and fixed backoff ignores it. With jitter it stays within the upper half
      of the jitter-free interval. */
  lemma BackoffShape(a: int, b: int, p: Policy, luck: real)
    requires a <= b && p.initial >= 0.0 && 0.0 <= luck <= 1.0
    ensures !p.jitter ==> CalculateBackoff(a, p, luck) <= CalculateBackoff(b, p, luck)
    ensures p.backoff != Fixed ==> BaseInterval(b, p) <= p.maximum
    ensures p.backoff == Fixed ==> BaseInterval(b, p) == p.initial
    ensures var base := BaseInterval(b, p);
            base > 0.0 ==> 0.5 * base <= CalculateBackoff(b, p, luck) <= base
  {
    BaseMonotone(a, b, p);
    var base := BaseInterval(b, p);
    hide BaseInterval;
    if base > 0.0 {
      var half := 0.5 * base;
      Scale(half, luck, 1.0);
      Scale(half, 0.0, luck);
    }
  }

  /** The interval before an attempt: exponential backoff starts at the initial interval and doubles,
      linear backoff is the initial interval times the attempt, both up to the maximum; fixed backoff
      is the initial interval. Attempts below one count as the first. */
  lemma IntervalExactly(attempt: int, p: Policy)
    ensures p.backoff == Fixed ==> BaseInterval(attempt, p) == p.initial
    ensures p.backoff == Linear && attempt >= 1 ==>
              BaseInterval(attempt, p) ==
              if p.initial * attempt as real <= p.maximum then p.initial * attempt as real else p.maximum
    ensures p.backoff == Exponential && attempt <= 1 ==>
              BaseInterval(attempt, p) == if p.initial <= p.maximum then p.initial else p.maximum
    ensures p.backoff == Exponential && attempt >= 1 && p.initial >= 0.0 && p.maximum >= 0.0 ==>
              BaseInterval(attempt + 1, p) ==
              if 2.0 * BaseInterval(attempt, p) <= p.maximum then 2.0 * BaseInterval(attempt, p) else p.maximum
    ensures attempt < 1 ==> BaseInterval(attempt, p) == BaseInterval(1, p)
  {
    if p.backoff == Exponential && attempt >= 1 && p.initial >= 0.0 {
      Pow2Monotone(0, attempt - 1);
      var x := Times(p.initial, Pow2(attempt - 1));
      assert x >= 0.0;
      assert Pow2(attempt) == 2.0 * Pow2(attempt - 1);
      assert Times(p.initial, Pow2(attempt)) == 2.0 * x;
      hide Pow2, Times;
    }
  }

  /** Without jitter the pause is the interval; with jitter it lies between half of it and all of it,
      as far along as the draw says. */
  lemma JitterExactly(attempt: int, p: Policy, luck: real)
    ensures var base := BaseInterval(attempt, p);
            CalculateBackoff(attempt, p, luck) == if p.jitter && base > 0.0 then (base + base * luck) / 2.0 else base
  {
    var base := BaseInterval(attempt, p);
    hide BaseInterval;
    assert Times(0.5 * base, luck) == (base * luck) / 2.0;
  }

  /** For instance: exponential backoff from a tenth of a second pauses 0.8 seconds before the fourth attempt. */
  lemma FourthAttempt(p: Policy, luck: real)
    requires p == Policy(p.maxAttempts, Exponential, 0.1, 30.0, false)
    ensures CalculateBackoff(4, p, luck) == 0.8
  {
    IntervalExactly(1, p);
    IntervalExactly(2, p);
    IntervalExactly(3, p);
    JitterExactly(4, p, luck);
    hide BaseInterval, CalculateBackoff;
  }

  // --- Attempts ---

  datatype ErrorCategory = Transient | Permanent | CircuitOpen

  /** How an attempt ends. `Unbooked` is a dispatch that produced its output, but an exception came
      while that was being recorded; `cleared` says whether the breaker had taken the success by then. */
  datatype Dispatch =
    | Output(value: string)
    | Raised(category: ErrorCategory)
    | Unbooked(value: string, cleared: bool, category: ErrorCategory)

  type Dispatches = int -> Dispatch

  const TRIP := 3

  predicate IsTransient(d: Dispatch) {
    !d.Output? && d.category == Transient
  }

  lemma TransientIs(d: Dispatch)
    ensures IsTransient(d) <==> !d.Output? && d.category == Transient
  {
  }

  /** The value of the attempt counter when the loop ends. */
  function FinalAttempt(dispatch: Dispatches, attempt: int, maxAttempts: int): int
    decreases maxAttempts - attempt + 1
  {
    if attempt > maxAttempts || !IsTransient(dispatch(attempt)) then attempt
    else FinalAttempt(dispatch, attempt + 1, maxAttempts)
  }

  /** The counter stops at the first dispatch that is not a transient failure, or one past
      the maximum when there is none. */
  lemma {:induction false} FinalAttemptIs(dispatch: Dispatches, attempt: int, maxAttempts: int)
    requires attempt <= maxAttempts + 1
    ensures var f := FinalAttempt(dispatch, attempt, maxAttempts);
            && attempt <= f <= maxAttempts + 1
            && (forall a | attempt <= a < f :: !dispatch(a).Output? && dispatch(a).category == Transient)
            && (f <= maxAttempts ==> dispatch(f).Output? || dispatch(f).category != Transient)
    decreases maxAttempts - attempt + 1
  {
    if attempt <= maxAttempts && IsTransient(dispatch(attempt)) {
      FinalAttemptIs(dispatch, attempt + 1, maxAttempts);
    }
  }

  lemma FinalAttemptStep(dispatch: Dispatches, attempt: int, maxAttempts: int)
    ensures FinalAttempt(dispatch, attempt, maxAttempts) ==
            if attempt <= maxAttempts && IsTransient(dispatch(attempt)) then FinalAttempt(dispatch, attempt + 1, maxAttempts)
            else attempt
  {
  }

  function LesserInt(a: int, b: int): int {
    if a <= b then a else b
  }

  // --- One execution ---

  datatype DeadLetter = DeadLetter(nodeId: string, category: ErrorCategory, attempts: int)

  datatype StepState = StepSuccess | StepFailed

  datatype Environment = Environment(
    dispatch: Dispatches,
    clock: int -> real,
    luck: int -> real)

  /** The cell once an attempt has told the breaker of its output, if it did. */
  function Cleared(c: Cell, d: Dispatch): Cell {
    if d.Unbooked? && d.cleared then FRESH else c
  }

  /** The cell after `n` transient failures at the threshold the engine uses, the `a`-th at `clock(a)`. */
  function AfterFailures(c: Cell, env: Environment, n: nat): Cell {
    if n == 0 then c else Failed(Cleared(AfterFailures(c, env, n - 1), env.dispatch(n)), env.clock(n), TRIP)
  }

  lemma NoFailures(c: Cell, env: Environment)
    ensures AfterFailures(c, env, 0) == c
  {
  }

  lemma OneMoreFailure(c: Cell, env: Environment, n: nat)
    ensures AfterFailures(c, env, n + 1) == Failed(Cleared(AfterFailures(c, env, n), env.dispatch(n + 1)), env.clock(n + 1), TRIP)
  {
    hide Failed, Cleared;
  }

  /** The pauses before the second to the `n`-th dispatch, none longer than two seconds. */
  function Pauses(p: Policy, env: Environment, n: nat): (total: real)
    ensures n <= 1 ==> total == 0.0
    ensures n > 1 ==> total <= 2.0 * (n - 1) as real
  {
    if n <= 1 then 0.0
    else
      var backoff := CalculateBackoff(n, p, env.luck(n));
      Pauses(p, env, n - 1) + if backoff <= 2.0 then backoff else 2.0
  }

  /** No pause before the first dispatch, and before each further one the lesser of its backoff and two
      seconds. */
  lemma PausesAddUp(p: Policy, env: Environment, n: nat)
    requires n >= 1
    ensures Pauses(p, env, 0) == Pauses(p, env, 1) == 0.0
    ensures var backoff := CalculateBackoff(n + 1, p, env.luck(n + 1));
            Pauses(p, env, n + 1) - Pauses(p, env, n) == if backoff < 2.0 then backoff else 2.0
  {
    hide CalculateBackoff;
  }

  /** What every history at the engine's threshold guarantees about a cell. */
  predicate Consistent(c: Cell) {
    c.failures >= 0 && (c.state != Closed ==> c.failures >= 3)
  }

  /** How many of the last of `n` attempts the breaker counts together: those since it last took a
      success, that attempt included. */
  function Streak(dispatch: Dispatches, n: nat): nat {
    if n == 0 then 0
    else if dispatch(n).Unbooked? && dispatch(n).cleared then 1
    else Streak(dispatch, n - 1) + 1
  }

  lemma {:induction false} StreakAtMost(dispatch: Dispatches, n: nat)
    ensures Streak(dispatch, n) <= n && (n >= 1 ==> Streak(dispatch, n) >= 1)
    ensures Streak(dispatch, n) == n <==> forall a | 2 <= a <= n :: !(dispatch(a).Unbooked? && dispatch(a).cleared)
  {
    if n > 0 { StreakAtMost(dispatch, n - 1); }
  }

  /** Three or more transient failures in a row leave the circuit open, counted from the last of
      them, whatever its state was before. Where a success came in between, the circuit ends open
      exactly when three came since. */
  lemma {:induction false} ThreeFailuresOpen(c: Cell, env: Environment, n: nat)
    requires Consistent(c)
    ensures var after, streak := AfterFailures(c, env, n), Streak(env.dispatch, n);
            && Consistent(after)
            && (after.failures >= streak || after.failures >= 3)
            && (n >= 1 ==> after.state != HalfOpen)
            && (streak >= 3 ==> after.state == Open && after.openedAt == Some(env.clock(n)))
            && (streak < n ==> after.failures == streak && (after.state == Open <==> streak >= 3))
  {
    if n > 0 {
      ThreeFailuresOpen(c, env, n - 1);
      StreakAtMost(env.dispatch, n - 1);
    }
  }

  // --- The engine's node execution ---

  datatype NodeResult = NodeResult(success: bool, output: Option<string>)

  /** The cell when the loop has ended without a result at attempt `f`. */
  function CellAfter(c: Cell, env: Environment, f: int, maxAttempts: int): Cell
    requires f >= 1
  {
    var before := AfterFailures(c, env, f - 1);
    if f <= maxAttempts then Cleared(before, env.dispatch(f)) else before
  }

  /** What one execution of a node does, as a function of the environment: dispatches made,
      the result, the dead letters it adds, and the connection's cell afterwards. */
  datatype Execution = Execution(result: NodeResult, dispatches: nat, letters: seq<DeadLetter>, cell: Cell)

  lemma FinalAttemptPositive(dispatch: Dispatches, maxAttempts: int)
    ensures FinalAttempt(dispatch, 1, maxAttempts) >= 1
  {
    if maxAttempts >= 0 {
      FinalAttemptIs(dispatch, 1, maxAttempts);
    }
  }

  function Executed(nodeId: string, connected: bool, c: Cell, cooldown: real, p: Policy, env: Environment): Execution
  {
    var entry := if connected then Queried(c, env.clock(0), cooldown) else c;
    if connected && entry.state == Open then
      Execution(NodeResult(false, None), 0, [DeadLetter(nodeId, CircuitOpen, 1)], entry)
    else
      FinalAttemptPositive(env.dispatch, p.maxAttempts);
      var f := FinalAttempt(env.dispatch, 1, p.maxAttempts);
      if f <= p.maxAttempts && env.dispatch(f).Output? then
        Execution(NodeResult(true, Some(env.dispatch(f).value)), f, [], if connected then FRESH else c)
      else
        var last := if f <= p.maxAttempts then env.dispatch(f).category else Transient;
        Execution(NodeResult(false, None), if f <= p.maxAttempts then f else f - 1,
                  [DeadLetter(nodeId, last, LesserInt(f, p.maxAttempts))],
                  if connected then CellAfter(entry, env, f, p.maxAttempts) else c)
  }

  class NodeRunner {
    const store: MemoryStateStore
    var letters: seq<DeadLetter>
    var step: StepState

    constructor (store: MemoryStateStore)
      ensures this.store == store && letters == []
    {
      this.store := store;
      letters := [];
      step := StepFailed;
    }

    ghost function Entry(connection: Option<string>): Cell
      reads store
    {
      if connection.Some? then store.CellOf(connection.value) else FRESH
    }

    /** Sleeping between attempts is capped at two seconds. */
    method BackOff(attempt: int, p: Policy, env: Environment) returns (slept: real)
      ensures var backoff := CalculateBackoff(attempt, p, env.luck(attempt));
              slept == if backoff <= 2.0 then backoff else 2.0
    {
      var backoff := CalculateBackoff(attempt, p, env.luck(attempt));
      slept := Min(backoff, 2.0);
    }

    /** The retry loop: dispatch, and back off and try again while failures are transient.
        `dispatches` and `slept` are what it really did. */
    method Attempts(connection: Option<string>, p: Policy, env: Environment)
        returns (output: Option<string>, attempt: int, category: ErrorCategory, ghost dispatches: nat, ghost slept: real)
      modifies store
      ensures attempt == FinalAttempt(env.dispatch, 1, p.maxAttempts) && attempt >= 1
      ensures attempt <= p.maxAttempts ==>
                if output.Some? then env.dispatch(attempt) == Output(output.value)
                else !env.dispatch(attempt).Output? && env.dispatch(attempt).category == category
      ensures attempt > p.maxAttempts ==> output.None? && category == Transient
      ensures dispatches == if attempt <= p.maxAttempts then attempt else attempt - 1
      ensures connection.Some? ==>
                store.CellOf(connection.value) ==
                if output.Some? then FRESH else CellAfter(old(Entry(connection)), env, attempt, p.maxAttempts)
      ensures forall id | connection != Some(id) :: store.CellOf(id) == old(store.CellOf(id))
      ensures dispatches <= 1 ==> slept == 0.0
      ensures dispatches > 1 ==> slept <= 2.0 * (dispatches - 1) as real
      ensures slept == Pauses(p, env, dispatches)
    {
      hide FinalAttempt, AfterFailures, Failed, CalculateBackoff, IsTransient;
      dispatches, slept := 0, 0.0;
      output, category, attempt := None, Transient, 1;
      ghost var entry := Entry(connection);
      NoFailures(entry, env);
      while attempt <= p.maxAttempts
        invariant attempt >= 1 && dispatches == attempt - 1
        invariant FinalAttempt(env.dispatch, 1, p.maxAttempts) == FinalAttempt(env.dispatch, attempt, p.maxAttempts)
        invariant category == Transient
        invariant connection.Some? ==> store.CellOf(connection.value) == AfterFailures(entry, env, attempt - 1)
        invariant forall id | connection != Some(id) :: store.CellOf(id) == old(store.CellOf(id))
        invariant slept == Pauses(p, env, dispatches)
        decreases p.maxAttempts - attempt
      {
        if attempt > 1 {
          var pause := BackOff(attempt, p, env);
          slept := slept + pause;
        }
        dispatches := dispatches + 1;
        FinalAttemptStep(env.dispatch, attempt, p.maxAttempts);
        TransientIs(env.dispatch(attempt));
        OneMoreFailure(entry, env, attempt - 1);
        match env.dispatch(attempt) {
          case Output(value) =>
            if connection.Some? {
              var _ := store.RecordSuccess(connection.value);
            }
            output := Some(value);
            return;
          case Raised(raised) =>
            category := raised;
          case Unbooked(_, cleared, raised) =>
            if connection.Some? && cleared {
              var _ := store.RecordSuccess(connection.value);
            }
            category := raised;
        }
        if connection.Some? && category == Transient {
          var _ := store.RecordFailure(connection.value, TRIP, env.clock(attempt));
        }
        if category != Transient {
          return;
        }
        attempt := attempt + 1;
      }
      FinalAttemptStep(env.dispatch, attempt, p.maxAttempts);
    }

    /** One node: fast-fail on an open circuit, otherwise attempt it, and send a node that
        failed to the dead letter queue. */
    method ExecuteNode(nodeId: string, connection: Option<string>, p: Policy, env: Environment)
        returns (r: NodeResult, ghost dispatches: nat, ghost slept: real)
      modifies this, store
      ensures var e := Executed(nodeId, connection.Some?, old(Entry(connection)), store.defaultCooldown, p, env);
              && r == e.result && dispatches == e.dispatches
              && letters == old(letters) + e.letters
              && step == (if r.success then StepSuccess else StepFailed)
              && (connection.Some? ==> store.CellOf(connection.value) == e.cell)
      ensures forall id | connection != Some(id) :: store.CellOf(id) == old(store.CellOf(id))
      ensures dispatches <= 1 ==> slept == 0.0
      ensures dispatches > 1 ==> slept <= 2.0 * (dispatches - 1) as real
      ensures slept == Pauses(p, env, dispatches)
    {
      hide Queried, FinalAttempt, AfterFailures;
      dispatches, slept := 0, 0.0;
      if connection.Some? {
        var state := store.GetState(connection.value, None, env.clock(0));
        if state == Open {
          step := StepFailed;
          letters := letters + [DeadLetter(nodeId, CircuitOpen, 1)];
          return NodeResult(false, None), dispatches, slept;
        }
      }
      var output, attempt, category, made, paused := Attempts(connection, p, env);
      dispatches, slept := made, paused;
      if output.Some? {
        step := StepSuccess;
        return NodeResult(true, output), dispatches, slept;
      }
      step := StepFailed;
      letters := letters + [DeadLetter(nodeId, category, LesserInt(attempt, p.maxAttempts))];
      r := NodeResult(false, None);
    }
  }

  // --- What that amounts to ---

  /** When the circuit is not open at entry: a failing node leaves exactly one dead letter, a
      succeeding one none; at most `maxAttempts` dispatches are made; all but the last failed
      transiently; and the letter's count is the number of dispatches exactly when the
      maximum is not negative. */
  lemma DeadLetterTellsTheTruth(nodeId: string, connected: bool, c: Cell, cooldown: real, p: Policy, env: Environment)
    requires connected ==> Queried(c, env.clock(0), cooldown).state != Open
    ensures var e := Executed(nodeId, connected, c, cooldown, p, env);
            && (e.result.success ==> e.letters == [] && e.dispatches >= 1 && env.dispatch(e.dispatches).Output?)
            && (!e.result.success ==> |e.letters| == 1 && e.letters[0].nodeId == nodeId)
            && (!e.result.success && e.dispatches > 0 ==>
                  !env.dispatch(e.dispatches).Output? && env.dispatch(e.dispatches).category == e.letters[0].category)
            && (forall a | 1 <= a < e.dispatches :: IsTransient(env.dispatch(a)))
            && e.dispatches <= (if p.maxAttempts < 0 then 0 else p.maxAttempts)
            && (!e.result.success && e.letters[0].category == Transient && p.maxAttempts >= 0 ==>
                  e.dispatches == p.maxAttempts)
            && (!e.result.success ==> (e.letters[0].attempts == e.dispatches <==> p.maxAttempts >= 0))
  {
    if p.maxAttempts >= 0 {
      FinalAttemptIs(env.dispatch, 1, p.maxAttempts);
    }
  }

  /** What a node does to its connection's breaker, and what a refusal leaves: an open circuit stays as
      it was queried, with one dead letter for one attempt; a success closes the circuit for good; and
      otherwise the transient failures count, unless the last attempt told the breaker of its output. */
  lemma CellExactly(nodeId: string, c: Cell, cooldown: real, p: Policy, env: Environment)
    ensures var e, entry := Executed(nodeId, true, c, cooldown, p, env), Queried(c, env.clock(0), cooldown);
            && (entry.state == Open ==>
                  e == Execution(NodeResult(false, None), 0, [DeadLetter(nodeId, CircuitOpen, 1)], entry))
            && (e.result.success ==> e.cell == Cell(0, Closed, None) && e.result.output == Some(env.dispatch(e.dispatches).value))
            && (entry.state != Open && !e.result.success && e.dispatches > 0 ==>
                  e.result.output == None
                  && var last := env.dispatch(e.dispatches);
                  !last.Output?
                  && e.cell == if last.category == Transient then AfterFailures(entry, env, e.dispatches)
                               else if last.Unbooked? && last.cleared then Cell(0, Closed, None)
                               else AfterFailures(entry, env, e.dispatches - 1))
    ensures Executed(nodeId, false, c, cooldown, p, env).cell == c
  {
    FinalAttemptPositive(env.dispatch, p.maxAttempts);
    if p.maxAttempts >= 0 {
      FinalAttemptIs(env.dispatch, 1, p.maxAttempts);
    }
    hide AfterFailures, FinalAttempt, Queried;
  }

  /** Over all inputs, the attempts a dead letter reports are the dispatches made exactly when the
      node was not refused by an open circuit, where it reports one attempt and makes none, and
      the maximum is not negative, where it reports the maximum and makes none. */
  lemma LetterCountsExactly(nodeId: string, connected: bool, c: Cell, cooldown: real, p: Policy, env: Environment)
    ensures var e := Executed(nodeId, connected, c, cooldown, p, env);
            var refused := connected && Queried(c, env.clock(0), cooldown).state == Open;
            !e.result.success ==>
              |e.letters| == 1
              && (e.letters[0].attempts == e.dispatches <==> !refused && p.maxAttempts >= 0)
  {
    if !(connected && Queried(c, env.clock(0), cooldown).state == Open) {
      DeadLetterTellsTheTruth(nodeId, connected, c, cooldown, p, env);
    }
  }

  /** How many of the first `n` dispatches produced their output, recorded or not. */
  function Deliveries(dispatch: Dispatches, n: nat): nat {
    if n == 0 then 0 else Deliveries(dispatch, n - 1) + if dispatch(n).Raised? then 0 else 1
  }

  lemma {:induction false} NoDeliveries(dispatch: Dispatches, n: nat)
    requires forall a | 1 <= a <= n :: !dispatch(a).Output?
    ensures Deliveries(dispatch, n) == 0 <==> forall a | 1 <= a <= n :: !dispatch(a).Unbooked?
  {
    if n > 0 { NoDeliveries(dispatch, n - 1); }
  }

  /** A node that succeeds has produced its output once, and one that fails never, exactly when none
      of its dispatches was thrown away by an exception while its success was being recorded. */
  lemma DeliversOnceExactly(nodeId: string, connected: bool, c: Cell, cooldown: real, p: Policy, env: Environment)
    ensures var e := Executed(nodeId, connected, c, cooldown, p, env);
            Deliveries(env.dispatch, e.dispatches) == (if e.result.success then 1 else 0) <==>
            forall a | 1 <= a <= e.dispatches :: !env.dispatch(a).Unbooked?
  {
    var e := Executed(nodeId, connected, c, cooldown, p, env);
    FinalAttemptPositive(env.dispatch, p.maxAttempts);
    if e.dispatches > 0 {
      FinalAttemptIs(env.dispatch, 1, p.maxAttempts);
      var n: nat := if e.result.success then e.dispatches - 1 else e.dispatches;
      assert forall a | 1 <= a <= n :: !env.dispatch(a).Output?;
      NoDeliveries(env.dispatch, n);
      if e.result.success {
        assert env.dispatch(n + 1).Output?;
        assert Deliveries(env.dispatch, n + 1) == Deliveries(env.dispatch, n) + 1;
        assert (forall a | 1 <= a <= n + 1 :: !env.dispatch(a).Unbooked?) <==> forall a | 1 <= a <= n :: !env.dispatch(a).Unbooked?;
      }
      hide Deliveries;
    }
  }

  /** Such a node: a transient exception while the first output is recorded runs it a second time. */
  lemma UnbookedRunsAgain(nodeId: string, first: string, second: string, cleared: bool, p: Policy, env: Environment)
    requires p.maxAttempts >= 2
    requires env.dispatch(1) == Unbooked(first, cleared, Transient) && env.dispatch(2) == Output(second)
    ensures var e := Executed(nodeId, false, FRESH, 0.0, p, env);
            e.result == NodeResult(true, Some(second)) && e.dispatches == 2 && Deliveries(env.dispatch, 2) == 2
  {
    FinalAttemptStep(env.dispatch, 1, p.maxAttempts);
    FinalAttemptStep(env.dispatch, 2, p.maxAttempts);
    assert Deliveries(env.dispatch, 1) == 1;
  }

  /** After a node has burnt three or more transient attempts on a connection, the circuit is open
      exactly when three of them came since the breaker last took a success; then the next node on it
      that starts within the cooldown is refused without a dispatch. */
  lemma ExhaustionProtectsTheNext(first: string, second: string, c: Cell, cooldown: real, p: Policy, env: Environment,
                                  p': Policy, env': Environment)
    requires Consistent(c) && p.maxAttempts >= 3
    requires Queried(c, env.clock(0), cooldown).state != Open
    requires forall a | 1 <= a <= p.maxAttempts :: IsTransient(env.dispatch(a))
    requires env'.clock(0) - env.clock(p.maxAttempts) < cooldown
    ensures var e := Executed(first, true, c, cooldown, p, env);
            && e.dispatches == p.maxAttempts
            && (e.cell.state == Open <==> Streak(env.dispatch, p.maxAttempts) >= 3)
            && (e.cell.state == Open ==>
                  Executed(second, true, e.cell, cooldown, p', env').dispatches == 0
                  && !Executed(second, true, e.cell, cooldown, p', env').result.success)
  {
    var entry := Queried(c, env.clock(0), cooldown);
    FinalAttemptIs(env.dispatch, 1, p.maxAttempts);
    ThreeFailuresOpen(entry, env, p.maxAttempts);
    hide FinalAttempt, AfterFailures, Streak;
  }
}
