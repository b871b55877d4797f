/** The in-memory trace store with first-in, first-out eviction. */
module Traces {
  import opened Schema

  datatype Span = Span(traceId: string, spanId: string, startTime: real)

  datatype Stored = Stored(traces: map<string, seq<Span>>, order: seq<string>)

  /** One span recorded; `None` is the IndexError of evicting from an empty list. */
  function Recorded(s: Stored, cap: int, span: Span): Option<Stored> {
    var id := span.traceId;
    if id in s.traces then Some(s.(traces := s.traces[id := s.traces[id] + [span]]))
    else if |s.order| < cap then Some(Stored(s.traces[id := [span]], s.order + [id]))
    else if s.order == [] then None
    else Some(Stored((s.traces - {s.order[0]})[id := [span]], s.order[1..] + [id]))
  }

  class TraceStore {
    var traces: map<string, seq<Span>>
    var traceOrder: seq<string>
    const maxTraces: int

    function State(): Stored
      reads this
    {
      Stored(traces, traceOrder)
    }

    constructor (maxTraces: int)
      ensures State() == Stored(map[], []) && this.maxTraces == maxTraces
    {
      this.maxTraces := maxTraces;
      traces, traceOrder := map[], [];
    }

    method RecordSpan(span: Span) returns (ok: bool)
      modifies this
      ensures var r := Recorded(old(State()), maxTraces, span);
              ok == r.Some? && State() == if ok then r.value else old(State())
    {
      var id := span.traceId;
      if id !in traces {
        if |traceOrder| >= maxTraces {
          if |traceOrder| == 0 {
            return false;
          }
          var oldest := traceOrder[0];
          traceOrder := traceOrder[1..];
          traces := traces - {oldest};
        }
        ghost var room := traces;
        traces := traces[id := []];
        traceOrder := traceOrder + [id];
        assert traces[id] + [span] == [span];
        assert traces[id := [span]] == room[id := [span]];
      }
      traces := traces[id := traces[id] + [span]];
      ok := true;
    }
  }

  // --- Whole runs, judged against the plain list of spans ---

  /** The store after recording `spans`; a failed call leaves it as it was. */
  function After(cap: int, spans: seq<Span>): Stored {
    if spans == [] then Stored(map[], [])
    else
      var before := After(cap, spans[..|spans| - 1]);
      var r := Recorded(before, cap, spans[|spans| - 1]);
      if r.Some? then r.value else before
  }

  function Newest(s: seq<nat>, n: nat): seq<nat> {
    if |s| <= n then s else s[|s| - n..]
  }

  /** Where in `spans` a trace was admitted: at its first span, and again at its first span
      after `cap` later admissions have pushed it out. */
  function Admissions(cap: nat, spans: seq<Span>): seq<nat> {
    if spans == [] then []
    else
      var n := |spans| - 1;
      var earlier := Admissions(cap, spans[..n]);
      if exists k :: k in Newest(earlier, cap) && k < n && spans[k].traceId == spans[n].traceId then earlier else earlier + [n]
  }

  /** The spans of one trace, in the order they were recorded. */
  function SpansOf(spans: seq<Span>, id: string): seq<Span> {
    if spans == [] then []
    else
      var n := |spans| - 1;
      if spans[n].traceId == id then SpansOf(spans[..n], id) + [spans[n]] else SpansOf(spans[..n], id)
  }

  /** `order` names the traces admitted at the places `kept`. */
  ghost predicate Names(spans: seq<Span>, kept: seq<nat>, order: seq<string>) {
    && |order| == |kept| && NoDuplicates(order)
    && forall i | 0 <= i < |kept| :: kept[i] < |spans| && order[i] == spans[kept[i]].traceId
  }

  /** The map has exactly the ordered traces, each with its spans since it was admitted. */
  ghost predicate HasSpans(spans: seq<Span>, kept: seq<nat>, s: Stored) {
    && |s.order| == |kept|
    && (forall id :: id in s.order <==> id in s.traces)
    && forall i | 0 <= i < |kept| ::
         kept[i] < |spans| && s.order[i] in s.traces && s.traces[s.order[i]] == SpansOf(spans[kept[i]..], s.order[i])
  }

  ghost predicate HoldsNewest(cap: nat, spans: seq<Span>, s: Stored) {
    var kept := Newest(Admissions(cap, spans), cap);
    Names(spans, kept, s.order) && HasSpans(spans, kept, s)
  }

  lemma NewestStep(s: seq<nat>, x: nat, cap: nat)
    requires cap >= 1
    ensures |Newest(s, cap)| == if |s| <= cap then |s| else cap
    ensures Newest(s + [x], cap) == if |s| < cap then Newest(s, cap) + [x] else Newest(s, cap)[1..] + [x]
  {
  }

  lemma SpansStep(spans: seq<Span>, x: Span, p: nat, id: string)
    requires p <= |spans|
    ensures SpansOf((spans + [x])[p..], id) == SpansOf(spans[p..], id) + if x.traceId == id then [x] else []
  {
    var all := (spans + [x])[p..];
    assert all[..|all| - 1] == spans[p..];
    if p == |spans| {
      assert spans[p..] == [];
    }
  }

  /** The condition for a new admission is the one the code tests. */
  lemma HeldExactly(spans: seq<Span>, kept: seq<nat>, s: Stored, id: string)
    requires Names(spans, kept, s.order) && HasSpans(spans, kept, s)
    ensures id in s.traces <==> exists k :: k in kept && k < |spans| && spans[k].traceId == id
  {
    hide SpansOf, NoDuplicates;
    if id in s.order {
      var i :| 0 <= i < |s.order| && s.order[i] == id;
      assert kept[i] in kept;
    }
    forall k | k in kept && k < |spans| && spans[k].traceId == id ensures id in s.order {
      var i :| 0 <= i < |kept| && kept[i] == k;
      assert s.order[i] in s.order;
    }
  }

  lemma NamesMore(spans: seq<Span>, x: Span, kept: seq<nat>, order: seq<string>)
    requires Names(spans, kept, order)
    ensures Names(spans + [x], kept, order)
    ensures x.traceId !in order ==> Names(spans + [x], kept + [|spans|], order + [x.traceId])
    ensures kept != [] ==> Names(spans, kept[1..], order[1..])
  {
  }

  /** One more span: a held trace grows by it, every other trace stays. */
  lemma ExtendHeld(spans: seq<Span>, x: Span, kept: seq<nat>, s: Stored)
    requires HasSpans(spans, kept, s) && NoDuplicates(s.order) && x.traceId in s.traces
    ensures HasSpans(spans + [x], kept, s.(traces := s.traces[x.traceId := s.traces[x.traceId] + [x]]))
  {
    hide SpansOf;
    forall i | 0 <= i < |kept|
      ensures SpansOf((spans + [x])[kept[i]..], s.order[i]) ==
              SpansOf(spans[kept[i]..], s.order[i]) + if x.traceId == s.order[i] then [x] else []
    {
      SpansStep(spans, x, kept[i], s.order[i]);
    }
    assert forall y: seq<Span> :: y + [] == y;
  }

  lemma AdmitNew(spans: seq<Span>, x: Span, kept: seq<nat>, s: Stored)
    requires HasSpans(spans, kept, s) && x.traceId !in s.traces
    ensures HasSpans(spans + [x], kept + [|spans|], Stored(s.traces[x.traceId := [x]], s.order + [x.traceId]))
  {
    SpansStep(spans, x, |spans|, x.traceId);
    assert SpansOf(spans[|spans|..], x.traceId) == [];
    hide SpansOf;
    forall i | 0 <= i < |kept|
      ensures SpansOf((spans + [x])[kept[i]..], s.order[i]) == SpansOf(spans[kept[i]..], s.order[i])
    {
      SpansStep(spans, x, kept[i], s.order[i]);
      assert s.order[i] in s.order;
    }
  }

  lemma FirstOnlyOnce(order: seq<string>)
    requires NoDuplicates(order) && order != []
    ensures NoDuplicates(order[1..])
    ensures forall id :: id in order[1..] <==> id in order && id != order[0]
  {
    var rest := order[1..];
    assert order == [order[0]] + rest;
    forall i | 0 <= i < |rest| ensures rest[i] != order[0] {
      assert rest[i] == order[i + 1];
    }
  }

  lemma EvictOldest(spans: seq<Span>, kept: seq<nat>, s: Stored)
    requires HasSpans(spans, kept, s) && NoDuplicates(s.order) && s.order != []
    ensures HasSpans(spans, kept[1..], Stored(s.traces - {s.order[0]}, s.order[1..]))
    ensures NoDuplicates(s.order[1..])
  {
    FirstOnlyOnce(s.order);
    hide SpansOf, NoDuplicates;
    var rest := s.order[1..];
    forall i | 0 <= i < |rest| ensures rest[i] in s.traces && rest[i] != s.order[0] {
      assert rest[i] in rest;
    }
  }

  /** The store with room made for one more trace. */
  function Slim(s: Stored, cap: int): Stored {
    if |s.order| < cap || s.order == [] then s else Stored(s.traces - {s.order[0]}, s.order[1..])
  }

  lemma RecordedIntoSlim(s: Stored, cap: int, x: Span)
    requires cap >= 1 && x.traceId !in s.traces
    ensures Recorded(s, cap, x) == Some(Stored(Slim(s, cap).traces[x.traceId := [x]], Slim(s, cap).order + [x.traceId]))
    ensures x.traceId !in Slim(s, cap).traces
  {
  }

  lemma Sizes(spans: seq<Span>, kept: seq<nat>, s: Stored)
    requires Names(spans, kept, s.order)
    ensures |s.order| == |kept| && NoDuplicates(s.order)
  {
  }

  lemma SlimHolds(cap: int, spans: seq<Span>, kept: seq<nat>, s: Stored)
    requires cap >= 1 && Names(spans, kept, s.order) && HasSpans(spans, kept, s)
    ensures var left := if |kept| < cap then kept else kept[1..];
            Names(spans, left, Slim(s, cap).order) && HasSpans(spans, left, Slim(s, cap))
  {
    Sizes(spans, kept, s);
    hide Names, HasSpans, NoDuplicates;
    if |kept| >= cap {
      EvictOldest(spans, kept, s);
      NamesMore(spans, Span(s.order[0], s.order[0], 0.0), kept, s.order);
    }
  }

  lemma NotOrdered(spans: seq<Span>, kept: seq<nat>, s: Stored, id: string)
    requires HasSpans(spans, kept, s) && id !in s.traces
    ensures id !in s.order
  {
  }

  /** Recording a span for a trace that is not held. */
  lemma RecordNew(cap: nat, spans: seq<Span>, x: Span, earlier: seq<nat>, s: Stored)
    requires cap >= 1 && x.traceId !in s.traces
    requires Names(spans, Newest(earlier, cap), s.order) && HasSpans(spans, Newest(earlier, cap), s)
    ensures var s' := Recorded(s, cap, x);
            s'.Some? && Names(spans + [x], Newest(earlier + [|spans|], cap), s'.value.order)
            && HasSpans(spans + [x], Newest(earlier + [|spans|], cap), s'.value)
  {
    hide *;
    NewestStep(earlier, |spans|, cap);
    var kept := Newest(earlier, cap);
    var slim := Slim(s, cap);
    var left := if |kept| < cap then kept else kept[1..];
    RecordedIntoSlim(s, cap, x);
    SlimHolds(cap, spans, kept, s);
    NotOrdered(spans, left, slim, x.traceId);
    NamesMore(spans, x, left, slim.order);
    AdmitNew(spans, x, left, slim);
  }

  lemma AdmissionsStep(cap: nat, spans: seq<Span>, x: Span)
    ensures var earlier := Admissions(cap, spans);
            Admissions(cap, spans + [x]) ==
            if exists k :: k in Newest(earlier, cap) && k < |spans| && spans[k].traceId == x.traceId then earlier
            else earlier + [|spans|]
  {
    var all := spans + [x];
    assert all[..|spans|] == spans;
    assert forall k | 0 <= k < |spans| :: all[k] == spans[k];
    hide Newest;
  }

  lemma StepHolds(cap: nat, spans: seq<Span>, x: Span, s: Stored)
    requires cap >= 1 && HoldsNewest(cap, spans, s)
    ensures var r := Recorded(s, cap, x); HoldsNewest(cap, spans + [x], if r.Some? then r.value else s)
  {
    var earlier := Admissions(cap, spans);
    var kept := Newest(earlier, cap);
    HeldExactly(spans, kept, s, x.traceId);
    Sizes(spans, kept, s);
    AdmissionsStep(cap, spans, x);
    assert x.traceId in s.traces ==>
             Recorded(s, cap, x) == Some(s.(traces := s.traces[x.traceId := s.traces[x.traceId] + [x]]));
    hide Recorded, Admissions, Newest, Names, HasSpans, NoDuplicates, SpansOf;
    if x.traceId in s.traces {
      NamesMore(spans, x, kept, s.order);
      ExtendHeld(spans, x, kept, s);
    } else {
      RecordNew(cap, spans, x, earlier, s);
    }
  }

  lemma NothingHeld(cap: nat)
    ensures HoldsNewest(cap, [], After(cap, []))
  {
  }

  lemma AfterStep(cap: int, spans: seq<Span>, x: Span)
    ensures var r := Recorded(After(cap, spans), cap, x);
            After(cap, spans + [x]) == if r.Some? then r.value else After(cap, spans)
  {
    hide Recorded;
    assert (spans + [x])[..|spans|] == spans;
  }

  /** After any spans, with a cap of at least one, the store holds exactly the newest admissions
      in order, each under its own id with exactly the spans recorded since it was admitted. */
  lemma {:induction false} RunHoldsNewest(cap: nat, spans: seq<Span>)
    requires cap >= 1
    ensures HoldsNewest(cap, spans, After(cap, spans))
  {
    hide *;
    if spans == [] {
      NothingHeld(cap);
    } else {
      var n := |spans| - 1;
      var shorter, x := spans[..n], spans[n];
      RunHoldsNewest(cap, shorter);
      assert spans == shorter + [x];
      AfterStep(cap, shorter, x);
      StepHolds(cap, shorter, x, After(cap, shorter));
    }
  }

  /** The store never holds more than `cap` traces, and a cap below one makes it fail on every span. */
  lemma {:induction false} SizeAndFailure(cap: int, spans: seq<Span>)
    ensures cap >= 1 ==> |After(cap, spans).order| <= cap
    ensures cap <= 0 ==> After(cap, spans) == Stored(map[], []) && forall x :: Recorded(After(cap, spans), cap, x) == None
  {
    if spans != [] {
      SizeAndFailure(cap, spans[..|spans| - 1]);
    }
  }
}
