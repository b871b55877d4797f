/** Template strings, the values they resolve to, and edge conditions
    (the pure functions at the top of the workflow engine). */
module Templates {
  /** JSON-like data as the engine's `context` dictionary holds it. */
  datatype Value =
    | Null
    | Bool(b: bool)
    | Num(n: real)
    | Str(s: string)
    | List(items: seq<Value>)
    | Obj(fields: map<string, Value>)

  /** A template string is cut into literal text and `{{ dotted.path }}` holes. */
  datatype Segment = Literal(text: string) | Hole(path: seq<string>)

  /** Anything a node's `config` may contain. */
  datatype Template =
    | Text(segments: seq<Segment>)
    | Fixed(value: Value)
    | Dict(entries: map<string, Template>)
    | Items(elements: seq<Template>)

  /** Python's `str` on non-string values is left to the caller. */
  type Render = Value -> string

  /** Walks a dotted path through nested dictionaries; a missing key gives `Null`. */
  function GetNested(data: Value, path: seq<string>): Value {
    if path == [] then data
    else if data.Obj? && path[0] in data.fields then GetNested(data.fields[path[0]], path[1..])
    else Null
  }

  /** What stripping takes for white space. */
  predicate IsSpace(c: char) {
    || '\U{9}' <= c <= '\U{D}' || '\U{1C}' <= c <= ' ' || c == '\U{85}' || c == '\U{A0}' || c == '\U{1680}'
    || '\U{2000}' <= c <= '\U{200A}' || c == '\U{2028}' || c == '\U{2029}' || c == '\U{202F}' || c == '\U{205F}'
    || c == '\U{3000}'
  }

  predicate Blank(text: string) {
    forall i | 0 <= i < |text| :: IsSpace(text[i])
  }

  /** The segments that survive stripping: everything but blank literals. */
  function NonBlank(segments: seq<Segment>): seq<Segment> {
    if segments == [] then []
    else
      var rest := NonBlank(segments[1..]);
      if segments[0].Literal? && Blank(segments[0].text) then rest else [segments[0]] + rest
  }

  /** A string that is one hole and nothing else yields the hole's own value, not text. */
  predicate IsSingleHole(segments: seq<Segment>) {
    var core := NonBlank(segments);
    |core| == 1 && core[0].Hole?
  }

  function Show(v: Value, render: Render): string {
    match v
    case Null => ""
    case Str(s) => s
    case _ => render(v)
  }

  function Interpolate(segments: seq<Segment>, data: Value, render: Render): string {
    if segments == [] then ""
    else
      (match segments[0]
       case Literal(text) => text
       case Hole(path) => Show(GetNested(data, path), render))
      + Interpolate(segments[1..], data, render)
  }

  function ResolveText(segments: seq<Segment>, data: Value, render: Render): Value {
    if IsSingleHole(segments) then GetNested(data, NonBlank(segments)[0].path)
    else Str(Interpolate(segments, data, render))
  }

  function Resolve(t: Template, data: Value, render: Render): Value {
    match t
    case Text(segments) => ResolveText(segments, data, render)
    case Fixed(value) => value
    case Dict(entries) => Obj(map k | k in entries :: Resolve(entries[k], data, render))
    case Items(elements) => List(seq(|elements|, i requires 0 <= i < |elements| => Resolve(elements[i], data, render)))
  }

  function LowerChar(c: char): char {
    if 'A' <= c <= 'Z' then (c - 'A') + 'a' else c
  }

  function Lower(s: string): string {
    if s == "" then "" else [LowerChar(s[0])] + Lower(s[1..])
  }

  predicate Truthy(v: Value) {
    match v
    case Null => false
    case Bool(b) => b
    case Num(n) => n != 0.0
    case Str(s) => s != ""
    case List(items) => items != []
    case Obj(fields) => fields != map[]
  }

  /** `str(resolved).lower()`; unlike inside a template, `None` prints as "none" here. */
  function ConditionText(v: Value, render: Render): string {
    match v
    case Null => "none"
    case Str(s) => Lower(s)
    case _ => Lower(render(v))
  }

  /** Edge branching. The empty condition always fires. */
  predicate EvaluateCondition(condition: seq<Segment>, data: Value, render: Render) {
    if condition == [] then true
    else
      var resolved := ResolveText(condition, data, render);
      if resolved.Bool? then resolved.b
      else
        var text := ConditionText(resolved, render);
        if text in ["true", "1", "yes"] then true
        else if text in ["false", "0", "no", "none", "null", ""] then false
        else Truthy(resolved)
  }

  // --- What a template resolves to ---

  /** The values met on the way along a path. */
  ghost predicate Leads(data: Value, path: seq<string>, stops: seq<Value>) {
    && |stops| == |path| + 1 && stops[0] == data
    && forall i | 0 <= i < |path| :: stops[i].Obj? && path[i] in stops[i].fields && stops[i].fields[path[i]] == stops[i + 1]
  }

  /** A lookup ends where the named keys lead, and yields `Null` when one of them is missing. */
  lemma {:induction false} NestedExactly(data: Value, path: seq<string>)
    ensures forall stops | Leads(data, path, stops) :: GetNested(data, path) == stops[|path|]
    ensures (forall stops :: !Leads(data, path, stops)) ==> GetNested(data, path) == Null
  {
    if path == [] {
      assert Leads(data, path, [data]);
    } else {
      var key := path[0];
      if data.Obj? && key in data.fields {
        var next := data.fields[key];
        NestedExactly(next, path[1..]);
        forall stops | Leads(data, path, stops) ensures GetNested(data, path) == stops[|path|] {
          assert Leads(next, path[1..], stops[1..]);
        }
        if stops :| Leads(next, path[1..], stops) {
          assert ([data] + stops)[1..] == stops;
          forall i | 0 <= i < |path| ensures ([data] + stops)[i + 1] == stops[i] {
          }
          assert Leads(data, path, [data] + stops);
        }
      }
    }
  }

  /** Text is put together from left to right. */
  lemma {:induction false} InterpolateConcat(a: seq<Segment>, b: seq<Segment>, data: Value, render: Render)
    ensures Interpolate(a + b, data, render) == Interpolate(a, data, render) + Interpolate(b, data, render)
  {
    hide GetNested, Show;
    if a == [] {
      assert a + b == b;
    } else {
      assert (a + b)[0] == a[0] && (a + b)[1..] == a[1..] + b;
      InterpolateConcat(a[1..], b, data, render);
    }
  }

  /** A literal stands for itself; a hole shows a string as it is, `Null` as nothing, and anything
      else as it prints. */
  lemma InterpolateOne(text: string, path: seq<string>, data: Value, render: Render)
    ensures Interpolate([], data, render) == ""
    ensures Interpolate([Literal(text)], data, render) == text
    ensures var v := GetNested(data, path);
            Interpolate([Hole(path)], data, render) == if v == Null then "" else if v.Str? then v.s else render(v)
  {
    assert Interpolate([], data, render) == "";
    assert [Literal(text)][1..] == [] && [Hole(path)][1..] == [];
  }

  /** The text is one hole with nothing but white space around it. */
  ghost predicate OnlyHole(segments: seq<Segment>, i: nat) {
    && i < |segments| && segments[i].Hole?
    && forall j | 0 <= j < |segments| && j != i :: segments[j].Literal? && forall c | c in segments[j].text :: IsSpace(c)
  }

  lemma BlankIs(segment: Segment)
    ensures segment.Literal? ==> (Blank(segment.text) <==> forall c | c in segment.text :: IsSpace(c))
  {
    hide IsSpace;
  }

  lemma {:induction false} NonBlankIs(segments: seq<Segment>)
    ensures NonBlank(segments) == [] <==>
              forall j | 0 <= j < |segments| :: segments[j].Literal? && forall c | c in segments[j].text :: IsSpace(c)
    ensures forall i: nat | OnlyHole(segments, i) :: NonBlank(segments) == [segments[i]]
    ensures IsSingleHole(segments) ==> exists i: nat :: OnlyHole(segments, i)
  {
    hide IsSpace;
    if segments != [] {
      var rest := segments[1..];
      NonBlankIs(rest);
      BlankIs(segments[0]);
      assert forall j | 0 <= j < |rest| :: rest[j] == segments[j + 1];
      forall i: nat | OnlyHole(segments, i) ensures NonBlank(segments) == [segments[i]] {
        if i > 0 {
          assert OnlyHole(rest, i - 1);
        }
      }
      if IsSingleHole(segments) {
        if segments[0].Hole? {
          assert OnlyHole(segments, 0);
        } else {
          var i: nat :| OnlyHole(rest, i);
          assert OnlyHole(segments, i + 1);
        }
      }
    }
  }

  /** A text that is one hole yields the hole's own value, whatever its type; any other text yields
      its segments put together. */
  lemma ResolveTextExactly(segments: seq<Segment>, data: Value, render: Render)
    ensures forall i: nat | OnlyHole(segments, i) :: Resolve(Text(segments), data, render) == GetNested(data, segments[i].path)
    ensures (forall i: nat :: !OnlyHole(segments, i)) ==>
              Resolve(Text(segments), data, render) == Str(Interpolate(segments, data, render))
  {
    NonBlankIs(segments);
    hide NonBlank, IsSpace, Interpolate;
  }

  /** Values that are not text stay as they are, dictionaries keep their keys, and lists their length
      and order, with every entry resolved on its own. */
  lemma ResolveEachExactly(value: Value, entries: map<string, Template>, elements: seq<Template>, data: Value, render: Render)
    ensures Resolve(Fixed(value), data, render) == value
    ensures var r := Resolve(Dict(entries), data, render);
            r.Obj? && r.fields.Keys == entries.Keys && forall k | k in entries :: r.fields[k] == Resolve(entries[k], data, render)
    ensures var r := Resolve(Items(elements), data, render);
            r.List? && |r.items| == |elements| && forall i | 0 <= i < |elements| :: r.items[i] == Resolve(elements[i], data, render)
  {
    hide ResolveText;
  }

  /** For instance: literal text around a hole is kept. */
  lemma OrderNumber(number: string, render: Render)
    ensures var data := Obj(map["input" := Obj(map["id" := Str(number)])]);
            Resolve(Text([Literal("Order "), Hole(["input", "id"])]), data, render) == Str("Order " + number)
  {
    var data := Obj(map["input" := Obj(map["id" := Str(number)])]);
    var segments := [Literal("Order "), Hole(["input", "id"])];
    assert ["input", "id"][1..] == ["id"] && ["id"][1..] == [];
    assert GetNested(data, ["input", "id"]) == GetNested(data.fields["input"], ["id"]) == Str(number);
    assert segments == [segments[0]] + [segments[1]];
    InterpolateConcat([segments[0]], [segments[1]], data, render);
    InterpolateOne("Order ", ["input", "id"], data, render);
    assert "Order "[0] == 'O' && !IsSpace('O');
    assert forall i: nat :: !OnlyHole(segments, i);
    ResolveTextExactly(segments, data, render);
  }

  // --- When an edge fires ---

  lemma {:induction false} LowerExactly(s: string)
    ensures |Lower(s)| == |s|
    ensures forall i | 0 <= i < |s| :: Lower(s)[i] as int == if 65 <= s[i] as int <= 90 then s[i] as int + 32 else s[i] as int
  {
    if s != "" {
      LowerExactly(s[1..]);
    }
  }

  predicate SaysNo(text: string) {
    text == "false" || text == "0" || text == "no" || text == "none" || text == "null" || text == ""
  }

  predicate SaysYes(text: string) {
    text == "true" || text == "1" || text == "yes"
  }

  lemma ListsAre(text: string)
    ensures text in ["true", "1", "yes"] <==> SaysYes(text)
    ensures text in ["false", "0", "no", "none", "null", ""] <==> SaysNo(text)
  {
  }

  lemma ConditionIs(condition: seq<Segment>, data: Value, render: Render)
    requires condition != []
    ensures var v := Resolve(Text(condition), data, render);
            EvaluateCondition(condition, data, render) <==>
            if v.Bool? then v.b
            else var text := ConditionText(v, render); SaysYes(text) || (!SaysNo(text) && Truthy(v))
  {
    var v := ResolveText(condition, data, render);
    ListsAre(ConditionText(v, render));
    hide ResolveText, ConditionText, Truthy, SaysYes, SaysNo;
  }

  lemma YesIsNotNo(text: string)
    ensures SaysYes(text) ==> !SaysNo(text)
    ensures SaysNo("none") && !SaysYes("none") && SaysNo("")
  {
  }

  /** By the type of what a condition resolves to: a truth value decides by itself, `Null` never
      fires, a string fires unless it says no, and anything else fires if it prints as a yes, or does
      not print as a no and is neither zero nor empty. The empty condition fires. */
  lemma ConditionExactly(condition: seq<Segment>, data: Value, render: Render)
    ensures condition == [] ==> EvaluateCondition(condition, data, render)
    ensures condition != [] ==>
              var v := Resolve(Text(condition), data, render);
              var text := Lower(render(v));
              && (v.Bool? ==> (EvaluateCondition(condition, data, render) <==> v.b))
              && (v == Null ==> !EvaluateCondition(condition, data, render))
              && (v.Str? ==> (EvaluateCondition(condition, data, render) <==> !SaysNo(Lower(v.s))))
              && (v.Num? || v.List? || v.Obj? ==>
                    (EvaluateCondition(condition, data, render) <==>
                     SaysYes(text) || (!SaysNo(text) && v != Num(0.0) && v != List([]) && v != Obj(map[]))))
  {
    if condition != [] {
      var v := Resolve(Text(condition), data, render);
      ConditionIs(condition, data, render);
      YesIsNotNo(ConditionText(v, render));
      if v.Str? {
        LowerExactly(v.s);
      }
    }
    hide Resolve, Lower, SaysYes, SaysNo;
  }

  /** A literal condition fires exactly when it is none of the six ways of saying no. */
  lemma LiteralCondition(text: string, data: Value, render: Render)
    ensures EvaluateCondition([Literal(text)], data, render) <==> !SaysNo(Lower(text))
  {
    assert forall i: nat :: !OnlyHole([Literal(text)], i);
    ResolveTextExactly([Literal(text)], data, render);
    InterpolateOne(text, [], data, render);
    ConditionExactly([Literal(text)], data, render);
    hide EvaluateCondition, ResolveText, Interpolate, OnlyHole;
  }

  lemma {:induction false} LowerIs(s: string, lower: string)
    requires |s| == |lower|
    requires forall i | 0 <= i < |s| :: lower[i] as int == if 65 <= s[i] as int <= 90 then s[i] as int + 32 else s[i] as int
    ensures Lower(s) == lower
  {
    LowerExactly(s);
  }

  /** The texts that the two lists name, in any case of letters. */
  lemma YesAndNo(text: string, lower: string, data: Value, render: Render)
    requires |text| == |lower|
    requires forall i | 0 <= i < |text| ::
               lower[i] as int == if 65 <= text[i] as int <= 90 then text[i] as int + 32 else text[i] as int
    ensures lower == "true" || lower == "1" || lower == "yes" ==> EvaluateCondition([Literal(text)], data, render)
    ensures lower == "false" || lower == "0" || lower == "no" || lower == "none" || lower == "null" || lower == "" ==>
              !EvaluateCondition([Literal(text)], data, render)
  {
    LowerIs(text, lower);
    LiteralCondition(text, data, render);
    hide EvaluateCondition, Lower;
  }

  // --- Frame: resolution reads only the paths it names ---

  function SegmentPaths(segments: seq<Segment>): set<seq<string>> {
    set s | s in segments && s.Hole? :: s.path
  }

  function Paths(t: Template): set<seq<string>> {
    match t
    case Text(segments) => SegmentPaths(segments)
    case Fixed(_) => {}
    case Dict(entries) => set k, p | k in entries && p in Paths(entries[k]) :: p
    case Items(elements) => set i, p | 0 <= i < |elements| && p in Paths(elements[i]) :: p
  }

  ghost predicate AgreeOn(paths: set<seq<string>>, a: Value, b: Value) {
    forall p | p in paths :: GetNested(a, p) == GetNested(b, p)
  }

  lemma {:induction false} NonBlankSubset(segments: seq<Segment>)
    ensures forall s | s in NonBlank(segments) :: s in segments
  {
    if segments != [] {
      NonBlankSubset(segments[1..]);
    }
  }

  lemma FewerPaths(segments: seq<Segment>)
    requires segments != []
    ensures SegmentPaths(segments[1..]) <= SegmentPaths(segments)
    ensures segments[0].Hole? ==> segments[0].path in SegmentPaths(segments)
  {
    assert segments[0] in segments;
  }

  lemma AgreeFewer(few: set<seq<string>>, many: set<seq<string>>, a: Value, b: Value)
    requires few <= many && AgreeOn(many, a, b)
    ensures AgreeOn(few, a, b)
  {
    hide GetNested;
  }

  lemma AgreeAt(paths: set<seq<string>>, p: seq<string>, a: Value, b: Value)
    requires AgreeOn(paths, a, b) && p in paths
    ensures GetNested(a, p) == GetNested(b, p)
  {
    hide GetNested;
  }

  lemma {:induction false} InterpolateFrame(segments: seq<Segment>, a: Value, b: Value, render: Render)
    requires AgreeOn(SegmentPaths(segments), a, b)
    ensures Interpolate(segments, a, render) == Interpolate(segments, b, render)
  {
    hide GetNested, AgreeOn, SegmentPaths;
    if segments != [] {
      FewerPaths(segments);
      AgreeFewer(SegmentPaths(segments[1..]), SegmentPaths(segments), a, b);
      InterpolateFrame(segments[1..], a, b, render);
      if segments[0].Hole? {
        AgreeAt(SegmentPaths(segments), segments[0].path, a, b);
      }
    }
  }

  lemma ResolveTextFrame(segments: seq<Segment>, a: Value, b: Value, render: Render)
    requires AgreeOn(SegmentPaths(segments), a, b)
    ensures ResolveText(segments, a, render) == ResolveText(segments, b, render)
  {
    NonBlankSubset(segments);
    InterpolateFrame(segments, a, b, render);
    if IsSingleHole(segments) {
      assert NonBlank(segments)[0] in NonBlank(segments);
    }
  }

  lemma DictPaths(entries: map<string, Template>, k: string)
    requires k in entries
    ensures Paths(entries[k]) <= Paths(Dict(entries))
  {
  }

  lemma ItemPaths(elements: seq<Template>, i: nat)
    requires i < |elements|
    ensures Paths(elements[i]) <= Paths(Items(elements))
  {
  }

  /** Two contexts that agree on every path a template names resolve it to the same value. */
  lemma {:induction false} ResolveFrame(t: Template, a: Value, b: Value, render: Render)
    requires AgreeOn(Paths(t), a, b)
    ensures Resolve(t, a, render) == Resolve(t, b, render)
    decreases t, 1
  {
    match t
    case Text(segments) => ResolveTextFrame(segments, a, b, render);
    case Fixed(_) =>
    case Dict(entries) => ResolveDictFrame(entries, a, b, render);
    case Items(elements) => ResolveItemsFrame(elements, a, b, render);
  }

  lemma ResolveDictIs(entries: map<string, Template>, data: Value, render: Render)
    ensures Resolve(Dict(entries), data, render) == Obj(map k | k in entries :: Resolve(entries[k], data, render))
  {
    hide ResolveText;
  }

  lemma EntriesAlike(entries: map<string, Template>, a: Value, b: Value, render: Render)
    requires forall k | k in entries :: Resolve(entries[k], a, render) == Resolve(entries[k], b, render)
    ensures Resolve(Dict(entries), a, render) == Resolve(Dict(entries), b, render)
  {
    hide Resolve;
    ResolveDictIs(entries, a, render);
    ResolveDictIs(entries, b, render);
    var ra := map k | k in entries :: Resolve(entries[k], a, render);
    var rb := map k | k in entries :: Resolve(entries[k], b, render);
    assert ra == rb;
  }

  lemma {:induction false} ResolveDictFrame(entries: map<string, Template>, a: Value, b: Value, render: Render)
    requires AgreeOn(Paths(Dict(entries)), a, b)
    ensures Resolve(Dict(entries), a, render) == Resolve(Dict(entries), b, render)
    decreases Dict(entries), 0
  {
    hide AgreeOn, Paths, Resolve;
    forall k | k in entries
      ensures Resolve(entries[k], a, render) == Resolve(entries[k], b, render)
    {
      DictPaths(entries, k);
      AgreeFewer(Paths(entries[k]), Paths(Dict(entries)), a, b);
      ResolveFrame(entries[k], a, b, render);
    }
    EntriesAlike(entries, a, b, render);
  }

  lemma {:induction false} ResolveItemsFrame(elements: seq<Template>, a: Value, b: Value, render: Render)
    requires AgreeOn(Paths(Items(elements)), a, b)
    ensures Resolve(Items(elements), a, render) == Resolve(Items(elements), b, render)
    decreases Items(elements), 0
  {
    var ra := seq(|elements|, i requires 0 <= i < |elements| => Resolve(elements[i], a, render));
    var rb := seq(|elements|, i requires 0 <= i < |elements| => Resolve(elements[i], b, render));
    forall i | 0 <= i < |elements|
      ensures ra[i] == rb[i]
    {
      ItemPaths(elements, i);
      ResolveFrame(elements[i], a, b, render);
    }
    assert ra == rb;
  }

  /** The same for conditions: an edge's choice depends only on the paths its condition names. */
  lemma ConditionFrame(condition: seq<Segment>, a: Value, b: Value, render: Render)
    requires AgreeOn(SegmentPaths(condition), a, b)
    ensures EvaluateCondition(condition, a, render) == EvaluateCondition(condition, b, render)
  {
    ResolveTextFrame(condition, a, b, render);
  }
}
