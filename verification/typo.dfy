/** Typo tolerance: restricted Damerau-Levenshtein distance and term matching. */
module Typo {
  // --- Edit scripts: what a distance is a distance between ---

  /** One step of a left-to-right rewriting of a word. */
  datatype Edit = Keep | Substitute(to: char) | Insert(c: char) | Delete | Swap

  type Script = seq<Edit>

  /** How many characters of the word a step takes up. */
  function Reads(e: Edit): nat {
    match e
    case Insert(_) => 0
    case Swap => 2
    case _ => 1
  }

  /** What a step writes in place of the characters `x` it takes up. */
  function Writes(e: Edit, x: string): string
    requires |x| == Reads(e)
  {
    match e
    case Keep => x
    case Substitute(to) => [to]
    case Insert(c) => [c]
    case Delete => []
    case Swap => [x[1], x[0]]
  }

  function Price(e: Edit): nat {
    if e.Keep? then 0 else 1
  }

  function Cost(script: Script): nat {
    if script == [] then 0 else Price(script[0]) + Cost(script[1..])
  }

  /** Rewrites `s` from its left end, never looking at anything already written; `None` when
      the script does not fit the word exactly. */
  function Rewrite(script: Script, s: string): (r: seq<string>)
    ensures |r| <= 1
  {
    if script == [] then
      if s == [] then [[]] else []
    else
      var n := Reads(script[0]);
      if |s| < n then []
      else
        var rest := Rewrite(script[1..], s[n..]);
        if rest == [] then [] else [Writes(script[0], s[..n]) + rest[0]]
  }

  predicate Turns(script: Script, s: string, t: string) {
    Rewrite(script, s) == [t]
  }

  lemma FirstStep(script: Script, s: string, t: string) returns (head: string, back: string, rest: string)
    requires script != [] && Turns(script, s, t)
    ensures script == [script[0]] + script[1..] && s == head + back && |head| == Reads(script[0])
    ensures Turns(script[1..], back, rest) && t == Writes(script[0], head) + rest
  {
    var n := Reads(script[0]);
    head, back := s[..n], s[n..];
    rest := Rewrite(script[1..], back)[0];
  }

  lemma StepFirst(e: Edit, x: string, script: Script, s: string, t: string)
    requires Turns(script, s, t) && |x| == Reads(e)
    ensures Turns([e] + script, x + s, Writes(e, x) + t)
    ensures Cost([e] + script) == Price(e) + Cost(script)
  {
    hide Reads, Writes, Price;
    var all := [e] + script;
    assert all[0] == e && all[1..] == script;
    assert (x + s)[|x|..] == s && (x + s)[..|x|] == x;
  }

  lemma Associate<T>(a: seq<T>, b: seq<T>, c: seq<T>)
    ensures (a + b) + c == a + (b + c)
  {
  }

  lemma OneStep(e: Edit, x: string)
    requires |x| == Reads(e)
    ensures Turns([e], x, Writes(e, x)) && Cost([e]) == Price(e)
  {
    StepFirst(e, x, [], [], []);
    assert [e] + [] == [e] && x + [] == x && Writes(e, x) + [] == Writes(e, x);
  }

  lemma {:induction false} TurnsAppend(script: Script, e: Edit, s: string, u: string, x: string)
    requires Turns(script, s, u) && |x| == Reads(e)
    ensures Turns(script + [e], s + x, u + Writes(e, x))
    ensures Cost(script + [e]) == Cost(script) + Price(e)
  {
    hide Reads, Writes, Price;
    if script == [] {
      OneStep(e, x);
      assert script + [e] == [e] && s + x == x && u + Writes(e, x) == Writes(e, x);
    } else {
      hide Rewrite, Turns, Cost;
      var first, later := script[0], script[1..];
      var head, back, rest := FirstStep(script, s, u);
      TurnsAppend(later, e, back, rest, x);
      StepFirst(first, head, later + [e], back + x, rest + Writes(e, x));
      StepFirst(first, head, later, back, rest);
      Associate([first], later, [e]);
      Associate(head, back, x);
      Associate(Writes(first, head), rest, Writes(e, x));
    }
  }

  /** Every script but the empty one has a last step, which works on the ends of both words. */
  lemma {:induction false} LastStep(script: Script, s: string, t: string)
      returns (init: Script, e: Edit, p: string, u: string, x: string)
    requires script != [] && Turns(script, s, t)
    ensures script == init + [e] && s == p + x && |x| == Reads(e)
    ensures Turns(init, p, u) && t == u + Writes(e, x) && Cost(script) == Cost(init) + Price(e)
  {
    hide Reads, Writes, Price;
    var first, later := script[0], script[1..];
    var head, back, rest := FirstStep(script, s, t);
    if later == [] {
      init, e, p, u, x := [], first, [], [], head;
      OneStep(e, x);
      assert script == [e] && back == [] && rest == [] && s == head && t == Writes(first, head);
    } else {
      hide Rewrite, Turns, Cost;
      var init', p', u';
      init', e, p', u', x := LastStep(later, back, rest);
      init, p, u := [first] + init', head + p', Writes(first, head) + u';
      StepFirst(first, head, init', p', u');
      StepFirst(first, head, later, back, rest);
      Associate([first], init', [e]);
      Associate(head, p', x);
      Associate(Writes(first, head), u', Writes(e, x));
    }
  }

  // --- The recurrence the table follows ---

  function Init(s: string): string
    requires s != []
  {
    s[..|s| - 1]
  }

  function Last(s: string): char
    requires s != []
  {
    s[|s| - 1]
  }

  function Least(a: nat, b: nat): nat {
    if a <= b then a else b
  }

  predicate EndsSwapped(s: string, t: string) {
    |s| > 1 && |t| > 1 && Last(s) == Last(Init(t)) && Last(Init(s)) == Last(t)
  }

  /** The least of a deletion, an insertion, a substitution or match, and a transposition. */
  function Cheapest(above: nat, left: nat, diagonal: nat, same: bool, swapped: bool, twoBack: nat): nat {
    var best := Least(Least(above + 1, left + 1), diagonal + if same then 0 else 1);
    if swapped then Least(best, twoBack + 1) else best
  }

  function Distance(s: string, t: string): nat
    decreases |s| + |t|
  {
    if s == [] then |t|
    else if t == [] then |s|
    else
      Cheapest(Distance(Init(s), t), Distance(s, Init(t)), Distance(Init(s), Init(t)), Last(s) == Last(t),
               EndsSwapped(s, t), if EndsSwapped(s, t) then Distance(Init(Init(s)), Init(Init(t))) else 0)
  }

  /** One step of the recurrence, for proofs that hide `Distance`. */
  lemma Unfolded(s: string, t: string)
    requires s != [] && t != []
    ensures Distance(s, t) ==
            Cheapest(Distance(Init(s), t), Distance(s, Init(t)), Distance(Init(s), Init(t)), Last(s) == Last(t),
                     EndsSwapped(s, t), if EndsSwapped(s, t) then Distance(Init(Init(s)), Init(Init(t))) else 0)
  {
    hide Cheapest, Init, Last;
  }

  lemma {:induction false} DistanceToSelf(s: string)
    ensures Distance(s, s) == 0
  {
    if s != [] {
      DistanceToSelf(Init(s));
    }
  }

  /** The recurrence at a cell, read off prefixes of the whole words. */
  lemma Cell(s: string, t: string, i: nat, j: nat)
    requires 1 <= i <= |s| && 1 <= j <= |t|
    ensures var swapped := i > 1 && j > 1 && s[i - 1] == t[j - 2] && s[i - 2] == t[j - 1];
            Distance(s[..i], t[..j]) ==
            Cheapest(Distance(s[..i - 1], t[..j]), Distance(s[..i], t[..j - 1]), Distance(s[..i - 1], t[..j - 1]),
                     s[i - 1] == t[j - 1], swapped, if swapped then Distance(s[..i - 2], t[..j - 2]) else 0)
  {
    hide Distance, Cheapest;
    var p, q := s[..i], t[..j];
    Unfolded(p, q);
    assert Init(p) == s[..i - 1] && Init(q) == t[..j - 1];
    if i > 1 && j > 1 {
      assert Init(Init(p)) == s[..i - 2] && Init(Init(q)) == t[..j - 2];
    }
  }

  method FillRow(d: array2<nat>, s: string, t: string, i: nat)
    requires d.Length0 == |s| + 1 && d.Length1 == |t| + 1 && 1 <= i <= |s|
    requires forall a, b | 0 <= a < i && 0 <= b <= |t| :: d[a, b] == Distance(s[..a], t[..b])
    requires forall a | 0 <= a <= |s| :: d[a, 0] == Distance(s[..a], t[..0])
    modifies d
    ensures forall a, b | 0 <= a <= i && 0 <= b <= |t| :: d[a, b] == Distance(s[..a], t[..b])
    ensures forall a | 0 <= a <= |s| :: d[a, 0] == Distance(s[..a], t[..0])
  {
    hide Distance, Least;
    for j := 1 to |t| + 1
      invariant forall a, b | 0 <= a < i && 0 <= b <= |t| :: d[a, b] == Distance(s[..a], t[..b])
      invariant forall b | 0 <= b < j :: d[i, b] == Distance(s[..i], t[..b])
      invariant forall a | 0 <= a <= |s| :: d[a, 0] == Distance(s[..a], t[..0])
    {
      var cost := if s[i - 1] == t[j - 1] then 0 else 1;
      Cell(s, t, i, j);
      d[i, j] := Least(Least(d[i - 1, j] + 1, d[i, j - 1] + 1), d[i - 1, j - 1] + cost);
      if i > 1 && j > 1 && s[i - 1] == t[j - 2] && s[i - 2] == t[j - 1] {
        d[i, j] := Least(d[i, j], d[i - 2, j - 2] + 1);
      }
    }
  }

  /** The in-place table fill. */
  method DamerauLevenshtein(s: string, t: string) returns (r: nat)
    ensures r == Distance(s, t)
  {
    if s == t {
      DistanceToSelf(s);
      return 0;
    }
    if |s| == 0 {
      return |t|;
    }
    if |t| == 0 {
      return |s|;
    }
    var d := new nat[|s| + 1, |t| + 1]((_, _) => 0);
    for i := 0 to |s| + 1
      invariant forall a | 0 <= a < i :: d[a, 0] == Distance(s[..a], t[..0])
    {
      d[i, 0] := i;
    }
    for j := 0 to |t| + 1
      invariant forall a | 0 <= a <= |s| :: d[a, 0] == Distance(s[..a], t[..0])
      invariant forall b | 0 <= b < j :: d[0, b] == Distance(s[..0], t[..b])
    {
      d[0, j] := j;
    }
    for i := 1 to |s| + 1
      invariant forall a, b | 0 <= a < i && 0 <= b <= |t| :: d[a, b] == Distance(s[..a], t[..b])
      invariant forall a | 0 <= a <= |s| :: d[a, 0] == Distance(s[..a], t[..0])
    {
      FillRow(d, s, t, i);
    }
    assert s[..|s|] == s && t[..|t|] == t;
    r := d[|s|, |t|];
  }

  // --- Distance is the least cost of any script ---

  lemma Ends(s: string)
    requires s != []
    ensures s == Init(s) + [Last(s)]
    ensures |s| > 1 ==> s == Init(Init(s)) + [Last(Init(s)), Last(s)]
  {
  }

  /** The least of the alternatives is one of them. */
  lemma CheapestIsOne(above: nat, left: nat, diagonal: nat, same: bool, swapped: bool, twoBack: nat)
    ensures var c := Cheapest(above, left, diagonal, same, swapped, twoBack);
            && c <= above + 1 && c <= left + 1 && c <= diagonal + (if same then 0 else 1) && (swapped ==> c <= twoBack + 1)
            && (c == above + 1 || c == left + 1 || c == diagonal + (if same then 0 else 1) || (swapped && c == twoBack + 1))
  {
  }

  /** The recurrence as bounds, one of which is met. */
  lemma Alternatives(s: string, t: string)
    requires s != [] && t != []
    ensures var d, diagonal := Distance(s, t), Distance(Init(s), Init(t)) + if Last(s) == Last(t) then 0 else 1;
            && d <= Distance(Init(s), t) + 1 && d <= Distance(s, Init(t)) + 1 && d <= diagonal
            && (EndsSwapped(s, t) ==> d <= Distance(Init(Init(s)), Init(Init(t))) + 1)
            && (d == Distance(Init(s), t) + 1 || d == Distance(s, Init(t)) + 1 || d == diagonal
                || (EndsSwapped(s, t) && d == Distance(Init(Init(s)), Init(Init(t))) + 1))
  {
    Unfolded(s, t);
    CheapestIsOne(Distance(Init(s), t), Distance(s, Init(t)), Distance(Init(s), Init(t)), Last(s) == Last(t),
                  EndsSwapped(s, t), if EndsSwapped(s, t) then Distance(Init(Init(s)), Init(Init(t))) else 0);
    hide Distance, Cheapest, Init, Last;
  }

  lemma BothLastStep(s: string, t: string) returns (p: string, q: string, e: Edit, x: string)
    requires s != [] && t != []
    ensures |p| + |q| < |s| + |t| && |x| == Reads(e) && s == p + x && t == q + Writes(e, x)
    ensures Distance(s, t) == Distance(p, q) + Price(e)
  {
    Alternatives(s, t);
    hide Distance;
    Ends(s);
    Ends(t);
    var a, b := Last(s), Last(t);
    if Distance(s, t) == Distance(Init(s), t) + 1 {
      p, q, e, x := Init(s), t, Delete, [a];
    } else if Distance(s, t) == Distance(s, Init(t)) + 1 {
      p, q, e, x := s, Init(t), Insert(b), [];
    } else if Distance(s, t) == Distance(Init(s), Init(t)) + if a == b then 0 else 1 {
      p, q, x := Init(s), Init(t), [a];
      e := if a == b then Keep else Substitute(b);
    } else {
      p, q, e, x := Init(Init(s)), Init(Init(t)), Swap, [Last(Init(s)), a];
    }
  }

  lemma CheapestLastStep(s: string, t: string) returns (p: string, q: string, e: Edit, x: string)
    requires s != [] || t != []
    ensures |p| + |q| < |s| + |t| && |x| == Reads(e) && s == p + x && t == q + Writes(e, x)
    ensures Distance(s, t) == Distance(p, q) + Price(e)
  {
    if s == [] {
      p, q, e, x := s, Init(t), Insert(Last(t)), [];
      Ends(t);
    } else if t == [] {
      p, q, e, x := Init(s), t, Delete, [Last(s)];
      Ends(s);
    } else {
      p, q, e, x := BothLastStep(s, t);
    }
  }

  /** The cheapest way to rewrite `s` into `t`, built back from the ends of both words. */
  lemma {:induction false} CheapestScript(s: string, t: string) returns (script: Script)
    ensures Turns(script, s, t) && Cost(script) == Distance(s, t)
    decreases |s| + |t|
  {
    if s == [] && t == [] {
      return [];
    }
    var p, q, e, x := CheapestLastStep(s, t);
    script := CheapestScript(p, q);
    TurnsAppend(script, e, p, q, x);
    script := script + [e];
  }

  lemma StepInsert(p: string, q: string, c: char)
    ensures Distance(p, q + [c]) <= Distance(p, q) + 1
  {
    assert Init(q + [c]) == q;
    if p != [] {
      Alternatives(p, q + [c]);
      hide Distance;
    }
  }

  lemma StepDelete(p: string, a: char, q: string)
    ensures Distance(p + [a], q) <= Distance(p, q) + 1
  {
    assert Init(p + [a]) == p;
    if q != [] {
      Alternatives(p + [a], q);
      hide Distance;
    }
  }

  lemma StepReplace(p: string, a: char, q: string, b: char)
    ensures Distance(p + [a], q + [b]) <= Distance(p, q) + if a == b then 0 else 1
  {
    var s, t := p + [a], q + [b];
    assert Init(s) == p && Init(t) == q && Last(s) == a && Last(t) == b;
    Alternatives(s, t);
    hide Distance;
  }

  lemma StepSwap(p: string, q: string, a: char, b: char)
    ensures Distance(p + [a, b], q + [b, a]) <= Distance(p, q) + 1
  {
    var s, t := p + [a, b], q + [b, a];
    assert Init(s) == p + [a] && Init(t) == q + [b] && Last(s) == b && Last(t) == a;
    assert Init(Init(s)) == p && Init(Init(t)) == q;
    Alternatives(s, t);
    hide Distance;
  }

  /** Dropping the end of a word with one more step costs at least what the recurrence says. */
  lemma StepBound(p: string, q: string, e: Edit, x: string)
    requires |x| == Reads(e)
    ensures Distance(p + x, q + Writes(e, x)) <= Distance(p, q) + Price(e)
  {
    hide Distance;
    match e
    case Insert(c) =>
      assert p + x == p;
      StepInsert(p, q, c);
    case Delete =>
      assert x == [x[0]] && q + [] == q;
      StepDelete(p, x[0], q);
    case Swap =>
      assert x == [x[0], x[1]];
      StepSwap(p, q, x[0], x[1]);
    case Keep =>
      assert x == [x[0]];
      StepReplace(p, x[0], q, x[0]);
    case Substitute(to) =>
      assert x == [x[0]];
      StepReplace(p, x[0], q, to);
  }

  lemma {:induction false} NoCheaperScript(script: Script, s: string, t: string)
    requires Turns(script, s, t)
    ensures Distance(s, t) <= Cost(script)
    decreases |script|
  {
    if script != [] {
      hide Distance;
      var init, e, p, u, x := LastStep(script, s, t);
      NoCheaperScript(init, p, u);
      StepBound(p, u, e, x);
    }
  }

  /** The distance is the cost of some script that turns `s` into `t`, and of no cheaper one. */
  lemma DistanceIsLeastCost(s: string, t: string)
    ensures exists script :: Turns(script, s, t) && Cost(script) == Distance(s, t)
    ensures forall script :: Turns(script, s, t) ==> Distance(s, t) <= Cost(script)
  {
    var script := CheapestScript(s, t);
    forall other | Turns(other, s, t) ensures Distance(s, t) <= Cost(other) {
      NoCheaperScript(other, s, t);
    }
  }

  // --- Properties of the distance ---

  lemma {:induction false} Symmetric(s: string, t: string)
    ensures Distance(s, t) == Distance(t, s)
    decreases |s| + |t|
  {
    if s != [] && t != [] {
      Unfolded(s, t);
      Unfolded(t, s);
      hide Distance;
      Symmetric(Init(s), t);
      Symmetric(s, Init(t));
      Symmetric(Init(s), Init(t));
      if EndsSwapped(s, t) {
        Symmetric(Init(Init(s)), Init(Init(t)));
      }
    }
  }

  lemma {:induction false} LengthBounds(s: string, t: string)
    ensures |s| - |t| <= Distance(s, t) && |t| - |s| <= Distance(s, t)
    ensures Distance(s, t) <= |s| || Distance(s, t) <= |t|
    decreases |s| + |t|
  {
    if s != [] && t != [] {
      Unfolded(s, t);
      hide Distance;
      LengthBounds(Init(s), t);
      LengthBounds(s, Init(t));
      LengthBounds(Init(s), Init(t));
      if EndsSwapped(s, t) {
        LengthBounds(Init(Init(s)), Init(Init(t)));
      }
    }
  }

  lemma {:induction false} ZeroOnlyOnEqual(s: string, t: string)
    ensures Distance(s, t) == 0 <==> s == t
    decreases |s| + |t|
  {
    if s != [] && t != [] {
      Unfolded(s, t);
      hide Distance;
      ZeroOnlyOnEqual(Init(s), Init(t));
      Ends(s);
      Ends(t);
    }
  }

  lemma Snoc(p: string, x: char, q: string, y: char)
    ensures var swapped := p != [] && q != [] && x == Last(q) && Last(p) == y;
            Distance(p + [x], q + [y]) ==
            Cheapest(Distance(p, q + [y]), Distance(p + [x], q), Distance(p, q), x == y, swapped,
                     if swapped then Distance(Init(p), Init(q)) else 0)
  {
    hide Distance, Cheapest;
    Unfolded(p + [x], q + [y]);
    assert Init(p + [x]) == p && Init(q + [y]) == q;
  }

  /** The restricted form is no metric: going through a third word can be cheaper. */
  lemma TriangleFails(a: char, b: char, c: char)
    requires a != b && b != c && c != a
    ensures Distance([c, a], [a, c]) == 1
    ensures Distance([a, c], [a, b, c]) == 1
    ensures Distance([c, a], [a, b, c]) == 3
  {
    assert [] + [a] == [a] && [] + [c] == [c] && [a] + [c] == [a, c] && [c] + [a] == [c, a];
    assert [a] + [b] == [a, b] && [a, b] + [c] == [a, b, c];
    var ca, ac, ab, abc := [c, a], [a, c], [a, b], [a, b, c];
    assert Init([a]) == [] && Init([c]) == [] && Init(ab) == [a];
    assert Distance([], []) == 0 && Distance([c], []) == 1 && Distance(ca, []) == 2 && Distance([a], []) == 1;
    assert Distance([], [a]) == 1 && Distance([], ab) == 2 && Distance([], abc) == 3 && Distance([], ac) == 2;
    hide Distance, Init;
    Snoc([], c, [], a);
    Snoc([], c, [a], b);
    Snoc([], c, ab, c);
    Snoc([c], a, [], a);
    Snoc([c], a, [a], b);
    Snoc([c], a, ab, c);
    DistanceToSelf([a]);
    Snoc([], a, [a], b);
    Snoc([a], c, ab, c);
    Snoc([], a, ab, c);
    Snoc([a], c, [a], b);
    Snoc([], c, [a], c);
    Snoc([c], a, [a], c);
    ZeroOnlyOnEqual(ca, ac);
    ZeroOnlyOnEqual(ac, abc);
  }

  // --- Matching a query term against an indexed term ---

  function MaxAllowedTypos(length: nat): nat {
    if length < 5 then 0 else if length <= 8 then 1 else 2
  }

  datatype Match = Match(matched: bool, typos: nat, isPrefix: bool)

  const NO_MATCH := Match(false, 999, false)

  function Allowance(q: string, maxTypos: int): int {
    var a := MaxAllowedTypos(|q|);
    if a <= maxTypos then a else maxTypos
  }

  /** The two things a term can be compared by. */
  function Alternative(q: string, term: string, asPrefix: bool): string {
    if asPrefix && |term| >= |q| then term[..|q|] else term
  }

  /** The alternative may be used, and equals the query or is within the allowance. */
  predicate Acceptable(q: string, term: string, isPrefix: bool, maxTypos: int, asPrefix: bool) {
    && (asPrefix ==> isPrefix && |term| >= |q|)
    && var d := Distance(q, Alternative(q, term, asPrefix));
    d == 0 || d <= Allowance(q, maxTypos)
  }

  /** What a match is: some alternative is acceptable; the one reported is, with its true distance;
      and it is the prefix unless that is not acceptable or the term equals the query. */
  predicate IsMatch(q: string, term: string, isPrefix: bool, maxTypos: int, m: Match) {
    && (m.matched <==> Acceptable(q, term, isPrefix, maxTypos, true) || Acceptable(q, term, isPrefix, maxTypos, false))
    && (m.matched ==> Acceptable(q, term, isPrefix, maxTypos, m.isPrefix)
                      && m.typos == Distance(q, Alternative(q, term, m.isPrefix)))
    && (m.isPrefix <==> q != term && Acceptable(q, term, isPrefix, maxTypos, true))
    && (!m.matched ==> m == NO_MATCH)
  }

  /** The match, as a function for the specification of searches. */
  function Matched(q: string, term: string, isPrefix: bool, maxTypos: int): Match {
    var allowed := Allowance(q, maxTypos);
    if q == term then Match(true, 0, false)
    else if isPrefix && q <= term then Match(true, 0, true)
    else if isPrefix && |term| >= |q| && Distance(q, term[..|q|]) <= allowed then
      Match(true, Distance(q, term[..|q|]), true)
    else if Distance(q, term) <= allowed then Match(true, Distance(q, term), false)
    else NO_MATCH
  }

  /** Being a match determines the match. */
  lemma MatchedExactly(q: string, term: string, isPrefix: bool, maxTypos: int, m: Match)
    ensures IsMatch(q, term, isPrefix, maxTypos, m) <==> m == Matched(q, term, isPrefix, maxTypos)
  {
    ZeroOnlyOnEqual(q, term);
    if |term| >= |q| {
      ZeroOnlyOnEqual(q, term[..|q|]);
    }
    hide Distance, Allowance;
    assert Alternative(q, term, false) == term;
  }

  method MatchWithTypo(q: string, term: string, isPrefix: bool, maxTypos: int) returns (m: Match)
    ensures IsMatch(q, term, isPrefix, maxTypos, m)
  {
    ZeroOnlyOnEqual(q, term);
    if |term| >= |q| {
      ZeroOnlyOnEqual(q, term[..|q|]);
    }
    hide Distance;
    var allowed := Allowance(q, maxTypos);
    if q == term {
      return Match(true, 0, false);
    }
    if isPrefix && |term| >= |q| && q <= term {
      return Match(true, 0, true);
    }
    if isPrefix && |term| >= |q| {
      var d := DamerauLevenshtein(q, term[..|q|]);
      if d <= allowed {
        return Match(true, d, true);
      }
    }
    var d := DamerauLevenshtein(q, term);
    if d <= allowed {
      return Match(true, d, false);
    }
    m := NO_MATCH;
  }

  /** No typos are reported exactly on an equal term or a requested prefix. */
  lemma NoTyposExactly(q: string, term: string, isPrefix: bool, maxTypos: int, m: Match)
    requires IsMatch(q, term, isPrefix, maxTypos, m)
    ensures m.typos == 0 <==> q == term || (isPrefix && q <= term)
  {
    MatchedExactly(q, term, isPrefix, maxTypos, m);
    ZeroOnlyOnEqual(q, term);
    if |term| >= |q| {
      ZeroOnlyOnEqual(q, term[..|q|]);
    }
    hide Distance;
  }

  /** The term, or its requested prefix, is at most `typos` away. */
  predicate Within(q: string, term: string, isPrefix: bool, typos: int) {
    Distance(q, term) <= typos || (isPrefix && |term| >= |q| && Distance(q, term[..|q|]) <= typos)
  }

  /** What is forgiven, by the length of the query: nothing below five letters, one typo from five to
      eight, two from nine on; never more than the caller allows. An equal term and a requested prefix
      always match. */
  lemma MatchesByLength(q: string, term: string, isPrefix: bool, maxTypos: int, m: Match)
    requires IsMatch(q, term, isPrefix, maxTypos, m)
    ensures var exact := q == term || (isPrefix && q <= term);
            && (|q| < 5 ==> (m.matched <==> exact))
            && (5 <= |q| <= 8 && maxTypos >= 1 ==> (m.matched <==> Within(q, term, isPrefix, 1)))
            && (9 <= |q| && maxTypos >= 2 ==> (m.matched <==> Within(q, term, isPrefix, 2)))
            && (9 <= |q| && maxTypos == 1 ==> (m.matched <==> Within(q, term, isPrefix, 1)))
            && (maxTypos <= 0 ==> (m.matched <==> exact))
    ensures m.matched ==> 0 <= m.typos <= 2
    ensures !m.matched ==> m.typos == 999 && !m.isPrefix
  {
    MatchedExactly(q, term, isPrefix, maxTypos, m);
    ZeroOnlyOnEqual(q, term);
    if |term| >= |q| {
      ZeroOnlyOnEqual(q, term[..|q|]);
    }
    hide Distance;
  }

  lemma {:induction false} DroppingTheEnd(s: string, t: string)
    requires t != []
    ensures Distance(s, Init(t)) <= Distance(s, t) + 1
    decreases |s|
  {
    if s != [] {
      Unfolded(s, t);
      Ends(s);
      Ends(t);
      var p, q := Init(s), Init(t);
      DroppingTheEnd(p, t);
      hide Distance;
      StepBound(p, q, Delete, [Last(s)]);
      assert q + [] == q;
      if EndsSwapped(s, t) {
        Ends(q);
        StepBound(p, Init(q), Keep, [Last(s)]);
        StepBound(Init(p), Init(q), Delete, [Last(p)]);
        Ends(p);
        assert Init(q) + [] == Init(q);
      }
    }
  }

  lemma {:induction false} DroppingMore(s: string, t: string, n: nat)
    requires n <= |t|
    ensures Distance(s, t[..n]) <= Distance(s, t) + (|t| - n)
    decreases |t|
  {
    if n == |t| {
      assert t[..n] == t;
    } else {
      hide Distance;
      DroppingTheEnd(s, t);
      DroppingMore(s, Init(t), n);
      assert Init(t)[..n] == t[..n];
    }
  }

  /** A match reports more typos than the whole term has exactly when its prefix is farther away
      than the term is, and within the allowance. */
  lemma OverreportsExactly(q: string, term: string, isPrefix: bool, maxTypos: int, m: Match)
    requires IsMatch(q, term, isPrefix, maxTypos, m)
    ensures m.matched && m.typos > Distance(q, term) <==>
            isPrefix && |term| >= |q| && Distance(q, term) < Distance(q, term[..|q|]) <= Allowance(q, maxTypos)
  {
    MatchedExactly(q, term, isPrefix, maxTypos, m);
    ZeroOnlyOnEqual(q, term);
    if |term| >= |q| {
      ZeroOnlyOnEqual(q, term[..|q|]);
    }
    hide Distance, Allowance;
  }

  /** It never reports more than twice as many. */
  lemma PrefixAtMostDoubles(q: string, term: string, isPrefix: bool, maxTypos: int, m: Match)
    requires IsMatch(q, term, isPrefix, maxTypos, m) && m.matched
    ensures m.typos <= 2 * Distance(q, term)
  {
    MatchedExactly(q, term, isPrefix, maxTypos, m);
    LengthBounds(q, term);
    ZeroOnlyOnEqual(q, term);
    if |term| >= |q| {
      DroppingMore(q, term, |q|);
      ZeroOnlyOnEqual(q, term[..|q|]);
    }
    hide Distance, Allowance;
  }

  function Differences(s: string, t: string): nat
    requires |s| == |t|
  {
    if s == [] then 0 else Differences(Init(s), Init(t)) + if Last(s) == Last(t) then 0 else 1
  }

  lemma {:induction false} NoDifferences(s: string)
    ensures Differences(s, s) == 0
  {
    if s != [] { NoDifferences(Init(s)); }
  }

  /** Words of one length at distance one differ in at most two places. */
  lemma {:induction false} OneTypoIsLocal(s: string, t: string)
    requires |s| == |t| && Distance(s, t) <= 1
    ensures Differences(s, t) <= 2
  {
    if s != [] {
      Alternatives(s, t);
      LengthBounds(Init(s), t);
      LengthBounds(s, Init(t));
      ZeroOnlyOnEqual(Init(s), Init(t));
      NoDifferences(Init(s));
      if EndsSwapped(s, t) {
        ZeroOnlyOnEqual(Init(Init(s)), Init(Init(t)));
        NoDifferences(Init(Init(s)));
        assert Differences(Init(s), Init(t)) ==
               Differences(Init(Init(s)), Init(Init(t))) + if Last(Init(s)) == Last(Init(t)) then 0 else 1;
      }
      hide Distance;
      if Distance(Init(s), Init(t)) <= 1 && Last(s) == Last(t) {
        OneTypoIsLocal(Init(s), Init(t));
      }
    }
  }

  lemma {:induction false} AllDifferent(s: string, t: string)
    requires |s| == |t| && forall i | 0 <= i < |s| :: s[i] != t[i]
    ensures Differences(s, t) == |s|
  {
    if s != [] { AllDifferent(Init(s), Init(t)); }
  }

  lemma {:induction false} PrependOne(q: string, a: char)
    ensures Distance(q, [a] + q) <= 1
  {
    if q == [] {
      assert Distance([], [a]) == 1;
      assert [a] + q == [a];
    } else {
      var t := [a] + q;
      assert Init(t) == [a] + Init(q) && Last(t) == Last(q);
      PrependOne(Init(q), a);
      Alternatives(q, t);
      hide Distance;
    }
  }

  /** The factor two is reached: a letter in front of nine others that never repeat their
      neighbour is one typo, and two against the prefix of the query's length. */
  lemma PrefixDoubles(q: string, a: char, maxTypos: int, m: Match)
    requires |q| == 9 && q[0] != a && maxTypos >= 2 && forall i | 0 < i < 9 :: q[i] != q[i - 1]
    requires IsMatch(q, [a] + q, true, maxTypos, m)
    ensures Distance(q, [a] + q) == 1 && m == Match(true, 2, true)
  {
    var term := [a] + q;
    var prefix := term[..9];
    var front := [a] + Init(q);
    assert prefix == front;
    LengthBounds(q, term);
    PrependOne(q, a);
    assert Init(term) == front && Last(term) == Last(q);
    assert forall i | 0 <= i < 9 :: q[i] != prefix[i];
    AllDifferent(q, prefix);
    if Distance(q, prefix) <= 1 { OneTypoIsLocal(q, prefix); }
    DroppingTheEnd(q, term);
    MatchedExactly(q, term, true, maxTypos, m);
    ZeroOnlyOnEqual(q, prefix);
    hide Distance;
  }
}
