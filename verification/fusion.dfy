/** Reciprocal rank fusion of two rankings. */
module Fusion {
  import opened Schema

  datatype Scored = Scored(id: string, score: real)

  // --- The stable descending sort the result is passed through ---

  /** Puts `x` behind everything that scores at least as much. */
  function Insert(s: seq<Scored>, x: Scored): seq<Scored> {
    if s == [] || s[|s| - 1].score >= x.score then s + [x]
    else Insert(s[..|s| - 1], x) + [s[|s| - 1]]
  }

  function SortedByScore(s: seq<Scored>): seq<Scored> {
    if s == [] then [] else Insert(SortedByScore(s[..|s| - 1]), s[|s| - 1])
  }

  ghost predicate NonIncreasing(s: seq<Scored>) {
    forall i, j | 0 <= i < j < |s| :: s[i].score >= s[j].score
  }

  lemma {:induction false} InsertMembers(s: seq<Scored>, x: Scored)
    ensures forall y :: y in Insert(s, x) <==> y in s || y == x
  {
    if s != [] && s[|s| - 1].score < x.score {
      var n := |s| - 1;
      InsertMembers(s[..n], x);
      assert s == s[..n] + [s[n]];
    }
  }

  /** The entries of one score, in order. */
  function Level(s: seq<Scored>, k: real): seq<Scored> {
    if s == [] then []
    else
      var n := |s| - 1;
      if s[n].score == k then Level(s[..n], k) + [s[n]] else Level(s[..n], k)
  }

  lemma {:induction false} InsertPermutes(s: seq<Scored>, x: Scored)
    ensures multiset(Insert(s, x)) == multiset(s) + multiset{x}
  {
    if s != [] && s[|s| - 1].score < x.score {
      var n := |s| - 1;
      InsertPermutes(s[..n], x);
      assert s == s[..n] + [s[n]];
    }
  }

  lemma {:induction false} InsertKeepsOrder(s: seq<Scored>, x: Scored)
    requires NonIncreasing(s)
    ensures NonIncreasing(Insert(s, x))
  {
    if s != [] && s[|s| - 1].score < x.score {
      var n := |s| - 1;
      InsertKeepsOrder(s[..n], x);
      InsertMembers(s[..n], x);
      var shorter := Insert(s[..n], x);
      assert Insert(s, x) == shorter + [s[n]];
      hide Insert;
      forall i | 0 <= i < |shorter| ensures shorter[i].score >= s[n].score {
        assert shorter[i] in shorter;
      }
    }
  }

  lemma {:induction false} InsertKeepsLevels(s: seq<Scored>, x: Scored, k: real)
    ensures Level(Insert(s, x), k) == Level(s + [x], k)
  {
    if s != [] && s[|s| - 1].score < x.score {
      var n := |s| - 1;
      var shorter := Insert(s[..n], x);
      InsertKeepsLevels(s[..n], x, k);
      assert (shorter + [s[n]])[..|shorter|] == shorter && (s + [x])[..|s|] == s && (s[..n] + [x])[..n] == s[..n];
    }
  }

  lemma {:induction false} SortOrders(s: seq<Scored>)
    ensures NonIncreasing(SortedByScore(s)) && multiset(SortedByScore(s)) == multiset(s)
  {
    if s != [] {
      var n := |s| - 1;
      SortOrders(s[..n]);
      InsertKeepsOrder(SortedByScore(s[..n]), s[n]);
      InsertPermutes(SortedByScore(s[..n]), s[n]);
      assert s == s[..n] + [s[n]];
      hide Insert, NonIncreasing;
    }
  }

  lemma {:induction false} SortKeepsLevels(s: seq<Scored>, k: real)
    ensures Level(SortedByScore(s), k) == Level(s, k)
  {
    if s != [] {
      var n := |s| - 1;
      var r := SortedByScore(s[..n]);
      SortKeepsLevels(s[..n], k);
      InsertKeepsLevels(r, s[n], k);
      hide Insert;
      assert (r + [s[n]])[..|r|] == r;
    }
  }

  /** Sorting permutes, puts higher scores first, and keeps equal scores in their order. */
  lemma SortIsStable(s: seq<Scored>)
    ensures var r := SortedByScore(s);
            NonIncreasing(r) && multiset(r) == multiset(s) && forall k :: Level(r, k) == Level(s, k)
  {
    hide *;
    SortOrders(s);
    forall k ensures Level(SortedByScore(s), k) == Level(s, k) {
      SortKeepsLevels(s, k);
    }
  }

  // --- Fusing ---

  /** No rank from 1 to `n` makes the divisor zero. */
  predicate Divides(k: int, n: int) {
    k >= 0 || k + n < 0
  }

  function Reciprocal(weight: real, k: int, rank: nat): real
    requires k + rank != 0
  {
    weight / ((k + rank) as real)
  }

  /** What a ranking contributes to an id: one share for every place it has. */
  function Share(ranking: seq<Scored>, id: string, weight: real, k: int): real
    requires Divides(k, |ranking|)
  {
    if ranking == [] then 0.0
    else
      var n := |ranking| - 1;
      Share(ranking[..n], id, weight, k) + if ranking[n].id == id then Reciprocal(weight, k, |ranking|) else 0.0
  }

  predicate Ranks(ranking: seq<Scored>, id: string) {
    exists i | 0 <= i < |ranking| :: ranking[i].id == id
  }

  /** The running totals: distinct ids in the order they were first met, one score each. */
  datatype Totals = Totals(ids: seq<string>, scores: map<string, real>)

  ghost predicate Proper(t: Totals) {
    NoDuplicates(t.ids) && forall id :: id in t.ids <==> id in t.scores
  }

  function Score(t: Totals, id: string): real {
    if id in t.scores then t.scores[id] else 0.0
  }

  /** `after` is `before` with the shares of a ranking added. */
  ghost predicate Adds(before: Totals, ranking: seq<Scored>, weight: real, k: int, after: Totals)
    requires Divides(k, |ranking|)
  {
    && Proper(after) && before.ids <= after.ids
    && (forall id :: id in after.scores <==> id in before.scores || Ranks(ranking, id))
    && forall id :: Score(after, id) == Score(before, id) + Share(ranking, id, weight, k)
  }

  function AddOne(t: Totals, id: string, share: real): Totals {
    Totals(if id in t.scores then t.ids else t.ids + [id], t.scores[id := Score(t, id) + share])
  }

  lemma AddsOne(before: Totals, ranking: seq<Scored>, weight: real, k: int, t: Totals, x: Scored)
    requires Divides(k, |ranking| + 1) && Adds(before, ranking, weight, k, t)
    ensures Adds(before, ranking + [x], weight, k, AddOne(t, x.id, Reciprocal(weight, k, |ranking| + 1)))
  {
    var more, share := ranking + [x], Reciprocal(weight, k, |ranking| + 1);
    var t' := AddOne(t, x.id, share);
    assert more[..|ranking|] == ranking;
    assert forall id :: Share(more, id, weight, k) == Share(ranking, id, weight, k) + if x.id == id then share else 0.0;
    hide Reciprocal, Share;
    forall id ensures Ranks(more, id) <==> Ranks(ranking, id) || id == x.id {
      assert more[|ranking|].id == x.id;
      assert forall i | 0 <= i < |ranking| :: more[i] == ranking[i];
    }
  }

  method AddShare(t: Totals, id: string, share: real) returns (r: Totals)
    ensures r == AddOne(t, id, share)
  {
    var scores, ids := t.scores, t.ids;
    if id !in scores {
      ids := ids + [id];
    }
    scores := scores[id := (if id in scores then scores[id] else 0.0) + share];
    r := Totals(ids, scores);
  }

  lemma AddsNothing(before: Totals, weight: real, k: int)
    requires Proper(before) && Divides(k, 0)
    ensures Adds(before, [], weight, k, before)
  {
  }

  method AddRanking(before: Totals, ranking: seq<Scored>, weight: real, k: int) returns (ok: bool, t: Totals)
    requires Proper(before)
    ensures ok <==> Divides(k, |ranking|)
    ensures ok ==> Adds(before, ranking, weight, k, t)
  {
    hide Adds, Share, Proper, NoDuplicates, Ranks, Reciprocal, AddOne;
    t := before;
    assert ranking[..0] == [];
    AddsNothing(before, weight, k);
    for i := 0 to |ranking|
      invariant Divides(k, i)
      invariant Adds(before, ranking[..i], weight, k, t)
    {
      var rank := i + 1;
      if k + rank == 0 {
        return false, t;
      }
      AddsOne(before, ranking[..i], weight, k, t, ranking[i]);
      assert ranking[..i + 1] == ranking[..i] + [ranking[i]];
      t := AddShare(t, ranking[i].id, Reciprocal(weight, k, rank));
    }
    assert ranking[..|ranking|] == ranking;
    ok := true;
  }

  function Items(t: Totals): seq<Scored> {
    seq(|t.ids|, i requires 0 <= i < |t.ids| => Scored(t.ids[i], Score(t, t.ids[i])))
  }

  /** What a fusion of two rankings is. */
  ghost predicate IsFusion(lexical: seq<Scored>, semantic: seq<Scored>, weightLexical: real, weightSemantic: real, k: int,
                           fused: seq<Scored>)
    requires Divides(k, |lexical|) && Divides(k, |semantic|)
  {
    && NonIncreasing(fused)
    && (forall i, j | 0 <= i < j < |fused| :: fused[i].id != fused[j].id)
    && (forall id :: Ranks(fused, id) <==> Ranks(lexical, id) || Ranks(semantic, id))
    && forall x | x in fused :: x.score == Share(lexical, x.id, weightLexical, k) + Share(semantic, x.id, weightSemantic, k)
  }

  lemma FusionOfTotals(t: Totals, lexical: seq<Scored>, semantic: seq<Scored>, weightLexical: real, weightSemantic: real,
                       k: int, fused: seq<Scored>)
    requires Divides(k, |lexical|) && Divides(k, |semantic|) && NonIncreasing(fused)
    requires forall i, j | 0 <= i < j < |fused| :: fused[i].id != fused[j].id
    requires forall x :: x in fused <==> x.id in t.scores && x.score == t.scores[x.id]
    requires forall id :: Ranks(fused, id) <==> id in t.scores
    requires forall id :: id in t.scores <==> Ranks(lexical, id) || Ranks(semantic, id)
    requires forall id | id in t.scores ::
               t.scores[id] == Share(lexical, id, weightLexical, k) + Share(semantic, id, weightSemantic, k)
    ensures IsFusion(lexical, semantic, weightLexical, weightSemantic, k, fused)
  {
    hide Divides, NonIncreasing, Ranks, Share;
  }

  lemma TotalsAdd(start: Totals, first: Totals, t: Totals, lexical: seq<Scored>, semantic: seq<Scored>,
                  weightLexical: real, weightSemantic: real, k: int)
    requires start == Totals([], map[]) && Divides(k, |lexical|) && Divides(k, |semantic|)
    requires Adds(start, lexical, weightLexical, k, first) && Adds(first, semantic, weightSemantic, k, t)
    ensures Proper(t)
    ensures forall id :: id in t.scores <==> Ranks(lexical, id) || Ranks(semantic, id)
    ensures forall id | id in t.scores ::
              t.scores[id] == Share(lexical, id, weightLexical, k) + Share(semantic, id, weightSemantic, k)
  {
    hide Share, Proper, Ranks;
    forall id | id in t.scores
      ensures t.scores[id] == Share(lexical, id, weightLexical, k) + Share(semantic, id, weightSemantic, k)
    {
      assert Score(t, id) == t.scores[id] && Score(start, id) == 0.0;
    }
  }

  lemma RanksOfScores(fused: seq<Scored>, t: Totals)
    requires forall x :: x in fused <==> x.id in t.scores && x.score == t.scores[x.id]
    ensures forall id :: Ranks(fused, id) <==> id in t.scores
  {
    forall id ensures Ranks(fused, id) <==> id in t.scores {
      if id in t.scores {
        assert Scored(id, t.scores[id]) in fused;
      }
      if Ranks(fused, id) {
        var i :| 0 <= i < |fused| && fused[i].id == id;
        assert fused[i] in fused;
      }
    }
  }

  lemma OnceOnly(items: seq<Scored>, a: nat)
    requires a < |items| && forall i, j | 0 <= i < j < |items| :: items[i].id != items[j].id
    ensures multiset(items)[items[a]] == 1
  {
    assert items == items[..a] + [items[a]] + items[a + 1..];
    assert items[a] !in items[..a] && items[a] !in items[a + 1..];
  }

  lemma Twice(s: seq<Scored>, i: nat, j: nat)
    requires i < j < |s| && s[i] == s[j]
    ensures multiset(s)[s[i]] >= 2
  {
    assert s == s[..i] + [s[i]] + s[i + 1..];
    assert s[i + 1..][j - i - 1] == s[j];
  }

  lemma SameIdSame(items: seq<Scored>, x: Scored, y: Scored)
    requires forall i, j | 0 <= i < j < |items| :: items[i].id != items[j].id
    requires x in items && y in items && x.id == y.id
    ensures x == y
  {
    var a :| 0 <= a < |items| && items[a] == x;
    var b :| 0 <= b < |items| && items[b] == y;
    assert a == b;
  }

  /** A permutation of entries with distinct ids has distinct ids. */
  lemma OnePerId(items: seq<Scored>, fused: seq<Scored>)
    requires multiset(fused) == multiset(items)
    requires forall i, j | 0 <= i < j < |items| :: items[i].id != items[j].id
    ensures forall i, j | 0 <= i < j < |fused| :: fused[i].id != fused[j].id
  {
    forall i, j | 0 <= i < j < |fused| ensures fused[i].id != fused[j].id {
      if fused[i].id == fused[j].id {
        assert fused[i] in multiset(items) && fused[j] in multiset(items);
        SameIdSame(items, fused[i], fused[j]);
        Twice(fused, i, j);
        var a :| 0 <= a < |items| && items[a] == fused[i];
        OnceOnly(items, a);
      }
    }
  }

  lemma SortedItems(t: Totals)
    requires Proper(t)
    ensures var fused := SortedByScore(Items(t));
            && NonIncreasing(fused)
            && (forall i, j | 0 <= i < j < |fused| :: fused[i].id != fused[j].id)
            && forall x :: x in fused <==> x.id in t.scores && x.score == t.scores[x.id]
  {
    var items := Items(t);
    var fused := SortedByScore(items);
    SortOrders(items);
    hide NonIncreasing, SortedByScore;
    forall x ensures x in fused <==> x.id in t.scores && x.score == t.scores[x.id] {
      assert x in fused <==> x in multiset(fused);
      assert x in items <==> x in multiset(items);
      if x.id in t.scores && x.score == t.scores[x.id] {
        assert x.id in t.ids;
        var i :| 0 <= i < |t.ids| && t.ids[i] == x.id;
        assert items[i] == x;
      }
    }
    OnePerId(items, fused);
  }

  lemma FusedIsFusion(start: Totals, first: Totals, t: Totals, lexical: seq<Scored>, semantic: seq<Scored>,
                      weightLexical: real, weightSemantic: real, k: int)
    requires start == Totals([], map[]) && Divides(k, |lexical|) && Divides(k, |semantic|)
    requires Adds(start, lexical, weightLexical, k, first) && Adds(first, semantic, weightSemantic, k, t)
    ensures IsFusion(lexical, semantic, weightLexical, weightSemantic, k, SortedByScore(Items(t)))
  {
    hide *;
    var fused := SortedByScore(Items(t));
    TotalsAdd(start, first, t, lexical, semantic, weightLexical, weightSemantic, k);
    SortedItems(t);
    RanksOfScores(fused, t);
    FusionOfTotals(t, lexical, semantic, weightLexical, weightSemantic, k, fused);
  }

  /** Each id of either ranking comes out exactly once, with the sum of its shares, best first. */
  method Fuse(lexical: seq<Scored>, semantic: seq<Scored>, weightLexical: real, weightSemantic: real, k: int)
      returns (ok: bool, fused: seq<Scored>)
    ensures ok <==> Divides(k, |lexical|) && Divides(k, |semantic|)
    ensures ok ==> IsFusion(lexical, semantic, weightLexical, weightSemantic, k, fused)
  {
    fused := [];
    var t: Totals;
    var start := Totals([], map[]);
    ok, t := AddRanking(start, lexical, weightLexical, k);
    if ok {
      var first := t;
      ok, t := AddRanking(first, semantic, weightSemantic, k);
      if ok {
        fused := SortedByScore(Items(t));
        FusedIsFusion(start, first, t, lexical, semantic, weightLexical, weightSemantic, k);
      }
    }
  }

  // --- Better ranks never score lower ---

  ghost predicate DuplicateFree(ranking: seq<Scored>) {
    forall i, j | 0 <= i < j < |ranking| :: ranking[i].id != ranking[j].id
  }

  /** `a` is ranked no worse than `b`; not being ranked is worst. */
  ghost predicate NoWorse(ranking: seq<Scored>, a: string, b: string) {
    forall j | 0 <= j < |ranking| && ranking[j].id == b :: exists i | 0 <= i <= j :: ranking[i].id == a
  }

  lemma {:induction false} ShareAbsent(ranking: seq<Scored>, id: string, weight: real, k: int)
    requires Divides(k, |ranking|) && !Ranks(ranking, id)
    ensures Share(ranking, id, weight, k) == 0.0
  {
    if ranking != [] {
      var n := |ranking| - 1;
      assert ranking[n].id != id;
      ShareAbsent(ranking[..n], id, weight, k);
    }
  }

  lemma {:induction false} ShareAt(ranking: seq<Scored>, i: nat, weight: real, k: int)
    requires Divides(k, |ranking|) && DuplicateFree(ranking) && i < |ranking|
    ensures Share(ranking, ranking[i].id, weight, k) == Reciprocal(weight, k, i + 1)
  {
    var n := |ranking| - 1;
    hide Reciprocal;
    if i == n {
      ShareAbsent(ranking[..n], ranking[n].id, weight, k);
    } else {
      ShareAt(ranking[..n], i, weight, k);
    }
  }

  lemma ReciprocalFalls(weight: real, k: int, i: nat, j: nat)
    requires weight >= 0.0 && k >= 0 && 1 <= i <= j
    ensures 0.0 <= Reciprocal(weight, k, j) <= Reciprocal(weight, k, i)
  {
    var x, y := (k + i) as real, (k + j) as real;
    assert 0.0 < x <= y;
    var q := weight / y;
    assert q * y == weight && q >= 0.0;
    assert q * x <= weight;
    assert q <= weight / x;
  }

  lemma {:induction false} ShareNotNegative(ranking: seq<Scored>, id: string, weight: real, k: int)
    requires k >= 0 && weight >= 0.0
    ensures Share(ranking, id, weight, k) >= 0.0
  {
    if ranking != [] {
      ShareNotNegative(ranking[..|ranking| - 1], id, weight, k);
      ReciprocalFalls(weight, k, |ranking|, |ranking|);
      hide Reciprocal;
    }
  }

  lemma ShareMonotone(ranking: seq<Scored>, a: string, b: string, weight: real, k: int)
    requires k >= 0 && weight >= 0.0 && DuplicateFree(ranking) && NoWorse(ranking, a, b)
    ensures Share(ranking, b, weight, k) <= Share(ranking, a, weight, k)
  {
    hide Reciprocal, Share;
    if Ranks(ranking, b) {
      var j :| 0 <= j < |ranking| && ranking[j].id == b;
      var i :| 0 <= i <= j && ranking[i].id == a;
      ShareAt(ranking, i, weight, k);
      ShareAt(ranking, j, weight, k);
      ReciprocalFalls(weight, k, i + 1, j + 1);
    } else {
      ShareAbsent(ranking, b, weight, k);
      ShareNotNegative(ranking, a, weight, k);
    }
  }

  /** With duplicate-free rankings, an id ranked no worse than another in both lists never
      scores lower. */
  lemma RankedNoWorseScoresNoLower(lexical: seq<Scored>, semantic: seq<Scored>, weightLexical: real, weightSemantic: real,
                                   k: int, fused: seq<Scored>, x: Scored, y: Scored)
    requires k >= 0 && weightLexical >= 0.0 && weightSemantic >= 0.0
    requires DuplicateFree(lexical) && DuplicateFree(semantic)
    requires IsFusion(lexical, semantic, weightLexical, weightSemantic, k, fused) && x in fused && y in fused
    requires NoWorse(lexical, x.id, y.id) && NoWorse(semantic, x.id, y.id)
    ensures x.score >= y.score
  {
    ShareMonotone(lexical, x.id, y.id, weightLexical, k);
    ShareMonotone(semantic, x.id, y.id, weightSemantic, k);
    hide Share, NonIncreasing, Ranks, NoWorse;
  }

  /** An id's place in a ranking, from one; absent from it when there is none. */
  ghost predicate PlacedAt(ranking: seq<Scored>, id: string, place: Option<nat>) {
    match place
    case Some(i) => 1 <= i <= |ranking| && ranking[i - 1].id == id
    case None => forall i | 0 <= i < |ranking| :: ranking[i].id != id
  }

  /** One over rank, weighted. */
  function Part(weight: real, k: int, place: Option<nat>): real
    requires place.Some? ==> k + place.value != 0
  {
    if place.Some? then weight / (k + place.value) as real else 0.0
  }

  lemma ShareIs(ranking: seq<Scored>, id: string, weight: real, k: int, place: Option<nat>)
    requires Divides(k, |ranking|) && DuplicateFree(ranking) && PlacedAt(ranking, id, place)
    ensures place.Some? ==> k + place.value != 0
    ensures Share(ranking, id, weight, k) == Part(weight, k, place)
  {
    if place.Some? {
      ShareAt(ranking, place.value - 1, weight, k);
    } else {
      ShareAbsent(ranking, id, weight, k);
    }
    hide Share;
  }

  /** With duplicate-free rankings an id scores the lexical weight over `k` plus its lexical rank, plus
      the semantic weight over `k` plus its semantic rank; a ranking without it adds nothing. */
  lemma ScoresByRank(lexical: seq<Scored>, semantic: seq<Scored>, weightLexical: real, weightSemantic: real, k: int,
                     fused: seq<Scored>, x: Scored, i: Option<nat>, j: Option<nat>)
    requires Divides(k, |lexical|) && Divides(k, |semantic|) && DuplicateFree(lexical) && DuplicateFree(semantic)
    requires IsFusion(lexical, semantic, weightLexical, weightSemantic, k, fused) && x in fused
    requires PlacedAt(lexical, x.id, i) && PlacedAt(semantic, x.id, j)
    ensures (i.Some? ==> k + i.value != 0) && (j.Some? ==> k + j.value != 0)
    ensures x.score == (if i.Some? then weightLexical / (k + i.value) as real else 0.0)
                       + (if j.Some? then weightSemantic / (k + j.value) as real else 0.0)
  {
    ShareIs(lexical, x.id, weightLexical, k, i);
    ShareIs(semantic, x.id, weightSemantic, k, j);
    hide Share, NonIncreasing, PlacedAt, DuplicateFree;
  }

  /** `a` is ranked, and strictly before `b` if `b` is ranked at all. */
  ghost predicate Better(ranking: seq<Scored>, a: string, b: string) {
    exists i | 0 <= i < |ranking| :: ranking[i].id == a && forall j | 0 <= j <= i :: ranking[j].id != b
  }

  lemma ReciprocalFallsStrictly(weight: real, k: int, i: nat, j: nat)
    requires weight > 0.0 && k >= 0 && 1 <= i < j
    ensures 0.0 < Reciprocal(weight, k, j) < Reciprocal(weight, k, i)
  {
    var x, y := (k + i) as real, (k + j) as real;
    assert 0.0 < x < y;
    var q := weight / y;
    assert q * y == weight && q > 0.0;
    assert q * x < weight;
    assert q < weight / x;
  }

  lemma LaterShareIsLess(ranking: seq<Scored>, i: nat, j: nat, weight: real, k: int)
    requires k >= 0 && weight > 0.0 && DuplicateFree(ranking) && i < j < |ranking|
    ensures Share(ranking, ranking[j].id, weight, k) < Share(ranking, ranking[i].id, weight, k)
  {
    ShareAt(ranking, i, weight, k);
    ShareAt(ranking, j, weight, k);
    hide Share, DuplicateFree, Reciprocal;
    ReciprocalFallsStrictly(weight, k, i + 1, j + 1);
  }

  lemma ShareIsPositive(ranking: seq<Scored>, i: nat, weight: real, k: int)
    requires k >= 0 && weight > 0.0 && DuplicateFree(ranking) && i < |ranking|
    ensures Share(ranking, ranking[i].id, weight, k) > 0.0
  {
    ShareAt(ranking, i, weight, k);
    hide Share, DuplicateFree, Reciprocal;
    ReciprocalFallsStrictly(weight, k, i + 1, i + 2);
  }

  lemma ShareStrictlyMonotone(ranking: seq<Scored>, a: string, b: string, weight: real, k: int)
    requires k >= 0 && weight > 0.0 && DuplicateFree(ranking) && Better(ranking, a, b)
    ensures Share(ranking, b, weight, k) < Share(ranking, a, weight, k)
  {
    var i :| 0 <= i < |ranking| && ranking[i].id == a && forall j | 0 <= j <= i :: ranking[j].id != b;
    hide Share, DuplicateFree;
    if Ranks(ranking, b) {
      var j :| 0 <= j < |ranking| && ranking[j].id == b;
      LaterShareIsLess(ranking, i, j, weight, k);
    } else {
      ShareAbsent(ranking, b, weight, k);
      ShareIsPositive(ranking, i, weight, k);
    }
  }

  /** With positive weights an id ranked strictly better in one list and no worse in the other scores
      strictly higher, and so comes out strictly earlier. */
  lemma RankedBetterScoresHigher(lexical: seq<Scored>, semantic: seq<Scored>, weightLexical: real, weightSemantic: real,
                                 k: int, fused: seq<Scored>, x: Scored, y: Scored)
    requires k >= 0 && weightLexical > 0.0 && weightSemantic > 0.0
    requires DuplicateFree(lexical) && DuplicateFree(semantic)
    requires IsFusion(lexical, semantic, weightLexical, weightSemantic, k, fused) && x in fused && y in fused
    requires || (Better(lexical, x.id, y.id) && NoWorse(semantic, x.id, y.id))
             || (NoWorse(lexical, x.id, y.id) && Better(semantic, x.id, y.id))
    ensures x.score > y.score
    ensures exists i, j | 0 <= i < j < |fused| :: fused[i] == x && fused[j] == y
  {
    if Better(lexical, x.id, y.id) {
      ShareStrictlyMonotone(lexical, x.id, y.id, weightLexical, k);
    } else {
      ShareMonotone(lexical, x.id, y.id, weightLexical, k);
    }
    if Better(semantic, x.id, y.id) {
      ShareStrictlyMonotone(semantic, x.id, y.id, weightSemantic, k);
    } else {
      ShareMonotone(semantic, x.id, y.id, weightSemantic, k);
    }
    hide Share, Ranks, NoWorse, Better;
    var i :| 0 <= i < |fused| && fused[i] == x;
    var j :| 0 <= j < |fused| && fused[j] == y;
    assert i < j;
  }
}
