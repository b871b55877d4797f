/** Lexical search over the inverted index: which terms match, and which documents they bring in. */
module Search {
  import opened Ordering
  import opened Typo
  import opened Index
  import opened Fusion

  // --- The terms a query term matches, by plain scans of the vocabulary ---

  datatype Candidate = Candidate(term: string, typos: nat, isPrefix: bool)

  function PrefixTerms(terms: seq<string>, q: string): seq<Candidate> {
    if terms == [] then []
    else
      var n := |terms| - 1;
      PrefixTerms(terms[..n], q) + if q <= terms[n] && terms[n] != q then [Candidate(terms[n], 0, true)] else []
  }

  function DirectMatches(terms: seq<string>, q: string, isLast: bool): seq<Candidate> {
    (if q in terms then [Candidate(q, 0, false)] else []) + if isLast && |q| >= 2 then PrefixTerms(terms, q) else []
  }

  function FuzzyCandidate(term: string, q: string, isLast: bool): Candidate {
    var m := Matched(q, term, isLast, 2);
    Candidate(term, m.typos, m.isPrefix)
  }

  predicate FuzzyHit(term: string, q: string, isLast: bool) {
    Matched(q, term, isLast, 2).matched
  }

  function WithFuzzy(direct: seq<Candidate>, terms: seq<string>, q: string, isLast: bool): seq<Candidate> {
    if terms == [] then direct
    else
      var n := |terms| - 1;
      var found := WithFuzzy(direct, terms[..n], q, isLast);
      var c := FuzzyCandidate(terms[n], q, isLast);
      if FuzzyHit(terms[n], q, isLast) && c !in found then found + [c] else found
  }

  /** Typos are only looked for when few terms match directly and the query term is long. */
  predicate LooksForTypos(terms: seq<string>, q: string, isLast: bool) {
    |DirectMatches(terms, q, isLast)| < 3 && |q| >= 4
  }

  function Matches(terms: seq<string>, q: string, isLast: bool): seq<Candidate> {
    var direct := DirectMatches(terms, q, isLast);
    if LooksForTypos(terms, q, isLast) then WithFuzzy(direct, terms, q, isLast) else direct
  }

  lemma {:induction false} NothingBelow(terms: seq<string>, q: string, k: nat)
    requires k <= |terms| && forall i | 0 <= i < k :: !(q <= terms[i])
    ensures PrefixTerms(terms[..k], q) == []
    decreases k
  {
    if k > 0 {
      NothingBelow(terms, q, k - 1);
      assert terms[..k][..k - 1] == terms[..k - 1];
    }
  }

  lemma {:induction false} NothingAbove(terms: seq<string>, q: string, k: nat)
    requires k <= |terms| && forall i | k <= i < |terms| :: !(q <= terms[i])
    ensures PrefixTerms(terms[..k], q) == PrefixTerms(terms, q)
    decreases |terms|
  {
    if k == |terms| {
      assert terms[..k] == terms;
    } else {
      var n := |terms| - 1;
      NothingAbove(terms[..n], q, k);
      assert terms[..n][..k] == terms[..k];
    }
  }

  /** The prefix scan of the source: from the insertion point to the first miss. */
  method PrefixScan(terms: seq<string>, q: string) returns (r: seq<Candidate>)
    requires Sorted(terms)
    ensures r == PrefixTerms(terms, q)
  {
    r := [];
    var start := BisectLeft(terms, q);
    PrefixRun(terms, q, start, |terms|);
    NothingBelow(terms, q, start);
    var i := start;
    while i < |terms|
      invariant start <= i <= |terms| && r == PrefixTerms(terms[..i], q)
    {
      assert terms[..i + 1][..i] == terms[..i];
      if q <= terms[i] {
        if terms[i] != q {
          r := r + [Candidate(terms[i], 0, true)];
        }
      } else {
        PrefixRun(terms, q, start, i);
        NothingAbove(terms, q, i);
        return;
      }
      i := i + 1;
    }
    assert terms[..|terms|] == terms;
  }

  method FuzzyScan(direct: seq<Candidate>, terms: seq<string>, q: string, isLast: bool) returns (r: seq<Candidate>)
    ensures r == WithFuzzy(direct, terms, q, isLast)
  {
    hide Matched;
    r := direct;
    for i := 0 to |terms|
      invariant r == WithFuzzy(direct, terms[..i], q, isLast)
    {
      assert terms[..i + 1][..i] == terms[..i];
      var m := MatchWithTypo(q, terms[i], isLast, 2);
      MatchedExactly(q, terms[i], isLast, 2, m);
      var c := Candidate(terms[i], m.typos, m.isPrefix);
      if m.matched && c !in r {
        r := r + [c];
      }
    }
    assert terms[..|terms|] == terms;
  }

  /** The vocabulary terms one query term matches, as the search collects them. */
  method MatchingTerms(ix: InvertedIndex, q: string, isLast: bool) returns (r: seq<Candidate>)
    requires WellKept(ix.State())
    ensures r == Matches(ix.sortedTerms, q, isLast)
  {
    var terms := ix.sortedTerms;
    r := [];
    if q in ix.postings {
      r := [Candidate(q, 0, false)];
    }
    if isLast && |q| >= 2 {
      var prefixes := PrefixScan(terms, q);
      r := r + prefixes;
    }
    assert r == DirectMatches(terms, q, isLast);
    if |r| < 3 && |q| >= 4 {
      r := FuzzyScan(r, terms, q, isLast);
    }
  }

  // --- What those scans mean ---

  lemma {:induction false} PrefixTermsExact(terms: seq<string>, q: string)
    ensures forall c :: c in PrefixTerms(terms, q) <==>
              c.term in terms && q <= c.term && c.term != q && c == Candidate(c.term, 0, true)
  {
    if terms != [] {
      var n := |terms| - 1;
      PrefixTermsExact(terms[..n], q);
      assert terms == terms[..n] + [terms[n]];
    }
  }

  lemma FuzzyTerm(term: string, q: string, isLast: bool)
    ensures FuzzyCandidate(term, q, isLast).term == term
  {
  }

  lemma {:induction false} WithFuzzyExact(direct: seq<Candidate>, terms: seq<string>, q: string, isLast: bool)
    ensures forall c :: c in WithFuzzy(direct, terms, q, isLast) <==>
              c in direct || (c.term in terms && FuzzyHit(c.term, q, isLast) && c == FuzzyCandidate(c.term, q, isLast))
  {
    if terms != [] {
      hide FuzzyHit, FuzzyCandidate;
      var n := |terms| - 1;
      WithFuzzyExact(direct, terms[..n], q, isLast);
      assert terms == terms[..n] + [terms[n]];
      assert FuzzyCandidate(terms[n], q, isLast).term == terms[n] by { FuzzyTerm(terms[n], q, isLast); }
    }
  }

  /** A vocabulary term is matched when it equals the query term, when it extends the last
      query term, or, where typos are looked for, when the typo rules accept it; it is
      reported as those rules report it. */
  lemma MatchesExact(terms: seq<string>, q: string, isLast: bool)
    ensures forall c :: c in Matches(terms, q, isLast) <==>
              c.term in terms
              && (|| c == Candidate(q, 0, false)
                  || (isLast && |q| >= 2 && q <= c.term && c.term != q && c == Candidate(c.term, 0, true))
                  || (LooksForTypos(terms, q, isLast)
                      && Matched(q, c.term, isLast, 2) == Match(true, c.typos, c.isPrefix)))
  {
    PrefixTermsExact(terms, q);
    WithFuzzyExact(DirectMatches(terms, q, isLast), terms, q, isLast);
    hide PrefixTerms, WithFuzzy, LooksForTypos, Matched;
  }

  /** No term is listed twice, so no occurrence is counted twice. */
  ghost predicate TermsOnce(cs: seq<Candidate>) {
    forall i, j | 0 <= i < j < |cs| :: cs[i].term != cs[j].term
  }

  /** However a term was found directly, the typo rules report it the same way. */
  lemma DirectAgreesWithFuzzy(terms: seq<string>, q: string, isLast: bool, c: Candidate)
    requires c in DirectMatches(terms, q, isLast)
    ensures c.term in terms && FuzzyHit(c.term, q, isLast) && c == FuzzyCandidate(c.term, q, isLast)
  {
    PrefixTermsExact(terms, q);
    hide PrefixTerms;
  }

  lemma {:induction false} PrefixTermsOnce(terms: seq<string>, q: string)
    requires Sorted(terms)
    ensures TermsOnce(PrefixTerms(terms, q))
  {
    if terms != [] {
      var n := |terms| - 1;
      PrefixTermsOnce(terms[..n], q);
      PrefixTermsExact(terms[..n], q);
      LastOnlyOnce(terms, terms[n]);
      hide Sorted;
      var r := PrefixTerms(terms[..n], q);
      forall i | 0 <= i < |r| ensures r[i].term != terms[n] {
        assert r[i] in r;
      }
    }
  }

  lemma {:induction false} WithFuzzyOnce(direct: seq<Candidate>, terms: seq<string>, q: string, isLast: bool)
    requires TermsOnce(direct)
    requires forall c | c in direct :: FuzzyHit(c.term, q, isLast) && c == FuzzyCandidate(c.term, q, isLast)
    ensures TermsOnce(WithFuzzy(direct, terms, q, isLast))
  {
    if terms != [] {
      hide FuzzyHit, FuzzyCandidate;
      var n := |terms| - 1;
      WithFuzzyOnce(direct, terms[..n], q, isLast);
      WithFuzzyExact(direct, terms[..n], q, isLast);
      FuzzyTerm(terms[n], q, isLast);
      var found, c := WithFuzzy(direct, terms[..n], q, isLast), FuzzyCandidate(terms[n], q, isLast);
      if c !in found {
        forall i | 0 <= i < |found| ensures found[i].term != c.term {
          assert found[i] in found;
        }
      }
    }
  }

  lemma EachTermOnce(terms: seq<string>, q: string, isLast: bool)
    requires Sorted(terms)
    ensures TermsOnce(Matches(terms, q, isLast))
  {
    PrefixTermsOnce(terms, q);
    PrefixTermsExact(terms, q);
    var direct := DirectMatches(terms, q, isLast);
    forall c | c in direct ensures FuzzyHit(c.term, q, isLast) && c == FuzzyCandidate(c.term, q, isLast) {
      DirectAgreesWithFuzzy(terms, q, isLast, c);
    }
    hide PrefixTerms, FuzzyHit, FuzzyCandidate;
    var ps := PrefixTerms(terms, q);
    forall i | 0 <= i < |ps| ensures ps[i].term != q {
      assert ps[i] in ps;
    }
    assert TermsOnce(direct);
    WithFuzzyOnce(direct, terms, q, isLast);
  }

  lemma {:induction false} SizeOfOnce(cs: seq<Candidate>)
    requires TermsOnce(cs)
    ensures |set c | c in cs :: c.term| == |cs|
  {
    if cs != [] {
      var n := |cs| - 1;
      SizeOfOnce(cs[..n]);
      var front := set c | c in cs[..n] :: c.term;
      forall t ensures t in (set c | c in cs :: c.term) <==> t in front || t == cs[n].term {
        assert cs == cs[..n] + [cs[n]];
      }
      assert cs[n].term !in front;
      assert (set c | c in cs :: c.term) == front + {cs[n].term};
    }
  }

  lemma DirectOnce(terms: seq<string>, q: string, isLast: bool)
    requires Sorted(terms)
    ensures TermsOnce(DirectMatches(terms, q, isLast))
  {
    PrefixTermsOnce(terms, q);
    PrefixTermsExact(terms, q);
    hide PrefixTerms, Sorted;
    var ps := PrefixTerms(terms, q);
    assert forall i | 0 <= i < |ps| :: ps[i] in ps;
  }

  lemma DirectTerms(terms: seq<string>, q: string, isLast: bool, t: string)
    requires |q| >= 2
    ensures t in (set c | c in DirectMatches(terms, q, isLast) :: c.term) <==> t in terms && (t == q || (isLast && q <= t))
  {
    PrefixTermsExact(terms, q);
    hide PrefixTerms;
    var direct := DirectMatches(terms, q, isLast);
    if t in terms && isLast && q <= t && t != q {
      assert Candidate(t, 0, true) in direct;
    } else if t in terms && t == q {
      assert Candidate(q, 0, false) in direct;
    }
  }

  /** Typos are looked for when the query term has at least four letters and fewer than three vocabulary
      terms equal it or, for the last query term, start with it. */
  lemma LooksForTyposExactly(terms: seq<string>, q: string, isLast: bool)
    requires Sorted(terms)
    ensures LooksForTypos(terms, q, isLast) <==>
            |q| >= 4 && |set t | t in terms && (t == q || (isLast && q <= t))| < 3
  {
    if |q| >= 4 {
      DirectOnce(terms, q, isLast);
      SizeOfOnce(DirectMatches(terms, q, isLast));
      hide DirectMatches, Sorted, TermsOnce;
      var direct := set c | c in DirectMatches(terms, q, isLast) :: c.term;
      var wanted := set t | t in terms && (t == q || (isLast && q <= t));
      forall t ensures t in direct <==> t in wanted {
        DirectTerms(terms, q, isLast, t);
      }
      assert direct == wanted;
    }
  }

  /** In vocabulary order. */
  ghost predicate Ascending(cs: seq<Candidate>) {
    forall i, j | 0 <= i < j < |cs| :: Less(cs[i].term, cs[j].term)
  }

  lemma {:induction false} PrefixTermsAscend(terms: seq<string>, q: string)
    requires Sorted(terms)
    ensures Ascending(PrefixTerms(terms, q))
  {
    if terms != [] {
      var n := |terms| - 1;
      var r := PrefixTerms(terms[..n], q);
      PrefixTermsAscend(terms[..n], q);
      PrefixTermsExact(terms[..n], q);
      forall i | 0 <= i < |r| ensures Less(r[i].term, terms[n]) {
        assert r[i] in r;
      }
    }
  }

  lemma {:induction false} WithFuzzyAscends(direct: seq<Candidate>, terms: seq<string>, q: string, isLast: bool)
    requires Sorted(terms)
    ensures var r := WithFuzzy(direct, terms, q, isLast);
            direct <= r && Ascending(r[|direct|..]) && forall c | c in r[|direct|..] :: c.term in terms
  {
    if terms != [] {
      hide FuzzyHit, FuzzyCandidate;
      var n := |terms| - 1;
      var found := WithFuzzy(direct, terms[..n], q, isLast);
      WithFuzzyAscends(direct, terms[..n], q, isLast);
      FuzzyTerm(terms[n], q, isLast);
      var more := found[|direct|..];
      forall i | 0 <= i < |more| ensures Less(more[i].term, terms[n]) {
        assert more[i] in more && more[i].term in terms[..n];
      }
    }
  }

  /** What the typo rules report without typos is matched directly. */
  lemma NoTyposDirect(terms: seq<string>, q: string, isLast: bool, c: Candidate)
    requires |q| >= 2 && c.term in terms && c.typos == 0 && Matched(q, c.term, isLast, 2) == Match(true, c.typos, c.isPrefix)
    ensures c.term in (set d | d in DirectMatches(terms, q, isLast) :: d.term)
  {
    MatchedExactly(q, c.term, isLast, 2, Matched(q, c.term, isLast, 2));
    NoTyposExactly(q, c.term, isLast, 2, Matched(q, c.term, isLast, 2));
    DirectTerms(terms, q, isLast, c.term);
    hide *;
  }

  lemma DirectInOrder(terms: seq<string>, q: string, isLast: bool) returns (m: nat)
    requires Sorted(terms)
    ensures var r := DirectMatches(terms, q, isLast);
            && m <= |r| && r[..m] == (if q in terms then [Candidate(q, 0, false)] else [])
            && Ascending(r[m..]) && (forall c | c in r[m..] :: c.isPrefix && c.typos == 0 && c.term != q)
  {
    PrefixTermsAscend(terms, q);
    PrefixTermsExact(terms, q);
    hide PrefixTerms, Sorted;
    m := if q in terms then 1 else 0;
  }

  lemma MatchesByTypo(terms: seq<string>, q: string, isLast: bool, i: nat)
    requires Sorted(terms) && |DirectMatches(terms, q, isLast)| <= i < |Matches(terms, q, isLast)|
    requires DirectMatches(terms, q, isLast) <= Matches(terms, q, isLast)
    ensures Matches(terms, q, isLast)[i].typos > 0
  {
    EachTermOnce(terms, q, isLast);
    MatchesExact(terms, q, isLast);
    var direct, r := DirectMatches(terms, q, isLast), Matches(terms, q, isLast);
    var c := r[i];
    assert c in r && forall j | 0 <= j < |direct| :: r[j] == direct[j] && r[j].term != c.term;
    if c.typos == 0 && |q| >= 2 {
      assert c !in direct;
      DirectTerms(terms, q, isLast, c.term);
      if Matched(q, c.term, isLast, 2) == Match(true, c.typos, c.isPrefix) {
        NoTyposDirect(terms, q, isLast, c);
      }
    }
    hide *;
  }

  lemma MatchesStart(terms: seq<string>, q: string, isLast: bool)
    requires Sorted(terms)
    ensures var direct, r := DirectMatches(terms, q, isLast), Matches(terms, q, isLast);
            direct <= r && Ascending(r[|direct|..])
  {
    WithFuzzyAscends(DirectMatches(terms, q, isLast), terms, q, isLast);
    hide WithFuzzy, DirectMatches, LooksForTypos;
  }

  /** The query term itself comes first, then the terms it is a prefix of, then those found only by the
      typo rules, each group in vocabulary order. */
  lemma MatchesInOrder(terms: seq<string>, q: string, isLast: bool) returns (m: nat, n: nat)
    requires Sorted(terms)
    ensures var r := Matches(terms, q, isLast);
            && m <= n <= |r|
            && r[..m] == (if q in terms then [Candidate(q, 0, false)] else [])
            && Ascending(r[m..n]) && (forall c | c in r[m..n] :: c.isPrefix && c.typos == 0 && c.term != q)
            && Ascending(r[n..]) && (forall c | c in r[n..] :: c.typos > 0)
  {
    var direct, r := DirectMatches(terms, q, isLast), Matches(terms, q, isLast);
    m := DirectInOrder(terms, q, isLast);
    n := |direct|;
    MatchesStart(terms, q, isLast);
    assert r[..n] == direct && r[..m] == direct[..m] && r[m..n] == direct[m..];
    forall i | n <= i < |r| ensures r[i].typos > 0 {
      MatchesByTypo(terms, q, isLast, i);
    }
    hide *;
  }

  // --- The signals each document collects ---

  datatype Signal = Signal(queryTerm: string, matchedTerm: string, attribute: string, typos: int, isPrefix: bool,
                           position: nat)

  /** What is found for a document under each term. */
  type Finder = string -> seq<Occurrence>

  function TermSignals(q: string, c: Candidate, found: seq<Occurrence>): seq<Signal> {
    if found == [] then []
    else
      var n := |found| - 1;
      TermSignals(q, c, found[..n]) + [Signal(q, c.term, found[n].attribute, c.typos, c.isPrefix, found[n].position)]
  }

  function MatchSignals(q: string, cs: seq<Candidate>, find: Finder): seq<Signal> {
    if cs == [] then []
    else
      var n := |cs| - 1;
      MatchSignals(q, cs[..n], find) + TermSignals(q, cs[n], find(cs[n].term))
  }

  /** What the first `k` query terms contribute. */
  function QuerySignals(terms: seq<string>, qs: seq<string>, k: nat, find: Finder): seq<Signal>
    requires k <= |qs|
  {
    if k == 0 then []
    else
      QuerySignals(terms, qs, k - 1, find) + MatchSignals(qs[k - 1], Matches(terms, qs[k - 1], k == |qs|), find)
  }

  // --- What a signal says ---

  /** `x` reports one of the occurrences of a matched term: the query term, the matched term, where it
      occurs, its typos, and whether it was taken as a prefix. */
  ghost predicate Tells(q: string, c: Candidate, found: seq<Occurrence>, x: Signal) {
    exists o | o in found :: x == Signal(q, c.term, o.attribute, c.typos, c.isPrefix, o.position)
  }

  /** One signal for each occurrence, in order. */
  lemma {:induction false} TermSignalsExactly(q: string, c: Candidate, found: seq<Occurrence>)
    ensures |TermSignals(q, c, found)| == |found|
    ensures forall o | 0 <= o < |found| ::
              TermSignals(q, c, found)[o] == Signal(q, c.term, found[o].attribute, c.typos, c.isPrefix, found[o].position)
    ensures forall x :: x in TermSignals(q, c, found) <==> Tells(q, c, found, x)
  {
    if found != [] {
      var n := |found| - 1;
      TermSignalsExactly(q, c, found[..n]);
      assert found == found[..n] + [found[n]];
    }
  }

  /** How much the matched terms of a query term find. */
  function FoundBy(cs: seq<Candidate>, find: Finder): nat {
    if cs == [] then 0 else FoundBy(cs[..|cs| - 1], find) + |find(cs[|cs| - 1].term)|
  }

  /** `x` reports an occurrence of one of the matched terms. */
  ghost predicate TellsOf(q: string, cs: seq<Candidate>, find: Finder, x: Signal) {
    exists c | c in cs :: Tells(q, c, find(c.term), x)
  }

  lemma TellsOfSnoc(q: string, cs: seq<Candidate>, find: Finder, x: Signal)
    requires cs != []
    ensures var n := |cs| - 1;
            TellsOf(q, cs, find, x) <==> TellsOf(q, cs[..n], find, x) || Tells(q, cs[n], find(cs[n].term), x)
  {
    hide Tells;
    var n := |cs| - 1;
    assert cs == cs[..n] + [cs[n]];
  }

  lemma {:induction false} MatchSignalsExactly(q: string, cs: seq<Candidate>, find: Finder)
    ensures forall x :: x in MatchSignals(q, cs, find) <==> TellsOf(q, cs, find, x)
    ensures |MatchSignals(q, cs, find)| == FoundBy(cs, find)
    ensures cs != [] ==> MatchSignals(q, cs[..|cs| - 1], find) <= MatchSignals(q, cs, find)
  {
    if cs != [] {
      var n := |cs| - 1;
      MatchSignalsExactly(q, cs[..n], find);
      TermSignalsExactly(q, cs[n], find(cs[n].term));
      hide Tells, TellsOf, TermSignals;
      forall x ensures x in MatchSignals(q, cs, find) <==> TellsOf(q, cs, find, x) {
        TellsOfSnoc(q, cs, find, x);
      }
    }
  }

  /** How much the first `k` query terms find. */
  function FoundFor(terms: seq<string>, qs: seq<string>, k: nat, find: Finder): nat
    requires k <= |qs|
  {
    if k == 0 then 0 else FoundFor(terms, qs, k - 1, find) + FoundBy(Matches(terms, qs[k - 1], k == |qs|), find)
  }

  /** `x` reports an occurrence of a term that one of the first `k` query terms matches. */
  ghost predicate Reported(terms: seq<string>, qs: seq<string>, k: nat, find: Finder, x: Signal)
    requires k <= |qs|
  {
    exists j | 0 <= j < k :: TellsOf(qs[j], Matches(terms, qs[j], j == |qs| - 1), find, x)
  }

  lemma ReportedStep(terms: seq<string>, qs: seq<string>, k: nat, find: Finder, x: Signal)
    requires k < |qs|
    ensures Reported(terms, qs, k + 1, find, x) <==>
            Reported(terms, qs, k, find, x) || TellsOf(qs[k], Matches(terms, qs[k], k + 1 == |qs|), find, x)
  {
    hide TellsOf, Matches;
  }

  /** The signals of a document are exactly those that report an occurrence in it of a term some query
      term matches, one for every such occurrence, query term by query term. */
  lemma {:induction false} SignalsExactly(terms: seq<string>, qs: seq<string>, k: nat, find: Finder)
    requires k <= |qs|
    ensures forall x :: x in QuerySignals(terms, qs, k, find) <==> Reported(terms, qs, k, find, x)
    ensures |QuerySignals(terms, qs, k, find)| == FoundFor(terms, qs, k, find)
    ensures k > 0 ==> QuerySignals(terms, qs, k - 1, find) <= QuerySignals(terms, qs, k, find)
  {
    if k > 0 {
      var cs := Matches(terms, qs[k - 1], k == |qs|);
      SignalsExactly(terms, qs, k - 1, find);
      MatchSignalsExactly(qs[k - 1], cs, find);
      hide Matches, MatchSignals, TellsOf, Reported, FoundBy;
      forall x ensures x in QuerySignals(terms, qs, k, find) <==> Reported(terms, qs, k, find, x) {
        ReportedStep(terms, qs, k - 1, find, x);
      }
    }
  }

  type Signals = map<string, seq<Signal>>

  function Of(signals: Signals, id: string): seq<Signal> {
    if id in signals then signals[id] else []
  }

  predicate Eligible(documents: map<string, Document>, types: set<string>, id: string) {
    id in documents && (types == {} || documents[id].entityType in types)
  }

  /** Exactly the eligible documents with something to show are listed, with `show(id)`. */
  ghost predicate Lists(signals: Signals, documents: map<string, Document>, types: set<string>, show: string -> seq<Signal>) {
    && (forall id | id in signals :: signals[id] != [])
    && forall id :: Of(signals, id) == if Eligible(documents, types, id) then show(id) else []
  }

  ghost predicate Appends(before: Signals, after: Signals, documents: map<string, Document>, types: set<string>,
                          more: string -> seq<Signal>) {
    && (forall id | id in after :: after[id] != [])
    && forall id :: Of(after, id) == Of(before, id) + if Eligible(documents, types, id) then more(id) else []
  }

  lemma ListsMore(before: Signals, after: Signals, documents: map<string, Document>, types: set<string>,
                  show: string -> seq<Signal>, more: string -> seq<Signal>, all: string -> seq<Signal>)
    requires Lists(before, documents, types, show) && Appends(before, after, documents, types, more)
    requires forall id :: all(id) == show(id) + more(id)
    ensures Lists(after, documents, types, all)
  {
    hide Of, Eligible;
    forall id ensures Of(after, id) == if Eligible(documents, types, id) then all(id) else [] {
      assert Of(after, id) == Of(before, id) + if Eligible(documents, types, id) then more(id) else [];
    }
  }

  /** All occurrences of one matched term in one document. */
  method AddOccurrences(signals: Signals, id: string, q: string, c: Candidate, found: seq<Occurrence>) returns (r: Signals)
    requires found != []
    ensures r == signals[id := Of(signals, id) + TermSignals(q, c, found)]
    ensures r[id] != []
  {
    r := signals;
    for i := 0 to |found|
      invariant Of(r, id) == Of(signals, id) + TermSignals(q, c, found[..i])
      invariant r == if i == 0 then signals else signals[id := Of(r, id)]
    {
      assert found[..i + 1][..i] == found[..i];
      var signal := Signal(q, c.term, found[i].attribute, c.typos, c.isPrefix, found[i].position);
      r := r[id := Of(r, id) + [signal]];
    }
    assert found[..|found|] == found;
  }

  /** The posted documents outside `todo` have been dealt with. */
  ghost predicate Partly(before: Signals, r: Signals, documents: map<string, Document>, types: set<string>,
                         todo: set<string>, more: string -> seq<Signal>) {
    && (forall id | id in r :: r[id] != [])
    && forall id :: Of(r, id) == Of(before, id) + if Eligible(documents, types, id) && id !in todo then more(id) else []
  }

  lemma PartlyOne(before: Signals, r: Signals, documents: map<string, Document>, types: set<string>, todo: set<string>,
                  more: string -> seq<Signal>, id: string, r': Signals)
    requires Partly(before, r, documents, types, todo, more) && id in todo
    requires if Eligible(documents, types, id) then more(id) != [] && r' == r[id := Of(r, id) + more(id)] else r' == r
    ensures Partly(before, r', documents, types, todo - {id}, more)
  {
    hide Eligible;
    assert Of(r, id) == Of(before, id);
    if Eligible(documents, types, id) {
      assert r'[id] != [] && Of(r', id) == Of(before, id) + more(id);
    }
    forall other
      ensures Of(r', other) == Of(before, other) +
              if Eligible(documents, types, other) && other !in todo - {id} then more(other) else []
    {
      if other != id {
        assert Of(r', other) == Of(r, other);
      }
    }
  }

  function FinderFor(p: Postings, id: string): Finder {
    term => At(p, term, id)
  }

  /** What one matched term, the matched terms of a query term, and the first `k` query terms
      show for each document. */
  function ShowMatch(p: Postings, q: string, c: Candidate): string -> seq<Signal> {
    id => TermSignals(q, c, At(p, c.term, id))
  }

  function ShowMore(p: Postings, q: string, cs: seq<Candidate>, show: string -> seq<Signal>): string -> seq<Signal> {
    id => show(id) + MatchSignals(q, cs, FinderFor(p, id))
  }

  function ShowQuery(p: Postings, terms: seq<string>, qs: seq<string>, k: nat): string -> seq<Signal>
    requires k <= |qs|
  {
    id => QuerySignals(terms, qs, k, FinderFor(p, id))
  }

  lemma SomeSignal(q: string, c: Candidate, found: seq<Occurrence>)
    requires found != []
    ensures TermSignals(q, c, found) != []
  {
  }

  lemma MatchStart(p: Postings, documents: map<string, Document>, types: set<string>, signals: Signals, q: string, c: Candidate)
    requires forall id | id in signals :: signals[id] != []
    ensures Partly(signals, signals, documents, types, if c.term in p then p[c.term].Keys else {}, ShowMatch(p, q, c))
  {
  }

  lemma PartlyAll(before: Signals, r: Signals, documents: map<string, Document>, types: set<string>,
                  more: string -> seq<Signal>)
    requires Partly(before, r, documents, types, {}, more)
    ensures Appends(before, r, documents, types, more)
  {
  }

  /** All documents posted under one matched term. */
  method AddMatch(ix: InvertedIndex, types: set<string>, signals: Signals, q: string, c: Candidate) returns (r: Signals)
    requires Tidy(ix.postings) && forall id | id in signals :: signals[id] != []
    ensures Appends(signals, r, ix.documents, types, ShowMatch(ix.postings, q, c))
  {
    r := signals;
    var docMap := if c.term in ix.postings then ix.postings[c.term] else map[];
    var todo := docMap.Keys;
    ghost var more := ShowMatch(ix.postings, q, c);
    MatchStart(ix.postings, ix.documents, types, signals, q, c);
    assert forall id | id in docMap :: docMap[id] != [] && more(id) == TermSignals(q, c, docMap[id]);
    hide *;
    while todo != {}
      invariant todo <= docMap.Keys
      invariant Partly(signals, r, ix.documents, types, todo, more)
      decreases todo
    {
      var id :| id in todo;
      ghost var was := r;
      if Eligible(ix.documents, types, id) {
        r := AddOccurrences(r, id, q, c, docMap[id]);
        SomeSignal(q, c, docMap[id]);
      }
      PartlyOne(signals, was, ix.documents, types, todo, more, id, r);
      todo := todo - {id};
    }
    PartlyAll(signals, r, ix.documents, types, more);
  }

  lemma NothingEmpty(signals: Signals, documents: map<string, Document>, types: set<string>, show: string -> seq<Signal>)
    requires Lists(signals, documents, types, show)
    ensures forall id | id in signals :: signals[id] != []
  {
  }

  lemma OneMoreMatch(p: Postings, q: string, cs: seq<Candidate>, i: nat, show: string -> seq<Signal>)
    requires i < |cs|
    ensures forall id :: ShowMore(p, q, cs[..i + 1], show)(id) ==
                         ShowMore(p, q, cs[..i], show)(id) + ShowMatch(p, q, cs[i])(id)
  {
    assert cs[..i + 1][..i] == cs[..i];
    forall id
      ensures ShowMore(p, q, cs[..i + 1], show)(id) == ShowMore(p, q, cs[..i], show)(id) + ShowMatch(p, q, cs[i])(id)
    {
      var find := FinderFor(p, id);
      var last := TermSignals(q, cs[i], find(cs[i].term));
      assert show(id) + (MatchSignals(q, cs[..i], find) + last) == (show(id) + MatchSignals(q, cs[..i], find)) + last;
    }
  }

  lemma NoMatches(p: Postings, q: string, signals: Signals, documents: map<string, Document>, types: set<string>,
                  show: string -> seq<Signal>)
    requires Lists(signals, documents, types, show)
    ensures Lists(signals, documents, types, ShowMore(p, q, [], show))
  {
    hide Of, Eligible;
  }

  /** What one query term adds. */
  method AddQueryTerm(ix: InvertedIndex, types: set<string>, signals: Signals, q: string, isLast: bool,
                      ghost show: string -> seq<Signal>)
      returns (r: Signals)
    requires WellKept(ix.State()) && Lists(signals, ix.documents, types, show)
    ensures Lists(r, ix.documents, types, ShowMore(ix.postings, q, Matches(ix.sortedTerms, q, isLast), show))
  {
    assert Tidy(ix.postings);
    hide *;
    var cs := MatchingTerms(ix, q, isLast);
    r := signals;
    NoMatches(ix.postings, q, signals, ix.documents, types, show);
    assert cs[..0] == [];
    for i := 0 to |cs|
      invariant Lists(r, ix.documents, types, ShowMore(ix.postings, q, cs[..i], show))
    {
      ghost var was := r;
      NothingEmpty(r, ix.documents, types, ShowMore(ix.postings, q, cs[..i], show));
      r := AddMatch(ix, types, r, q, cs[i]);
      OneMoreMatch(ix.postings, q, cs, i, show);
      ListsMore(was, r, ix.documents, types, ShowMore(ix.postings, q, cs[..i], show), ShowMatch(ix.postings, q, cs[i]),
                ShowMore(ix.postings, q, cs[..i + 1], show));
    }
    assert cs[..|cs|] == cs;
  }

  lemma OneMoreTerm(p: Postings, terms: seq<string>, qs: seq<string>, k: nat,
                    signals: Signals, documents: map<string, Document>, types: set<string>)
    requires k < |qs|
    requires Lists(signals, documents, types,
                   ShowMore(p, qs[k], Matches(terms, qs[k], k == |qs| - 1), ShowQuery(p, terms, qs, k)))
    ensures Lists(signals, documents, types, ShowQuery(p, terms, qs, k + 1))
  {
    hide Of, Eligible, Matches, MatchSignals;
    var shown := ShowMore(p, qs[k], Matches(terms, qs[k], k == |qs| - 1), ShowQuery(p, terms, qs, k));
    var all := ShowQuery(p, terms, qs, k + 1);
    forall id ensures Of(signals, id) == if Eligible(documents, types, id) then all(id) else [] {
      assert all(id) == shown(id);
    }
  }

  lemma NoTerms(ix: InvertedIndex, types: set<string>, qs: seq<string>)
    ensures Lists(map[], ix.documents, types, ShowQuery(ix.postings, ix.sortedTerms, qs, 0))
  {
  }

  /** The candidates of a query and the signals each has collected. */
  method Candidates(ix: InvertedIndex, qs: seq<string>, types: set<string>) returns (r: Signals)
    requires WellKept(ix.State())
    ensures Lists(r, ix.documents, types, ShowQuery(ix.postings, ix.sortedTerms, qs, |qs|))
  {
    hide *;
    r := map[];
    NoTerms(ix, types, qs);
    for k := 0 to |qs|
      invariant Lists(r, ix.documents, types, ShowQuery(ix.postings, ix.sortedTerms, qs, k))
    {
      r := AddQueryTerm(ix, types, r, qs[k], k == |qs| - 1, ShowQuery(ix.postings, ix.sortedTerms, qs, k));
      OneMoreTerm(ix.postings, ix.sortedTerms, qs, k, r, ix.documents, types);
    }
  }

  // --- Ranking what was found ---

  /** The score of a document, given the number of query terms and its signals. */
  type Ranker = (string, nat, seq<Signal>) -> real

  /** How many of `n` entries `[:max]` keeps. */
  function Cut(n: nat, max: int): nat {
    if max >= n then n else if max >= 0 then max else if n + max >= 0 then n + max else 0
  }

  /** A list with one entry per id. */
  ghost predicate Tabulates(items: seq<Scored>, ids: set<string>, score: string -> real) {
    && |items| == |ids| && DuplicateFree(items)
    && forall x :: x in items <==> x.id in ids && x.score == score(x.id)
  }

  /** The best of the ids, best first, as many as the cut leaves. */
  ghost predicate IsTop(r: seq<Scored>, ids: set<string>, score: string -> real, max: int) {
    && |r| == Cut(|ids|, max)
    && NonIncreasing(r) && DuplicateFree(r)
    && (forall x | x in r :: x.id in ids && x.score == score(x.id))
    && forall id, x | id in ids && !Ranks(r, id) && x in r :: score(id) <= x.score
  }

  lemma SortedTabulates(items: seq<Scored>, ids: set<string>, score: string -> real)
    requires Tabulates(items, ids, score)
    ensures Tabulates(SortedByScore(items), ids, score) && NonIncreasing(SortedByScore(items))
  {
    hide SortedByScore, NonIncreasing;
    var sorted := SortedByScore(items);
    SortOrders(items);
    assert |sorted| == |multiset(sorted)| == |items|;
    OnePerId(items, sorted);
    forall x ensures x in sorted <==> x in items {
      assert x in sorted <==> x in multiset(sorted);
    }
  }

  lemma TopOfSorted(sorted: seq<Scored>, ids: set<string>, score: string -> real, max: int)
    requires Tabulates(sorted, ids, score) && NonIncreasing(sorted)
    ensures IsTop(sorted[..Cut(|ids|, max)], ids, score, max)
  {
    var n := Cut(|ids|, max);
    var r := sorted[..n];
    forall id, x | id in ids && !Ranks(r, id) && x in r ensures score(id) <= x.score {
      var i :| 0 <= i < n && r[i] == x;
      assert Scored(id, score(id)) in sorted;
      var j :| 0 <= j < |sorted| && sorted[j] == Scored(id, score(id));
      assert forall k | 0 <= k < n :: r[k] == sorted[k] && r[k].id != id;
    }
  }

  lemma OneMoreEntry(items: seq<Scored>, done: set<string>, id: string, score: string -> real)
    requires Tabulates(items, done, score) && id !in done
    ensures Tabulates(items + [Scored(id, score(id))], done + {id}, score)
  {
    forall i | 0 <= i < |items| ensures items[i].id != id {
      assert items[i] in items;
    }
  }

  /** Scores the ids one by one, in the order the dictionary happens to yield them. */
  method ScoreAll(ids: set<string>, score: string -> real) returns (items: seq<Scored>)
    ensures Tabulates(items, ids, score)
  {
    items := [];
    var left := ids;
    while left != {}
      invariant left <= ids && Tabulates(items, ids - left, score)
      decreases left
    {
      hide Tabulates;
      var id :| id in left;
      OneMoreEntry(items, ids - left, id, score);
      assert ids - (left - {id}) == ids - left + {id};
      items := items + [Scored(id, score(id))];
      left := left - {id};
    }
    assert ids - {} == ids;
  }

  /** The ids a search ranks: the eligible documents, for a query with tokens those that show something. */
  ghost function Found(documents: map<string, Document>, types: set<string>, qs: seq<string>,
                       show: string -> seq<Signal>): set<string> {
    set id | id in documents && Eligible(documents, types, id) && (qs == [] || show(id) != [])
  }

  /** What they are ranked by; without tokens all are alike. */
  function ScoreOf(qs: seq<string>, ranker: Ranker, show: string -> seq<Signal>): string -> real {
    id => if qs == [] then 1.0 else ranker(id, |qs|, show(id))
  }

  lemma AllAlike(items: seq<Scored>, ids: set<string>, score: string -> real)
    requires Tabulates(items, ids, score) && forall id :: score(id) == 1.0
    ensures NonIncreasing(items)
  {
    assert forall i | 0 <= i < |items| :: items[i] in items;
  }

  lemma ListedAreFound(signals: Signals, documents: map<string, Document>, types: set<string>, qs: seq<string>,
                       show: string -> seq<Signal>)
    requires Lists(signals, documents, types, show) && qs != []
    ensures signals.Keys == Found(documents, types, qs, show)
    ensures forall id | id in signals :: signals[id] == show(id)
  {
    forall id ensures id in signals <==> id in Found(documents, types, qs, show) {
      assert id in signals <==> Of(signals, id) != [];
    }
    forall id | id in signals ensures signals[id] == show(id) {
      assert Of(signals, id) == signals[id];
    }
  }

  lemma SameScores(items: seq<Scored>, ids: set<string>, score: string -> real, other: string -> real)
    requires Tabulates(items, ids, score) && forall id | id in ids :: score(id) == other(id)
    ensures Tabulates(items, ids, other)
  {
    hide DuplicateFree;
  }

  lemma TabulatedLength(items: seq<Scored>, ids: set<string>, score: string -> real)
    requires Tabulates(items, ids, score)
    ensures |items| == |ids|
  {
  }

  method Everything(ix: InvertedIndex, types: set<string>, ranker: Ranker, max: int, ghost show: string -> seq<Signal>)
      returns (r: seq<Scored>)
    ensures IsTop(r, Found(ix.documents, types, [], show), ScoreOf([], ranker, show), max)
  {
    var ids := set id | id in ix.documents && Eligible(ix.documents, types, id);
    assert ids == Found(ix.documents, types, [], show);
    var items := ScoreAll(ids, _ => 1.0);
    SameScores(items, ids, _ => 1.0, ScoreOf([], ranker, show));
    hide *;
    AllAlike(items, ids, _ => 1.0);
    TopOfSorted(items, ids, ScoreOf([], ranker, show), max);
    TabulatedLength(items, ids, _ => 1.0);
    r := items[..Cut(|items|, max)];
  }

  method RankAll(ix: InvertedIndex, qs: seq<string>, types: set<string>, signals: Signals, ranker: Ranker, max: int,
                 ghost show: string -> seq<Signal>)
      returns (r: seq<Scored>)
    requires qs != [] && Lists(signals, ix.documents, types, show)
    ensures IsTop(r, Found(ix.documents, types, qs, show), ScoreOf(qs, ranker, show), max)
  {
    ListedAreFound(signals, ix.documents, types, qs, show);
    hide Lists, Found, Tabulates, IsTop, SortedByScore, NonIncreasing;
    var score := id => if id in signals then ranker(id, |qs|, signals[id]) else 0.0;
    var items := ScoreAll(signals.Keys, score);
    SortedTabulates(items, signals.Keys, score);
    var sorted := SortedByScore(items);
    SameScores(sorted, signals.Keys, score, ScoreOf(qs, ranker, show));
    TopOfSorted(sorted, signals.Keys, ScoreOf(qs, ranker, show), max);
    TabulatedLength(sorted, signals.Keys, score);
    r := sorted[..Cut(|sorted|, max)];
  }

  /** A search returns the best of the documents it found by the ranker's score, as many as the
      limit allows; a query without tokens finds every eligible document. */
  method SearchLexical(ix: InvertedIndex, query: string, types: set<string>, ranker: Ranker, max: int)
      returns (r: seq<Scored>)
    requires WellKept(ix.State())
    ensures var qs := if query == "" then [] else ix.tok(query);
            var show := ShowQuery(ix.postings, ix.sortedTerms, qs, |qs|);
            IsTop(r, Found(ix.documents, types, qs, show), ScoreOf(qs, ranker, show), max)
  {
    hide *;
    var qs := if query == "" then [] else ix.tok(query);
    ghost var show := ShowQuery(ix.postings, ix.sortedTerms, qs, |qs|);
    if qs == [] {
      r := Everything(ix, types, ranker, max, show);
    } else {
      var signals := Candidates(ix, qs, types);
      r := RankAll(ix, qs, types, signals, ranker, max, show);
    }
  }

  // --- Agreement with scanning the documents ---

  /** The words the documents contain, in order. */
  ghost predicate VocabularyOf(tok: Tokenizer, documents: map<string, Document>, terms: seq<string>) {
    && Sorted(terms)
    && forall t :: t in terms <==> exists id :: id in documents && Occurrences(tok, documents[id], t) != []
  }

  lemma ScannedVocabulary(tok: Tokenizer, c: Contents)
    requires Consistent(tok, c)
    ensures VocabularyOf(tok, c.documents, c.terms)
  {
    hide Occurrences, Sorted, At;
    forall t ensures t in c.terms <==> exists id :: id in c.documents && Occurrences(tok, c.documents[id], t) != [] {
      if t in c.terms {
        assert t in c.postings && c.postings[t] != map[];
        var id :| id in c.postings[t];
        PostedWhenSomethingIs(c.postings, t, id);
        assert At(c.postings, t, id) != [];
      }
      forall id | id in c.documents && Occurrences(tok, c.documents[id], t) != [] ensures t in c.terms {
        PostedWhenSomethingIs(c.postings, t, id);
        assert At(c.postings, t, id) != [];
      }
    }
  }

  function Scanner(tok: Tokenizer, doc: Document): Finder {
    term => Occurrences(tok, doc, term)
  }

  /** What scanning one document with the query finds. */
  ghost function ScanDocument(tok: Tokenizer, doc: Document, terms: seq<string>, qs: seq<string>): seq<Signal> {
    QuerySignals(terms, qs, |qs|, Scanner(tok, doc))
  }

  lemma {:induction false} SameMatchSignals(q: string, cs: seq<Candidate>, f: Finder, g: Finder)
    requires forall term :: f(term) == g(term)
    ensures MatchSignals(q, cs, f) == MatchSignals(q, cs, g)
  {
    if cs != [] {
      SameMatchSignals(q, cs[..|cs| - 1], f, g);
    }
  }

  lemma {:induction false} SameQuerySignals(terms: seq<string>, qs: seq<string>, k: nat, f: Finder, g: Finder)
    requires k <= |qs| && forall term :: f(term) == g(term)
    ensures QuerySignals(terms, qs, k, f) == QuerySignals(terms, qs, k, g)
  {
    if k > 0 {
      SameQuerySignals(terms, qs, k - 1, f, g);
      SameMatchSignals(qs[k - 1], Matches(terms, qs[k - 1], k == |qs|), f, g);
    }
  }

  lemma {:induction false} MatchSignalsExist(q: string, cs: seq<Candidate>, find: Finder)
    ensures MatchSignals(q, cs, find) != [] <==> exists c :: c in cs && find(c.term) != []
  {
    if cs != [] {
      var n := |cs| - 1;
      MatchSignalsExist(q, cs[..n], find);
      assert TermSignals(q, cs[n], find(cs[n].term)) != [] <==> find(cs[n].term) != [];
      assert cs == cs[..n] + [cs[n]];
    }
  }

  /** Some matched term of the `k`-th query term occurs. */
  ghost predicate Hits(terms: seq<string>, qs: seq<string>, k: nat, find: Finder)
    requires k < |qs|
  {
    exists c :: c in Matches(terms, qs[k], k == |qs| - 1) && find(c.term) != []
  }

  lemma HitsShow(terms: seq<string>, qs: seq<string>, k: nat, find: Finder)
    requires k < |qs|
    ensures Hits(terms, qs, k, find) <==> MatchSignals(qs[k], Matches(terms, qs[k], k == |qs| - 1), find) != []
  {
    hide Matches;
    MatchSignalsExist(qs[k], Matches(terms, qs[k], k == |qs| - 1), find);
  }

  lemma QuerySignalsStep(terms: seq<string>, qs: seq<string>, k: nat, find: Finder)
    requires k < |qs|
    ensures QuerySignals(terms, qs, k + 1, find) != [] <==> QuerySignals(terms, qs, k, find) != [] || Hits(terms, qs, k, find)
  {
    HitsShow(terms, qs, k, find);
    hide Matches, MatchSignals, Hits;
  }

  lemma NoQuerySignals(terms: seq<string>, qs: seq<string>, find: Finder)
    ensures QuerySignals(terms, qs, 0, find) == []
  {
  }

  lemma {:induction false} QuerySignalsExist(terms: seq<string>, qs: seq<string>, k: nat, find: Finder)
    requires k <= |qs|
    ensures QuerySignals(terms, qs, k, find) != [] <==> exists j | 0 <= j < k :: Hits(terms, qs, j, find)
  {
    hide *;
    if k == 0 {
      NoQuerySignals(terms, qs, find);
    } else {
      QuerySignalsStep(terms, qs, k - 1, find);
      QuerySignalsExist(terms, qs, k - 1, find);
    }
  }

  /** Some matched term of some query term occurs in the document. */
  ghost predicate ScanHits(tok: Tokenizer, doc: Document, terms: seq<string>, qs: seq<string>) {
    exists k | 0 <= k < |qs| :: Hits(terms, qs, k, Scanner(tok, doc))
  }

  lemma ScanShows(tok: Tokenizer, c: Contents, qs: seq<string>, id: string)
    requires Consistent(tok, c) && id in c.documents
    ensures ShowQuery(c.postings, c.terms, qs, |qs|)(id) == ScanDocument(tok, c.documents[id], c.terms, qs)
    ensures ScanDocument(tok, c.documents[id], c.terms, qs) != [] <==> ScanHits(tok, c.documents[id], c.terms, qs)
  {
    hide At, Occurrences, WellKept, QuerySignals;
    var find := Scanner(tok, c.documents[id]);
    SameQuerySignals(c.terms, qs, |qs|, FinderFor(c.postings, id), find);
    QuerySignalsExist(c.terms, qs, |qs|, find);
  }

  /** What scanning a document with a query reports: `x` is there if and only if some query term, some
      term it matches and some occurrence of that term in the document have exactly the fields of `x`;
      and there are as many signals as there are such occurrences. */
  lemma ScanReportsExactly(tok: Tokenizer, doc: Document, terms: seq<string>, qs: seq<string>, x: Signal)
    ensures x in ScanDocument(tok, doc, terms, qs) <==>
              exists j, c, o |
                0 <= j < |qs| && c in Matches(terms, qs[j], j == |qs| - 1) && o in Occurrences(tok, doc, c.term) ::
                x == Signal(qs[j], c.term, o.attribute, c.typos, c.isPrefix, o.position)
    ensures |ScanDocument(tok, doc, terms, qs)| == FoundFor(terms, qs, |qs|, Scanner(tok, doc))
  {
    var find := Scanner(tok, doc);
    SignalsExactly(terms, qs, |qs|, find);
    hide QuerySignals, Matches, Occurrences;
    if Reported(terms, qs, |qs|, find, x) {
      var j :| 0 <= j < |qs| && TellsOf(qs[j], Matches(terms, qs[j], j == |qs| - 1), find, x);
      var c :| c in Matches(terms, qs[j], j == |qs| - 1) && Tells(qs[j], c, find(c.term), x);
      assert find(c.term) == Occurrences(tok, doc, c.term);
    }
    forall j, c, o |
      0 <= j < |qs| && c in Matches(terms, qs[j], j == |qs| - 1) && o in Occurrences(tok, doc, c.term)
      && x == Signal(qs[j], c.term, o.attribute, c.typos, c.isPrefix, o.position)
      ensures Reported(terms, qs, |qs|, find, x)
    {
      assert Tells(qs[j], c, find(c.term), x);
      assert TellsOf(qs[j], Matches(terms, qs[j], j == |qs| - 1), find, x);
    }
  }

  /** On a consistent index the signals collected are what scanning every document would find:
      each eligible document in which a matched term of some query term occurs, with every such
      occurrence. */
  lemma SearchAgreesWithScan(tok: Tokenizer, c: Contents, types: set<string>, qs: seq<string>, r: Signals)
    requires Consistent(tok, c) && Lists(r, c.documents, types, ShowQuery(c.postings, c.terms, qs, |qs|))
    ensures VocabularyOf(tok, c.documents, c.terms)
    ensures forall id | id in r :: Eligible(c.documents, types, id) && r[id] == ScanDocument(tok, c.documents[id], c.terms, qs)
    ensures forall id :: id in r <==> Eligible(c.documents, types, id) && ScanHits(tok, c.documents[id], c.terms, qs)
  {
    ScannedVocabulary(tok, c);
    hide Consistent, VocabularyOf, ShowQuery, ScanDocument, ScanHits;
    forall id
      ensures id in r ==> Eligible(c.documents, types, id) && r[id] == ScanDocument(tok, c.documents[id], c.terms, qs)
      ensures id in r <==> Eligible(c.documents, types, id) && ScanHits(tok, c.documents[id], c.terms, qs)
    {
      assert id in r <==> Of(r, id) != [];
      if Eligible(c.documents, types, id) {
        ScanShows(tok, c, qs, id);
      }
    }
  }

  /** The ids scanning would rank, and by what score. */
  ghost function ScannedIds(tok: Tokenizer, documents: map<string, Document>, types: set<string>, terms: seq<string>,
                            qs: seq<string>): set<string> {
    set id | id in documents && Eligible(documents, types, id) && (qs == [] || ScanHits(tok, documents[id], terms, qs))
  }

  ghost function ScannedScore(tok: Tokenizer, documents: map<string, Document>, terms: seq<string>, qs: seq<string>,
                              ranker: Ranker): string -> real {
    ScoreOf(qs, ranker, id => if id in documents then ScanDocument(tok, documents[id], terms, qs) else [])
  }

  /** What a search ranks, and how: the documents of the wanted types, all of them with one score when the
      query has no tokens, else those in which a term that some query term matches occurs, by the ranker's
      score of what the scan reports. Of `n` found documents a limit of zero or more returns that many, or
      all; a negative one leaves out that many. */
  lemma RankedExactly(tok: Tokenizer, documents: map<string, Document>, types: set<string>, terms: seq<string>,
                      qs: seq<string>, ranker: Ranker, id: string, n: nat, max: int)
    ensures id in ScannedIds(tok, documents, types, terms, qs) <==>
              && id in documents && (types == {} || documents[id].entityType in types)
              && (qs == [] || exists j, c | 0 <= j < |qs| && c in Matches(terms, qs[j], j == |qs| - 1) ::
                                Occurrences(tok, documents[id], c.term) != [])
    ensures id in documents ==>
              ScannedScore(tok, documents, terms, qs, ranker)(id) ==
              if |qs| == 0 then 1.0 else ranker(id, |qs|, ScanDocument(tok, documents[id], terms, qs))
    ensures Cut(n, max) == if n + max < 0 then 0 else if max < 0 then n + max else if max < n then max else n
  {
    hide Matches, Occurrences, QuerySignals;
    if id in documents {
      var find := Scanner(tok, documents[id]);
      forall j, c | 0 <= j < |qs| && c in Matches(terms, qs[j], j == |qs| - 1)
        ensures find(c.term) == Occurrences(tok, documents[id], c.term)
        ensures Occurrences(tok, documents[id], c.term) != [] ==> Hits(terms, qs, j, find)
      {
      }
    }
  }

  lemma SameTop(r: seq<Scored>, ids: set<string>, score: string -> real, ids': set<string>, score': string -> real, max: int)
    requires IsTop(r, ids, score, max) && (forall id :: id in ids <==> id in ids')
    requires forall id | id in ids :: score(id) == score'(id)
    ensures IsTop(r, ids', score', max)
  {
    hide NonIncreasing, DuplicateFree, Ranks;
    assert ids == ids';
  }

  /** On a consistent index a search returns the best of what scanning every document finds. */
  lemma SearchIsTopOfScan(tok: Tokenizer, c: Contents, types: set<string>, qs: seq<string>, ranker: Ranker, max: int,
                          r: seq<Scored>)
    requires Consistent(tok, c)
    requires var show := ShowQuery(c.postings, c.terms, qs, |qs|);
             IsTop(r, Found(c.documents, types, qs, show), ScoreOf(qs, ranker, show), max)
    ensures VocabularyOf(tok, c.documents, c.terms)
    ensures IsTop(r, ScannedIds(tok, c.documents, types, c.terms, qs),
                  ScannedScore(tok, c.documents, c.terms, qs, ranker), max)
  {
    ScannedVocabulary(tok, c);
    hide Consistent, VocabularyOf, ShowQuery, ScanDocument, ScanHits, IsTop, Eligible;
    var show := ShowQuery(c.postings, c.terms, qs, |qs|);
    var ids, scanned := Found(c.documents, types, qs, show), ScannedIds(tok, c.documents, types, c.terms, qs);
    forall id | id in c.documents
      ensures id in ids <==> id in scanned
      ensures ScoreOf(qs, ranker, show)(id) == ScannedScore(tok, c.documents, c.terms, qs, ranker)(id)
    {
      ScanShows(tok, c, qs, id);
    }
    SameTop(r, ids, ScoreOf(qs, ranker, show), scanned, ScannedScore(tok, c.documents, c.terms, qs, ranker), max);
  }
}
