/** The in-memory inverted index, judged against a plain scan of the documents. */
module Index {
  import opened Ordering

  datatype Document = Document(id: string, title: string, tags: seq<string>, description: string, status: string,
                               entityType: string)

  datatype Occurrence = Occurrence(attribute: string, position: nat)

  type Postings = map<string, map<string, seq<Occurrence>>>

  type Tokenizer = string -> seq<string>

  // --- What scanning a document finds ---

  function Joined(words: seq<string>): string {
    if words == [] then ""
    else if |words| == 1 then words[0]
    else words[0] + " " + Joined(words[1..])
  }

  /** Joining puts one space between any two neighbours. */
  lemma {:induction false} JoinedExactly(a: seq<string>, b: seq<string>)
    ensures Joined(a + b) == if a == [] then Joined(b) else if b == [] then Joined(a) else Joined(a) + " " + Joined(b)
    ensures |a| == 1 ==> Joined(a) == a[0]
  {
    if a == [] {
      assert a + b == b;
    } else {
      assert (a + b)[1..] == a[1..] + b;
      JoinedExactly(a[1..], b);
    }
  }

  datatype Field = Field(attribute: string, text: string)

  function Fields(doc: Document): seq<Field> {
    [Field("id", doc.id), Field("title", doc.title), Field("tags", Joined(doc.tags)),
     Field("description", doc.description), Field("status", doc.status)]
  }

  /** Where `term` stands among `tokens`. */
  function Positions(attribute: string, tokens: seq<string>, term: string): seq<Occurrence> {
    if tokens == [] then []
    else
      var n := |tokens| - 1;
      Positions(attribute, tokens[..n], term) + (if tokens[n] == term then [Occurrence(attribute, n)] else [])
  }

  function Tokens(tok: Tokenizer, f: Field): seq<string> {
    if f.text == "" then [] else tok(f.text)
  }

  function Scan(tok: Tokenizer, fields: seq<Field>, term: string): seq<Occurrence> {
    if fields == [] then []
    else
      var n := |fields| - 1;
      Scan(tok, fields[..n], term) + Positions(fields[n].attribute, Tokens(tok, fields[n]), term)
  }

  /** Every place where a field of the document yields `term`. */
  function Occurrences(tok: Tokenizer, doc: Document, term: string): seq<Occurrence> {
    Scan(tok, Fields(doc), term)
  }

  /** A scan lists exactly the places at which tokenizing the attribute yields the term. */
  lemma {:induction false} PositionsExact(attribute: string, tokens: seq<string>, term: string)
    ensures forall o :: o in Positions(attribute, tokens, term) <==>
              o.attribute == attribute && o.position < |tokens| && tokens[o.position] == term
  {
    if tokens != [] {
      PositionsExact(attribute, tokens[..|tokens| - 1], term);
    }
  }

  lemma {:induction false} ScanExact(tok: Tokenizer, fields: seq<Field>, term: string)
    ensures forall o :: o in Scan(tok, fields, term) <==> exists f ::
              f in fields && f.attribute == o.attribute && o.position < |Tokens(tok, f)| && Tokens(tok, f)[o.position] == term
  {
    if fields != [] {
      var n := |fields| - 1;
      ScanExact(tok, fields[..n], term);
      PositionsExact(fields[n].attribute, Tokens(tok, fields[n]), term);
      assert fields == fields[..n] + [fields[n]];
    }
  }

  lemma PositionsSnoc(attribute: string, tokens: seq<string>, term: string)
    ensures tokens == [] ==> Positions(attribute, tokens, term) == []
    ensures tokens != [] ==>
              var n := |tokens| - 1;
              Positions(attribute, tokens, term) ==
              Positions(attribute, tokens[..n], term) + if tokens[n] == term then [Occurrence(attribute, n)] else []
  {
  }

  lemma {:induction false} PositionsAscend(attribute: string, tokens: seq<string>, term: string)
    ensures forall i, j | 0 <= i < j < |Positions(attribute, tokens, term)| ::
              Positions(attribute, tokens, term)[i].position < Positions(attribute, tokens, term)[j].position
  {
    hide Positions;
    PositionsSnoc(attribute, tokens, term);
    if tokens != [] {
      var n := |tokens| - 1;
      var r := Positions(attribute, tokens[..n], term);
      PositionsAscend(attribute, tokens[..n], term);
      PositionsExact(attribute, tokens[..n], term);
      forall i | 0 <= i < |r| ensures r[i].position < n {
        assert r[i] in r;
      }
    }
  }

  lemma ScanSnoc(tok: Tokenizer, fields: seq<Field>, term: string)
    ensures fields == [] ==> Scan(tok, fields, term) == []
    ensures fields != [] ==>
              var n := |fields| - 1;
              Scan(tok, fields, term) ==
              Scan(tok, fields[..n], term) + Positions(fields[n].attribute, Tokens(tok, fields[n]), term)
  {
    hide Positions, Tokens;
  }

  lemma PositionsOf(attribute: string, tokens: seq<string>, term: string)
    ensures forall i | 0 <= i < |Positions(attribute, tokens, term)| ::
              Positions(attribute, tokens, term)[i].attribute == attribute
  {
    PositionsExact(attribute, tokens, term);
    hide Positions;
    var r := Positions(attribute, tokens, term);
    assert forall i | 0 <= i < |r| :: r[i] in r;
  }

  /** A scan lists its occurrences field by field, each field from left to right; `at` says which field. */
  lemma {:induction false} ScanInOrder(tok: Tokenizer, fields: seq<Field>, term: string) returns (at: seq<nat>)
    ensures |at| == |Scan(tok, fields, term)|
    ensures forall i | 0 <= i < |at| :: at[i] < |fields| && Scan(tok, fields, term)[i].attribute == fields[at[i]].attribute
    ensures forall i, j | 0 <= i < j < |at| ::
              at[i] < at[j] || (at[i] == at[j] && Scan(tok, fields, term)[i].position < Scan(tok, fields, term)[j].position)
  {
    hide *;
    ScanSnoc(tok, fields, term);
    at := [];
    if fields != [] {
      var n := |fields| - 1;
      at := ScanInOrder(tok, fields[..n], term);
      var last := Positions(fields[n].attribute, Tokens(tok, fields[n]), term);
      PositionsAscend(fields[n].attribute, Tokens(tok, fields[n]), term);
      PositionsOf(fields[n].attribute, Tokens(tok, fields[n]), term);
      at := at + seq(|last|, _ => n);
    }
  }

  /** Occurrences come attribute by attribute in the order the index knows them, each from left to right. */
  lemma OccurrencesInOrder(tok: Tokenizer, doc: Document, term: string) returns (at: seq<nat>)
    ensures |at| == |Occurrences(tok, doc, term)|
    ensures forall i | 0 <= i < |at| ::
              at[i] < 5 && Occurrences(tok, doc, term)[i].attribute == ["id", "title", "tags", "description", "status"][at[i]]
    ensures forall i, j | 0 <= i < j < |at| ::
              at[i] < at[j]
              || (at[i] == at[j] && Occurrences(tok, doc, term)[i].position < Occurrences(tok, doc, term)[j].position)
  {
    hide Scan, Joined;
    at := ScanInOrder(tok, Fields(doc), term);
  }

  /** A document contains a term exactly where tokenizing its id, title, tags, description or status
      yields it; the tags are tokenized as one text, and an empty attribute not at all. */
  lemma OccurrencesExactly(tok: Tokenizer, doc: Document, term: string, o: Occurrence)
    ensures o in Occurrences(tok, doc, term) <==>
              var text := match o.attribute
                          case "id" => doc.id
                          case "title" => doc.title
                          case "tags" => Joined(doc.tags)
                          case "description" => doc.description
                          case "status" => doc.status
                          case _ => "";
              text != "" && o.position < |tok(text)| && tok(text)[o.position] == term
  {
    var fields := Fields(doc);
    ScanExact(tok, fields, term);
    assert forall f | f in fields :: f in [fields[0], fields[1], fields[2], fields[3], fields[4]];
  }

  // --- The index as a value ---

  datatype Contents = Contents(documents: map<string, Document>, postings: Postings, terms: seq<string>)

  /** What is posted under a term for a document. */
  function At(p: Postings, term: string, id: string): seq<Occurrence> {
    if term in p && id in p[term] then p[term][id] else []
  }

  /** No posting map and no occurrence list is empty. */
  ghost predicate Tidy(p: Postings) {
    forall term | term in p :: p[term] != map[] && forall id | id in p[term] :: p[term][id] != []
  }

  /** The vocabulary lists the posting keys in order. */
  ghost predicate Vocabulary(p: Postings, terms: seq<string>) {
    Sorted(terms) && forall t :: t in terms <==> t in p
  }

  ghost predicate WellKept(c: Contents) {
    Tidy(c.postings) && Vocabulary(c.postings, c.terms)
  }

  /** The index posts exactly what scanning its documents yields. */
  ghost predicate Consistent(tok: Tokenizer, c: Contents) {
    && WellKept(c)
    && forall term, id :: At(c.postings, term, id) ==
         if id in c.documents then Occurrences(tok, c.documents[id], term) else []
  }

  /** `after` is `before` with the document's occurrences posted behind what is there. */
  ghost predicate AddsTo(tok: Tokenizer, before: Contents, doc: Document, after: Contents) {
    && after.documents == before.documents[doc.id := doc]
    && WellKept(after)
    && forall term, id :: At(after.postings, term, id) ==
         At(before.postings, term, id) + if id == doc.id then Occurrences(tok, doc, term) else []
  }

  /** `after` is `before` without the document and everything posted for it. */
  ghost predicate RemovesFrom(before: Contents, id: string, after: Contents) {
    && after.documents == before.documents - {id}
    && WellKept(after)
    && forall term, other :: At(after.postings, term, other) ==
         if other == id && id in before.documents then [] else At(before.postings, term, other)
  }

  /** A tidy index holds a document under a term exactly when something is posted there. */
  lemma PostedWhenSomethingIs(p: Postings, term: string, id: string)
    requires Tidy(p)
    ensures term in p && id in p[term] <==> At(p, term, id) != []
  {
  }

  lemma SameTerms(p: Postings, q: Postings, term: string)
    requires Tidy(p) && Tidy(q) && term in p
    requires forall id :: At(p, term, id) == At(q, term, id)
    ensures term in q
  {
    var id :| id in p[term];
    assert At(p, term, id) == At(q, term, id);
  }

  lemma PostingsDetermined(p: Postings, q: Postings)
    requires Tidy(p) && Tidy(q)
    requires forall term, id :: At(p, term, id) == At(q, term, id)
    ensures p == q
  {
    forall term ensures term in p <==> term in q {
      if term in p { SameTerms(p, q, term); }
      if term in q { SameTerms(q, p, term); }
    }
    forall term | term in p ensures p[term] == q[term] {
      forall id ensures id in p[term] <==> id in q[term] {
        assert At(p, term, id) == At(q, term, id);
      }
      forall id | id in p[term] ensures p[term][id] == q[term][id] {
        assert At(p, term, id) == At(q, term, id);
      }
    }
  }

  // --- Maintaining the index ---

  /** `p` is `before` with `found(term)` posted for the document behind what was there. */
  ghost predicate Posted(before: Postings, p: Postings, id: string, found: string -> seq<Occurrence>) {
    forall term, other :: At(p, term, other) == At(before, term, other) + if other == id then found(term) else []
  }

  lemma PostedMore(before: Postings, mid: Postings, after: Postings, id: string,
                   found: string -> seq<Occurrence>, more: string -> seq<Occurrence>, all: string -> seq<Occurrence>)
    requires Posted(before, mid, id, found) && Posted(mid, after, id, more)
    requires forall term :: all(term) == found(term) + more(term)
    ensures Posted(before, after, id, all)
  {
    hide At;
    forall term, other
      ensures At(after, term, other) == At(before, term, other) + if other == id then all(term) else []
    {
      assert At(after, term, other) == At(mid, term, other) + if other == id then more(term) else [];
      assert At(mid, term, other) == At(before, term, other) + if other == id then found(term) else [];
      assert other == id ==> (At(before, term, other) + found(term)) + more(term) == At(before, term, other) + all(term);
    }
  }

  function Put(p: Postings, term: string, id: string, o: Occurrence): Postings {
    var m := if term in p then p[term] else map[];
    p[term := m[id := (if id in m then m[id] else []) + [o]]]
  }

  lemma PutPosts(p: Postings, term: string, id: string, o: Occurrence)
    ensures Posted(p, Put(p, term, id, o), id, t => if t == term then [o] else [])
  {
    var found := t => if t == term then [o] else [];
    var q := Put(p, term, id, o);
    forall t, other ensures At(q, t, other) == At(p, t, other) + if other == id then found(t) else [] {
    }
  }

  lemma PutTidy(p: Postings, term: string, id: string, o: Occurrence)
    requires Tidy(p)
    ensures Tidy(Put(p, term, id, o))
  {
    var q := Put(p, term, id, o);
    assert id in q[term];
  }

  /** Every posting map without the document; maps may become empty. */
  function Without(p: Postings, id: string): Postings {
    map term | term in p :: p[term] - {id}
  }

  ghost predicate EmptyIn(p: Postings, term: string) {
    term in p && p[term] == map[]
  }

  lemma RemovedAt(p: Postings, id: string, q: Postings)
    requires Tidy(p)
    requires forall term :: term in q <==> term in p && !EmptyIn(Without(p, id), term)
    requires forall term | term in q :: q[term] == p[term] - {id}
    ensures Tidy(q)
    ensures forall term, other :: At(q, term, other) == if other == id then [] else At(p, term, other)
  {
    forall term, other ensures At(q, term, other) == if other == id then [] else At(p, term, other) {
      if term in p {
        assert other != id && other in p[term] ==> other in Without(p, id)[term];
      }
    }
  }

  /** The maps outside `todo` have lost the document, and `emptied` lists those left empty. */
  ghost predicate Stripped(before: Postings, p: Postings, id: string, todo: set<string>, emptied: seq<string>) {
    && p.Keys == before.Keys
    && (forall term | term in p :: p[term] == if term in todo then before[term] else before[term] - {id})
    && forall term :: term in emptied <==> term !in todo && EmptyIn(p, term)
  }

  lemma StripOne(before: Postings, p: Postings, id: string, todo: set<string>, emptied: seq<string>, term: string)
    requires Stripped(before, p, id, todo, emptied) && term in todo && term in p
    ensures p[term] == before[term]
    ensures var m := p[term] - {id};
            && (m != map[] ==> Stripped(before, p[term := m], id, todo - {term}, emptied))
            && (m == map[] ==> Stripped(before, p[term := m], id, todo - {term}, emptied + [term]))
  {
  }

  lemma {:induction false} StripNone(before: Postings, p: Postings, id: string, todo: set<string>, emptied: seq<string>,
                                    term: string)
    requires Tidy(before) && Stripped(before, p, id, todo, emptied) && term in todo && term in p && id !in p[term]
    ensures Stripped(before, p, id, todo - {term}, emptied)
  {
    StripOne(before, p, id, todo, emptied, term);
    assert p[term] - {id} == p[term] && p[term := p[term]] == p;
    assert p[term] != map[];
  }

  lemma StripStart(p: Postings, id: string)
    ensures Stripped(p, p, id, p.Keys, [])
  {
  }

  lemma StripDone(before: Postings, p: Postings, id: string, emptied: seq<string>)
    requires Stripped(before, p, id, {}, emptied)
    ensures p == Without(before, id)
    ensures forall term :: term in emptied <==> EmptyIn(p, term)
  {
  }

  class InvertedIndex {
    const tok: Tokenizer
    var documents: map<string, Document>
    var postings: Postings
    var sortedTerms: seq<string>

    ghost function State(): Contents
      reads this
    {
      Contents(documents, postings, sortedTerms)
    }

    constructor (tok: Tokenizer)
      ensures this.tok == tok && documents == map[] && Consistent(tok, State())
    {
      this.tok := tok;
      documents, postings, sortedTerms := map[], map[], [];
    }

    method Post(term: string, id: string, o: Occurrence)
      requires WellKept(State())
      modifies this
      ensures WellKept(State()) && documents == old(documents)
      ensures Posted(old(postings), postings, id, t => if t == term then [o] else [])
    {
      hide Tidy, Posted, At, Sorted;
      PutPosts(postings, term, id, o);
      PutTidy(postings, term, id, o);
      if term !in postings {
        postings := postings[term := map[]];
        sortedTerms := Insort(sortedTerms, term);
      }
      var docMap := postings[term];
      if id !in docMap {
        docMap := docMap[id := []];
      }
      docMap := docMap[id := docMap[id] + [o]];
      assert docMap == Put(old(postings), term, id, o)[term];
      postings := postings[term := docMap];
      assert postings == Put(old(postings), term, id, o);
    }

    method PostField(id: string, f: Field)
      requires WellKept(State())
      modifies this
      ensures WellKept(State()) && documents == old(documents)
      ensures Posted(old(postings), postings, id, t => Positions(f.attribute, Tokens(tok, f), t))
    {
      hide WellKept, At;
      if f.text == "" {
        return;
      }
      var tokens := tok(f.text);
      for i := 0 to |tokens|
        invariant WellKept(State()) && documents == old(documents)
        invariant Posted(old(postings), postings, id, t => Positions(f.attribute, tokens[..i], t))
      {
        ghost var mid := postings;
        Post(tokens[i], id, Occurrence(f.attribute, i));
        assert tokens[..i + 1][..i] == tokens[..i];
        PostedMore(old(postings), mid, postings, id, t => Positions(f.attribute, tokens[..i], t),
                   t => if t == tokens[i] then [Occurrence(f.attribute, i)] else [],
                   t => Positions(f.attribute, tokens[..i + 1], t));
      }
      assert tokens[..|tokens|] == tokens;
    }

    method AddDocument(doc: Document)
      requires WellKept(State())
      modifies this
      ensures AddsTo(tok, old(State()), doc, State())
    {
      documents := documents[doc.id := doc];
      var fields := Fields(doc);
      for i := 0 to |fields|
        invariant WellKept(State()) && documents == old(documents)[doc.id := doc]
        invariant Posted(old(postings), postings, doc.id, t => Scan(tok, fields[..i], t))
      {
        ghost var mid := postings;
        PostField(doc.id, fields[i]);
        assert fields[..i + 1][..i] == fields[..i];
        PostedMore(old(postings), mid, postings, doc.id, t => Scan(tok, fields[..i], t),
                   t => Positions(fields[i].attribute, Tokens(tok, fields[i]), t), t => Scan(tok, fields[..i + 1], t));
      }
      assert fields[..|fields|] == fields;
    }

    method UnpostTerm(term: string, id: string, emptied: seq<string>, ghost before: Postings, ghost todo: set<string>)
        returns (r: seq<string>)
      requires term in postings && term in todo && Tidy(before) && Stripped(before, postings, id, todo, emptied)
      modifies this`postings
      ensures postings.Keys == old(postings).Keys && Stripped(before, postings, id, todo - {term}, r)
    {
      hide *;
      var docMap := postings[term];
      r := emptied;
      if id in docMap {
        StripOne(before, postings, id, todo, emptied, term);
        docMap := docMap - {id};
        postings := postings[term := docMap];
        if docMap == map[] {
          r := emptied + [term];
        }
      } else {
        StripNone(before, postings, id, todo, emptied, term);
      }
    }

    method Unpost(id: string) returns (emptied: seq<string>)
      requires WellKept(State())
      modifies this`postings
      ensures postings == Without(old(postings), id)
      ensures forall term :: term in emptied <==> EmptyIn(postings, term)
    {
      assert Tidy(postings);
      hide *;
      emptied := [];
      var todo := postings.Keys;
      StripStart(postings, id);
      while todo != {}
        invariant todo <= postings.Keys
        invariant Stripped(old(postings), postings, id, todo, emptied)
        decreases todo
      {
        var term :| term in todo;
        emptied := UnpostTerm(term, id, emptied, old(postings), todo);
        todo := todo - {term};
      }
      StripDone(old(postings), postings, id, emptied);
    }

    method DropTerms(emptied: seq<string>)
      requires Vocabulary(postings, sortedTerms) && forall term | term in emptied :: term in postings
      modifies this`postings, this`sortedTerms
      ensures Vocabulary(postings, sortedTerms)
      ensures postings == old(postings) - (set term | term in emptied)
    {
      for i := 0 to |emptied|
        invariant Vocabulary(postings, sortedTerms)
        invariant postings == old(postings) - (set term | term in emptied[..i])
      {
        postings := postings - {emptied[i]};
        sortedTerms := Discard(sortedTerms, emptied[i]);
      }
      assert emptied[..|emptied|] == emptied;
    }

    /** Takes the document out of every posting map, then drops the maps left empty. */
    method RemoveDocument(id: string)
      requires WellKept(State())
      modifies this
      ensures RemovesFrom(old(State()), id, State())
      ensures id !in old(documents) ==> State() == old(State())
    {
      if id !in documents {
        return;
      }
      documents := documents - {id};
      var emptied := Unpost(id);
      DropTerms(emptied);
      RemovedAt(old(postings), id, postings);
    }
  }

  // --- What maintenance keeps ---

  /** Adding under a fresh id keeps the index consistent. Adding under an id already there
      keeps it so exactly when the document it replaces yields no token at all: the old
      postings stay behind. */
  lemma AddKeepsConsistentExactly(tok: Tokenizer, before: Contents, doc: Document, after: Contents)
    requires Consistent(tok, before) && AddsTo(tok, before, doc, after)
    ensures Consistent(tok, after) <==>
              (doc.id in before.documents ==> forall term :: Occurrences(tok, before.documents[doc.id], term) == [])
  {
    hide At, Occurrences, WellKept;
    var id := doc.id;
    forall term, other
      ensures At(after.postings, term, other) ==
              (if other in before.documents then Occurrences(tok, before.documents[other], term) else []) +
              if other == id then Occurrences(tok, doc, term) else []
    {
    }
    if Consistent(tok, after) && id in before.documents {
      forall term ensures Occurrences(tok, before.documents[id], term) == [] {
        var old', new' := Occurrences(tok, before.documents[id], term), Occurrences(tok, doc, term);
        assert At(after.postings, term, id) == old' + new' == new';
        assert |old' + new'| == |new'|;
      }
    }
  }

  lemma RemoveKeepsConsistent(tok: Tokenizer, before: Contents, id: string, after: Contents)
    requires Consistent(tok, before) && RemovesFrom(before, id, after)
    ensures Consistent(tok, after)
  {
    hide At, Occurrences, WellKept;
  }

  /** A consistent index is determined by its documents. */
  lemma ConsistentIsUnique(tok: Tokenizer, a: Contents, b: Contents)
    requires Consistent(tok, a) && Consistent(tok, b) && a.documents == b.documents
    ensures a == b
  {
    hide At, Occurrences, Tidy, Sorted;
    PostingsDetermined(a.postings, b.postings);
    SortedUnique(a.terms, b.terms);
  }

  /** Adding a fresh document and removing it again restores the index. */
  lemma AddThenRemoveRestores(tok: Tokenizer, before: Contents, doc: Document, mid: Contents, after: Contents)
    requires Consistent(tok, before) && doc.id !in before.documents
    requires AddsTo(tok, before, doc, mid) && RemovesFrom(mid, doc.id, after)
    ensures after == before
  {
    AddKeepsConsistentExactly(tok, before, doc, mid);
    RemoveKeepsConsistent(tok, mid, doc.id, after);
    assert after.documents == before.documents;
    hide *;
    ConsistentIsUnique(tok, before, after);
  }

  datatype Update = Add(doc: Document) | Remove(id: string)

  /** The documents a history of updates leaves. */
  function Surviving(updates: seq<Update>): map<string, Document> {
    if updates == [] then map[]
    else
      var earlier := Surviving(updates[..|updates| - 1]);
      match updates[|updates| - 1]
      case Add(doc) => earlier[doc.id := doc]
      case Remove(id) => earlier - {id}
  }

  ghost predicate IsHistory(tok: Tokenizer, updates: seq<Update>, states: seq<Contents>) {
    && |states| == |updates| + 1
    && states[0] == Contents(map[], map[], [])
    && forall i | 0 <= i < |updates| ::
         match updates[i]
         case Add(doc) => AddsTo(tok, states[i], doc, states[i + 1])
         case Remove(id) => RemovesFrom(states[i], id, states[i + 1])
  }

  /** Every document added was new at the time. */
  ghost predicate AddsAreFresh(updates: seq<Update>) {
    forall i | 0 <= i < |updates| && updates[i].Add? :: updates[i].doc.id !in Surviving(updates[..i])
  }

  lemma EmptyIsConsistent(tok: Tokenizer)
    ensures Consistent(tok, Contents(map[], map[], []))
  {
  }

  /** After any history of fresh adds and removes the index is exactly the scan of the
      documents that survive. */
  lemma {:induction false} EveryHistoryIsConsistent(tok: Tokenizer, updates: seq<Update>, states: seq<Contents>)
    requires IsHistory(tok, updates, states) && AddsAreFresh(updates)
    ensures Consistent(tok, states[|updates|]) && states[|updates|].documents == Surviving(updates)
  {
    hide Consistent;
    var n := |updates| - 1;
    if updates == [] {
      EmptyIsConsistent(tok);
    } else {
      assert forall i | 0 <= i < n :: updates[..n][..i] == updates[..i];
      EveryHistoryIsConsistent(tok, updates[..n], states[..n + 1]);
      match updates[n] {
        case Add(doc) => AddKeepsConsistentExactly(tok, states[n], doc, states[n + 1]);
        case Remove(id) => RemoveKeepsConsistent(tok, states[n], id, states[n + 1]);
      }
    }
  }
}
