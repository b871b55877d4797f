/** The agent's offline buffer: rows keyed by ids that are never reused. */
module Buffer {
  datatype Row<T> = Row(id: nat, payload: T)

  /** `next` is the next id the table will assign. */
  datatype Store<T> = Store(rows: seq<Row<T>>, next: nat)

  ghost predicate Increasing<T>(s: Store<T>) {
    && (forall i | 0 <= i < |s.rows| :: s.rows[i].id < s.next)
    && forall i, j | 0 <= i < j < |s.rows| :: s.rows[i].id < s.rows[j].id
  }

  lemma SameRow<T>(s: Store<T>, a: Row<T>, b: Row<T>)
    requires Increasing(s) && a in s.rows && b in s.rows && a.id == b.id
    ensures a == b
  {
    var i :| 0 <= i < |s.rows| && s.rows[i] == a;
    var j :| 0 <= j < |s.rows| && s.rows[j] == b;
    assert !(i < j) && !(j < i);
  }

  function Enqueued<T>(s: Store<T>, payload: T): Store<T> {
    Store(s.rows + [Row(s.next, payload)], s.next + 1)
  }

  /** The payloads put in one after the other. */
  function EnqueuedAll<T>(s: Store<T>, payloads: seq<T>): Store<T> {
    if payloads == [] then s
    else
      var n := |payloads| - 1;
      Enqueued(EnqueuedAll(s, payloads[..n]), payloads[n])
  }

  /** What is put in comes last, in the order it came, under consecutive ids; what was there stays. */
  lemma {:induction false} EnqueuedInOrder<T>(s: Store<T>, payloads: seq<T>)
    ensures EnqueuedAll(s, payloads).next == s.next + |payloads|
    ensures EnqueuedAll(s, payloads).rows ==
            s.rows + seq(|payloads|, i requires 0 <= i < |payloads| => Row(s.next + i, payloads[i]))
  {
    if payloads != [] {
      EnqueuedInOrder(s, payloads[..|payloads| - 1]);
    }
  }

  function Peeked<T>(s: Store<T>, limit: nat): seq<Row<T>> {
    if |s.rows| <= limit then s.rows else s.rows[..limit]
  }

  function Keep<T>(rows: seq<Row<T>>, ids: seq<nat>): seq<Row<T>> {
    if rows == [] then []
    else
      var n := |rows| - 1;
      if rows[n].id in ids then Keep(rows[..n], ids) else Keep(rows[..n], ids) + [rows[n]]
  }

  function Deleted<T>(s: Store<T>, ids: seq<nat>): Store<T> {
    Store(Keep(s.rows, ids), s.next)
  }

  lemma {:induction false} KeepNone<T>(rows: seq<Row<T>>)
    ensures Keep(rows, []) == rows
  {
    if rows != [] {
      KeepNone(rows[..|rows| - 1]);
    }
  }

  lemma {:induction false} KeepStep<T>(rows: seq<Row<T>>, ids: seq<nat>, id: nat)
    ensures Keep(Keep(rows, ids), [id]) == Keep(rows, ids + [id])
  {
    if rows != [] {
      var n := |rows| - 1;
      KeepStep(rows[..n], ids, id);
      assert rows[n].id in ids + [id] <==> rows[n].id in ids || rows[n].id == id;
      if rows[n].id !in ids {
        var kept := Keep(rows, ids);
        assert kept[..|kept| - 1] == Keep(rows[..n], ids);
      }
    }
  }

  lemma {:induction false} KeepBelow<T>(rows: seq<Row<T>>, ids: seq<nat>, bound: nat)
    requires forall i | 0 <= i < |rows| :: rows[i].id < bound
    ensures forall i | 0 <= i < |Keep(rows, ids)| :: Keep(rows, ids)[i].id < bound
  {
    if rows != [] {
      KeepBelow(rows[..|rows| - 1], ids, bound);
    }
  }

  lemma {:induction false} KeepIncreasing<T>(s: Store<T>, ids: seq<nat>)
    requires Increasing(s)
    ensures Increasing(Deleted(s, ids))
    decreases |s.rows|
  {
    if s.rows != [] {
      var n := |s.rows| - 1;
      var front := s.rows[..n];
      KeepIncreasing(Store(front, s.next), ids);
      KeepBelow(front, ids, s.rows[n].id);
      KeepBelow(s.rows, ids, s.next);
    }
  }

  class OfflineBuffer<T(==)> {
    var rows: seq<Row<T>>
    var next: nat

    ghost function State(): Store<T>
      reads this
    {
      Store(rows, next)
    }

    constructor ()
      ensures State() == Store([], 1)
    {
      rows, next := [], 1;
    }

    method Enqueue(payload: T) returns (id: nat)
      requires Increasing(State())
      modifies this
      ensures State() == Enqueued(old(State()), payload) && id == old(next) && Increasing(State())
    {
      id := next;
      rows := rows + [Row(next, payload)];
      next := next + 1;
    }

    method Peek(limit: nat) returns (r: seq<Row<T>>)
      ensures r == Peeked(State(), limit)
    {
      r := if |rows| <= limit then rows else rows[..limit];
    }

    /** One DELETE per id, in one transaction. */
    method Delete(ids: seq<nat>)
      requires Increasing(State())
      modifies this
      ensures State() == Deleted(old(State()), ids) && Increasing(State())
    {
      KeepNone(rows);
      for i := 0 to |ids|
        invariant State() == Deleted(old(State()), ids[..i])
      {
        KeepStep(old(rows), ids[..i], ids[i]);
        assert ids[..i + 1] == ids[..i] + [ids[i]];
        rows := Keep(rows, [ids[i]]);
      }
      assert ids[..|ids|] == ids;
      KeepIncreasing(old(State()), ids);
    }
  }

  /** Exactly the rows not asked for survive. */
  lemma {:induction false} KeepExact<T>(rows: seq<Row<T>>, ids: seq<nat>)
    ensures forall r :: r in Keep(rows, ids) <==> r in rows && r.id !in ids
  {
    if rows != [] {
      var n := |rows| - 1;
      KeepExact(rows[..n], ids);
      assert rows == rows[..n] + [rows[n]];
    }
  }

  lemma DeletedIsPart<T>(s: Store<T>, ids: seq<nat>, r: Row<T>)
    ensures r in Deleted(s, ids).rows <==> r in s.rows && r.id !in ids
  {
    KeepExact(s.rows, ids);
  }

  lemma {:induction false} KeepSuffix<T>(rows: seq<Row<T>>, ids: seq<nat>, k: nat)
    requires k <= |rows|
    requires forall i | 0 <= i < k :: rows[i].id in ids
    requires forall i | k <= i < |rows| :: rows[i].id !in ids
    ensures Keep(rows, ids) == rows[k..]
    decreases |rows|
  {
    if rows != [] {
      var n := |rows| - 1;
      KeepSuffix(rows[..n], ids, if k < n then k else n);
    }
  }

  /** First in, first out: draining what a peek shows leaves the rest in the order it came. */
  lemma DrainedPrefix<T>(s: Store<T>, limit: nat)
    requires Increasing(s)
    ensures var shown := Peeked(s, limit);
            Deleted(s, seq(|shown|, i requires 0 <= i < |shown| => shown[i].id)).rows == s.rows[|shown|..]
  {
    var shown := Peeked(s, limit);
    var ids := seq(|shown|, i requires 0 <= i < |shown| => shown[i].id);
    forall i | 0 <= i < |shown| ensures s.rows[i].id in ids {
      assert ids[i] == s.rows[i].id;
    }
    KeepSuffix(s.rows, ids, |shown|);
  }
}
