/** The server's table of edge commands. */
module Commands {
  import opened Schema

  datatype Status = Queued | Dispatched | Completed | Failed | RejectedPolicy | RejectedSignature

  /** What an agent reports for one command. */
  datatype Outcome = Outcome(id: string, status: Status, body: string)

  /** The statuses an agent produces. */
  predicate ByAgent(o: Outcome) {
    !o.status.Queued? && !o.status.Dispatched?
  }

  datatype Row = Row(agentId: string, status: Status, body: Option<string>)

  /** `order` lists the primary keys by creation time. */
  datatype Table = Table(order: seq<string>, rows: map<string, Row>)

  const POLL_LIMIT := 10

  predicate IsPending(t: Table, agentId: string, id: string) {
    id in t.rows && t.rows[id].agentId == agentId && t.rows[id].status == Queued
  }

  function PendingIn(t: Table, agentId: string, ids: seq<string>): seq<string> {
    if ids == [] then []
    else
      var n := |ids| - 1;
      PendingIn(t, agentId, ids[..n]) + if IsPending(t, agentId, ids[n]) then [ids[n]] else []
  }

  /** The oldest queued commands of an agent, at most `limit` of them. */
  function Pending(t: Table, agentId: string, limit: nat): seq<string> {
    var all := PendingIn(t, agentId, t.order);
    if |all| <= limit then all else all[..limit]
  }

  /** An UPDATE touches nothing when the row does not exist. */
  function WithDispatched(t: Table, id: string): Table {
    if id in t.rows then t.(rows := t.rows[id := t.rows[id].(status := Dispatched)]) else t
  }

  function AllDispatched(t: Table, ids: seq<string>): Table {
    if ids == [] then t
    else WithDispatched(AllDispatched(t, ids[..|ids| - 1]), ids[|ids| - 1])
  }

  function WithOutcome(t: Table, o: Outcome): Table {
    if o.id in t.rows then t.(rows := t.rows[o.id := Row(t.rows[o.id].agentId, o.status, Some(o.body))]) else t
  }

  function WithCommand(t: Table, id: string, agentId: string): Table {
    Table(t.order + [id], t.rows[id := Row(agentId, Queued, None)])
  }

  ghost predicate WellFormedTable(t: Table) {
    NoDuplicates(t.order) && forall id :: id in t.order <==> id in t.rows
  }

  class CommandTable {
    var order: seq<string>
    var rows: map<string, Row>

    ghost function State(): Table
      reads this
    {
      Table(order, rows)
    }

    constructor ()
      ensures State() == Table([], map[])
    {
      order, rows := [], map[];
    }

    /** An id already there violates the primary key. */
    method CreateCommand(id: string, agentId: string) returns (ok: bool)
      requires WellFormedTable(State())
      modifies this
      ensures ok <==> id !in old(rows)
      ensures State() == (if ok then WithCommand(old(State()), id, agentId) else old(State())) && WellFormedTable(State())
    {
      if id in rows {
        return false;
      }
      ok := true;
      order := order + [id];
      rows := rows[id := Row(agentId, Queued, None)];
    }

    method GetPending(agentId: string, limit: nat) returns (ids: seq<string>)
      requires WellFormedTable(State())
      ensures ids == Pending(State(), agentId, limit)
    {
      ids := [];
      for i := 0 to |order|
        invariant ids == PendingIn(State(), agentId, order[..i])
      {
        assert order[..i + 1][..i] == order[..i];
        var row := rows[order[i]];
        if row.agentId == agentId && row.status == Queued {
          ids := ids + [order[i]];
        }
      }
      assert order[..|order|] == order;
      if |ids| > limit {
        ids := ids[..limit];
      }
    }

    method MarkDispatched(id: string)
      modifies this
      ensures State() == WithDispatched(old(State()), id)
    {
      if id in rows {
        rows := rows[id := rows[id].(status := Dispatched)];
      }
    }

    /** A later result overwrites an earlier one. */
    method RecordResult(o: Outcome) returns (found: bool)
      modifies this
      ensures found == (o.id in old(rows))
      ensures State() == WithOutcome(old(State()), o)
    {
      found := o.id in rows;
      if found {
        rows := rows[o.id := Row(rows[o.id].agentId, o.status, Some(o.body))];
      }
    }

    /** The poll endpoint: hands out pending commands, marking each as it goes. */
    method PollCommands(agentId: string) returns (handed: seq<string>)
      requires WellFormedTable(State())
      modifies this
      ensures handed == Pending(old(State()), agentId, POLL_LIMIT)
      ensures State() == AllDispatched(old(State()), handed)
    {
      var pending := GetPending(agentId, POLL_LIMIT);
      handed := [];
      for i := 0 to |pending|
        invariant handed == pending[..i] && State() == AllDispatched(old(State()), pending[..i])
      {
        assert pending[..i + 1][..i] == pending[..i];
        MarkDispatched(pending[i]);
        handed := handed + [pending[i]];
      }
      assert pending[..|pending|] == pending;
    }
  }

  // --- What a poll does ---

  lemma {:induction false} PendingInExact(t: Table, agentId: string, ids: seq<string>)
    requires NoDuplicates(ids)
    ensures var p := PendingIn(t, agentId, ids);
            NoDuplicates(p) && forall id :: id in p <==> id in ids && IsPending(t, agentId, id)
  {
    if ids != [] {
      var n := |ids| - 1;
      PendingInExact(t, agentId, ids[..n]);
      assert ids == ids[..n] + [ids[n]];
      var p := PendingIn(t, agentId, ids[..n]);
      forall i | 0 <= i < |p| ensures p[i] != ids[n] {
        assert p[i] in p;
      }
    }
  }

  lemma {:induction false} AllDispatchedExact(t: Table, ids: seq<string>)
    ensures var t' := AllDispatched(t, ids);
            && t'.order == t.order && t'.rows.Keys == t.rows.Keys
            && forall id | id in t.rows :: t'.rows[id] == if id in ids then t.rows[id].(status := Dispatched) else t.rows[id]
  {
    if ids != [] {
      var n := |ids| - 1;
      AllDispatchedExact(t, ids[..n]);
      assert ids == ids[..n] + [ids[n]];
    }
  }

  /** Cutting the list of pending commands short is cutting the table short. */
  lemma {:induction false} PendingCut(t: Table, agentId: string, ids: seq<string>, n: nat) returns (k: nat)
    requires n <= |PendingIn(t, agentId, ids)|
    ensures k <= |ids| && PendingIn(t, agentId, ids)[..n] == PendingIn(t, agentId, ids[..k])
  {
    var all := PendingIn(t, agentId, ids);
    if n == |all| {
      k := |ids|;
      assert ids[..k] == ids && all[..n] == all;
    } else {
      var m := |ids| - 1;
      var shorter := PendingIn(t, agentId, ids[..m]);
      assert all[..n] == shorter[..n];
      k := PendingCut(t, agentId, ids[..m], n);
      assert ids[..m][..k] == ids[..k];
    }
  }

  /** What a poll hands out is everything pending in an initial part of the table. */
  lemma OldestFirst(t: Table, agentId: string, limit: nat)
    ensures exists k | 0 <= k <= |t.order| :: Pending(t, agentId, limit) == PendingIn(t, agentId, t.order[..k])
  {
    var ids := Pending(t, agentId, limit);
    var k := PendingCut(t, agentId, t.order, |ids|);
    assert PendingIn(t, agentId, t.order)[..|ids|] == ids;
  }

  /** A poll hands out distinct queued commands of that agent, at most ten, leaves them
      dispatched and everything else as it was; when fewer than ten come back, none is left. */
  lemma PollHandsOutOnce(t: Table, agentId: string)
    requires WellFormedTable(t)
    ensures var ids := Pending(t, agentId, POLL_LIMIT);
            var t' := AllDispatched(t, ids);
            && NoDuplicates(ids) && |ids| <= 10 && WellFormedTable(t') && t'.order == t.order && t'.rows.Keys == t.rows.Keys
            && (forall id | id in ids :: id in t.rows
                  && t.rows[id] == Row(agentId, Queued, t.rows[id].body)
                  && t'.rows[id] == Row(agentId, Dispatched, t.rows[id].body))
            && (forall id | id in t.rows && id !in ids :: t'.rows[id] == t.rows[id])
            && (|ids| < 10 ==> forall id | id in t'.rows && t'.rows[id].agentId == agentId :: t'.rows[id].status != Queued)
  {
    PendingInExact(t, agentId, t.order);
    var all := PendingIn(t, agentId, t.order);
    var ids := Pending(t, agentId, POLL_LIMIT);
    AllDispatchedExact(t, ids);
    hide PendingIn, AllDispatched;
    assert forall id | id in ids :: id in all;
    var t' := AllDispatched(t, ids);
    assert |ids| < POLL_LIMIT ==> forall id | IsPending(t, agentId, id) :: id in ids;
    assert WellFormedTable(t') by {
      hide NoDuplicates;
    }
  }
}
