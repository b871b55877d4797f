/** The edge agent's side of the command protocol: reporting, buffering and draining results. */
module Agent {
  import opened Schema
  import opened Commands
  import Buffer

  datatype Payload = Heartbeat | ResultOf(o: Outcome)

  type Event = Buffer.Row<Payload>

  const DRAIN_LIMIT := 20

  /** How a request ends: no answer, or an HTTP status. */
  predicate Acknowledged(answer: Option<int>) {
    answer.Some? && answer.value < 500
  }

  type Answers = nat -> Option<int>

  /** A drained event is done with when it is a heartbeat, or a result the server answered
      below 500; a result without a command id is never even sent. */
  predicate Settled(e: Event, answers: Answers) {
    match e.payload
    case Heartbeat => true
    case ResultOf(o) => o.id != "" && Acknowledged(answers(e.id))
  }

  function Settling(events: seq<Event>, answers: Answers): seq<nat> {
    if events == [] then []
    else
      var n := |events| - 1;
      if Settled(events[n], answers) then Settling(events[..n], answers) + [events[n].id] else Settling(events[..n], answers)
  }

  function Drained(s: Buffer.Store<Payload>, answers: Answers): Buffer.Store<Payload> {
    Buffer.Deleted(s, Settling(Buffer.Peeked(s, DRAIN_LIMIT), answers))
  }

  function Reported(s: Buffer.Store<Payload>, o: Outcome, answer: Option<int>, written: bool): Buffer.Store<Payload> {
    if Acknowledged(answer) || !written then s else Buffer.Enqueued(s, ResultOf(o))
  }

  /** The results of one poll, reported one after the other; the `i`-th gets `answers(i)` and,
      if it has to be buffered, `written(i)` says whether the local write succeeds. */
  function ReportedAll(s: Buffer.Store<Payload>, os: seq<Outcome>, answers: Answers, written: nat -> bool)
      : Buffer.Store<Payload>
  {
    if os == [] then s
    else
      var n := |os| - 1;
      Reported(ReportedAll(s, os[..n], answers, written), os[n], answers(n), written(n))
  }

  class EdgeAgent {
    const buf: Buffer.OfflineBuffer<Payload>

    constructor (buf: Buffer.OfflineBuffer<Payload>)
      ensures this.buf == buf
    {
      this.buf := buf;
    }

    method BufferResult(o: Outcome, written: bool)
      requires Buffer.Increasing(buf.State())
      modifies buf
      ensures buf.State() == if written then Buffer.Enqueued(old(buf.State()), ResultOf(o)) else old(buf.State())
      ensures Buffer.Increasing(buf.State())
    {
      if written {
        var _ := buf.Enqueue(ResultOf(o));
      }
    }

    method ReportResult(o: Outcome, answer: Option<int>, written: bool)
      requires Buffer.Increasing(buf.State())
      modifies buf
      ensures buf.State() == Reported(old(buf.State()), o, answer, written) && Buffer.Increasing(buf.State())
    {
      if answer.None? || answer.value >= 500 {
        BufferResult(o, written);
      }
    }

    method PollAndExecute(reply: Option<seq<string>>, process: string -> Outcome, answers: Answers, written: nat -> bool)
        returns (results: seq<Outcome>)
      requires Buffer.Increasing(buf.State())
      modifies buf
      ensures reply.None? ==> results == []
      ensures reply.Some? ==>
                |results| == |reply.value| && forall i | 0 <= i < |results| :: results[i] == process(reply.value[i])
      ensures buf.State() == ReportedAll(old(buf.State()), results, answers, written) && Buffer.Increasing(buf.State())
    {
      results := [];
      if reply.None? {
        return;
      }
      var commands := reply.value;
      for i := 0 to |commands|
        invariant |results| == i && forall j | 0 <= j < i :: results[j] == process(commands[j])
        invariant buf.State() == ReportedAll(old(buf.State()), results, answers, written) && Buffer.Increasing(buf.State())
      {
        var result := process(commands[i]);
        ReportResult(result, answers(i), written(i));
        assert (results + [result])[..i] == results;
        results := results + [result];
      }
    }

    method DrainBuffer(answers: Answers, deletable: bool)
      requires Buffer.Increasing(buf.State())
      modifies buf
      ensures buf.State() == if deletable then Drained(old(buf.State()), answers) else old(buf.State())
      ensures Buffer.Increasing(buf.State())
    {
      var events := buf.Peek(DRAIN_LIMIT);
      if |events| == 0 {
        Buffer.KeepNone(buf.rows);
        return;
      }
      var processed: seq<nat> := [];
      for i := 0 to |events|
        invariant processed == Settling(events[..i], answers)
        invariant buf.State() == old(buf.State())
      {
        assert events[..i + 1][..i] == events[..i];
        match events[i].payload {
          case ResultOf(o) =>
            if o.id != "" {
              var answer := answers(events[i].id);
              if answer.Some? && answer.value < 500 {
                processed := processed + [events[i].id];
              }
            }
          case Heartbeat =>
            processed := processed + [events[i].id];
        }
      }
      assert events[..|events|] == events;
      Buffer.KeepNone(buf.rows);
      if |processed| > 0 && deletable {
        buf.Delete(processed);
      }
    }
  }

  /** After reporting, the buffer holds what it held, and behind that, in order, exactly the results that
      got no answer, or one of 500 or more, and whose local write succeeded. */
  lemma {:induction false} ReportedAllExactly(s: Buffer.Store<Payload>, os: seq<Outcome>, answers: Answers, written: nat -> bool)
      returns (kept: seq<nat>)
    ensures forall j | 0 <= j < |kept| :: kept[j] < |os| && (j > 0 ==> kept[j - 1] < kept[j])
    ensures forall i | 0 <= i < |os| :: i in kept <==> (answers(i) == None || answers(i).value >= 500) && written(i)
    ensures var r := ReportedAll(s, os, answers, written);
            && r.next == s.next + |kept|
            && r.rows == s.rows + seq(|kept|, j requires 0 <= j < |kept| => Buffer.Row(s.next + j, ResultOf(os[kept[j]])))
  {
    kept := [];
    if os != [] {
      var n := |os| - 1;
      kept := ReportedAllExactly(s, os[..n], answers, written);
      assert n !in kept;
      if (answers(n) == None || answers(n).value >= 500) && written(n) {
        kept := kept + [n];
      }
    }
  }

  lemma {:induction false} SettlingExact(events: seq<Event>, answers: Answers)
    ensures forall id :: id in Settling(events, answers) <==> exists e :: e in events && e.id == id && Settled(e, answers)
  {
    if events != [] {
      var n := |events| - 1;
      SettlingExact(events[..n], answers);
      assert events == events[..n] + [events[n]];
    }
  }

  /** A drain removes exactly the settled ones of the first twenty events: no other event goes,
      and none that was not acknowledged. */
  lemma DrainRemovesSettled(s: Buffer.Store<Payload>, answers: Answers)
    requires Buffer.Increasing(s)
    ensures forall e :: e in Drained(s, answers).rows <==>
              e in s.rows && !(e in Buffer.Peeked(s, DRAIN_LIMIT) && Settled(e, answers))
    ensures Buffer.Increasing(Drained(s, answers))
  {
    var events := Buffer.Peeked(s, DRAIN_LIMIT);
    var ids := Settling(events, answers);
    SettlingExact(events, answers);
    Buffer.KeepExact(s.rows, ids);
    Buffer.KeepIncreasing(s, ids);
    assert Drained(s, answers).rows == Buffer.Keep(s.rows, ids);
    assert forall e | e in events :: e in s.rows;
    hide *;
    forall e | e in s.rows ensures e.id in ids <==> e in events && Settled(e, answers) {
      if e.id in ids {
        var f :| f in events && f.id == e.id && Settled(f, answers);
        Buffer.SameRow(s, e, f);
      }
    }
  }

  /** Row by row: what stays is everything behind the first twenty, and of those the results without a
      command id, without an answer, or answered with 500 or more. */
  lemma DrainKeepsRow(s: Buffer.Store<Payload>, answers: Answers, i: nat)
    requires Buffer.Increasing(s) && i < |s.rows|
    ensures s.rows[i] in Drained(s, answers).rows <==>
            i >= 20 || match s.rows[i].payload
                       case Heartbeat => false
                       case ResultOf(o) => o.id == "" || answers(s.rows[i].id) == None || answers(s.rows[i].id).value >= 500
  {
    DrainRemovesSettled(s, answers);
    var e, events := s.rows[i], Buffer.Peeked(s, DRAIN_LIMIT);
    assert i < 20 ==> events[i] == e;
    if e in events {
      var j :| 0 <= j < |events| && events[j] == e;
      assert s.rows[j] == e && j == i;
    }
  }

  // --- Draining again and again ---

  /** The buffer after `k` drains, the `i`-th with the answers `answers(i)`. */
  function DrainedTimes(s: Buffer.Store<Payload>, answers: nat -> Answers, k: nat): Buffer.Store<Payload> {
    if k == 0 then s else Drained(DrainedTimes(s, answers, k - 1), answers(k - 1))
  }

  lemma {:induction false} SettlesNothing(events: seq<Event>, answers: Answers)
    requires forall e | e in events :: !Settled(e, answers)
    ensures Settling(events, answers) == []
  {
    if events != [] {
      SettlesNothing(events[..|events| - 1], answers);
      assert events[|events| - 1] in events;
    }
  }

  /** A drain changes nothing exactly when none of the first twenty events is settled. */
  lemma DrainIsStuckExactly(s: Buffer.Store<Payload>, answers: Answers)
    requires Buffer.Increasing(s)
    ensures Drained(s, answers) == s <==> forall e | e in Buffer.Peeked(s, DRAIN_LIMIT) :: !Settled(e, answers)
  {
    var events := Buffer.Peeked(s, DRAIN_LIMIT);
    DrainRemovesSettled(s, answers);
    if forall e | e in events :: !Settled(e, answers) {
      SettlesNothing(events, answers);
      Buffer.KeepNone(s.rows);
    } else {
      var e :| e in events && Settled(e, answers);
      assert e in s.rows && e !in Drained(s, answers).rows;
    }
  }

  /** Results at the head that the server never answers below 500 stop the drain for good: nothing
      behind the first twenty is ever sent, however often and whatever the other answers are. */
  lemma {:induction false} HeadBlocksForEver(s: Buffer.Store<Payload>, answers: nat -> Answers, k: nat)
    requires Buffer.Increasing(s)
    requires forall i: nat, e | i < k && e in Buffer.Peeked(s, DRAIN_LIMIT) :: !Settled(e, answers(i))
    ensures DrainedTimes(s, answers, k) == s
  {
    if k > 0 {
      HeadBlocksForEver(s, answers, k - 1);
      DrainIsStuckExactly(s, answers(k - 1));
    }
  }

  lemma {:induction false} SettlesAll(events: seq<Event>, answers: Answers)
    requires forall e | e in events :: Settled(e, answers)
    ensures Settling(events, answers) == seq(|events|, i requires 0 <= i < |events| => events[i].id)
  {
    if events != [] {
      var n := |events| - 1;
      SettlesAll(events[..n], answers);
      assert events[n] in events;
    }
  }

  lemma DrainTakesTwenty(s: Buffer.Store<Payload>, answers: Answers)
    requires Buffer.Increasing(s) && forall e | e in s.rows :: Settled(e, answers)
    ensures Drained(s, answers).rows == if |s.rows| <= DRAIN_LIMIT then [] else s.rows[DRAIN_LIMIT..]
    ensures Buffer.Increasing(Drained(s, answers))
  {
    hide Settled, Settling, Buffer.Keep, Buffer.Increasing;
    var events := Buffer.Peeked(s, DRAIN_LIMIT);
    assert forall e | e in events :: e in s.rows;
    SettlesAll(events, answers);
    Buffer.DrainedPrefix(s, DRAIN_LIMIT);
    DrainRemovesSettled(s, answers);
  }

  /** While every answer is below 500 and every result has a command id, each drain takes the next
      twenty: `k` drains leave what lies behind the first `20 * k`, and enough of them nothing. */
  lemma {:induction false} DrainsEmptyTheBuffer(s: Buffer.Store<Payload>, answers: nat -> Answers, k: nat)
    requires Buffer.Increasing(s)
    requires forall i: nat, e | i < k && e in s.rows :: Settled(e, answers(i))
    ensures DrainedTimes(s, answers, k).rows == if |s.rows| <= 20 * k then [] else s.rows[20 * k..]
    ensures Buffer.Increasing(DrainedTimes(s, answers, k))
  {
    hide Drained, Settled, Buffer.Increasing;
    if k == 0 {
      assert s.rows[0..] == s.rows;
    } else {
      DrainsEmptyTheBuffer(s, answers, k - 1);
      var t := DrainedTimes(s, answers, k - 1);
      assert forall e | e in t.rows :: e in s.rows;
      DrainTakesTwenty(t, answers(k - 1));
    }
  }
}
