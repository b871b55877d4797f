/** Results that get lost: which steps lose them, and whether the server can still come by them. */
module Losses {
  import opened Commands
  import opened Agent
  import opened Protocol

  // --- Which steps lose a result ---

  /** A crash with the result in hand, or a report neither acknowledged nor written locally. */
  ghost predicate LosesResult(s: System, a: Action, id: string) {
    (a.Crash? || (a.GiveUp? && !a.written)) && InHand(s, id)
  }

  lemma LostStep(st: Setting, s: System, a: Action, id: string)
    ensures id in Step(st, s, a).lost <==> id in s.lost || LosesResult(s, a, id)
  {
    hide Pending, AllDispatched, Answer, Refusal, Reported, Acknowledged, ByAgent, AtResult, Then;
  }

  lemma NothingLost()
    ensures BOOT.lost == {}
  {
  }

  /** A result is lost exactly when one of these steps happened while it was in hand. */
  lemma {:induction false} LostExactly(st: Setting, actions: seq<Action>, id: string)
    ensures id in After(st, actions).lost <==>
            exists i | 0 <= i < |actions| :: LosesResult(After(st, actions[..i]), actions[i], id)
  {
    hide *;
    if actions == [] {
      NothingYet(st);
      NothingLost();
    } else {
      var n := |actions| - 1;
      var earlier := actions[..n];
      assert actions == earlier + [actions[n]];
      OneMore(st, earlier, actions[n]);
      LostExactly(st, earlier, id);
      LostStep(st, After(st, earlier), actions[n], id);
      assert forall i | 0 <= i < n :: earlier[..i] == actions[..i] && earlier[i] == actions[i];
      assert actions[..n] == earlier;
    }
  }

  // --- A lost result is nowhere else ---

  /** In hand, lost, and kept in the buffer or acknowledged exclude one another. */
  ghost predicate Exclusive(s: System) {
    && (forall id | InHand(s, id) :: id !in s.lost && !Buffered(s, id) && id !in s.acked)
    && forall id | id in s.lost :: id in s.produced && !Buffered(s, id) && id !in s.acked
  }

  /** What a step can do to where one result is. */
  ghost predicate Moves(s: System, a: Action, s': System, id: string) {
    && (id in s.produced ==> id in s'.produced)
    && (id in s'.lost ==> id in s.lost || (InHand(s, id) && !a.Acknowledge? && !(a.GiveUp? && a.written)))
    && (id in s'.acked ==> id in s.acked || Buffered(s, id) || (InHand(s, id) && a.Acknowledge?))
    && (Buffered(s', id) ==> Buffered(s, id) || (InHand(s, id) && a.GiveUp? && a.written))
    && (InHand(s', id) ==> if InHand(s, id) then s'.lost == s.lost && s'.acked == s.acked && s'.store == s.store
                           else a.Execute? && id !in s.produced)
  }

  lemma QuietKeeps(st: Setting, s: System, a: Action)
    requires !(a.EndDrain? || a.GiveUp? || a.BufferHeartbeat? || a.AcknowledgeBuffered? || a.Acknowledge? || a.Crash? || a.Execute?)
    ensures var s' := Step(st, s, a);
            && s'.store == s.store && s'.acked == s.acked && s'.lost == s.lost && s'.produced == s.produced
            && (s'.mode.Reporting? ==> s'.mode == s.mode)
  {
    hide Pending, AllDispatched, Answer, Refusal, Buffer.Peeked, AtResult;
  }

  /** The steps that leave buffer, acknowledgements and losses alone. */
  lemma QuietMoves(st: Setting, s: System, a: Action, id: string)
    requires !(a.EndDrain? || a.GiveUp? || a.BufferHeartbeat? || a.AcknowledgeBuffered? || a.Acknowledge? || a.Crash? || a.Execute?)
    ensures Moves(s, a, Step(st, s, a), id)
  {
    QuietKeeps(st, s, a);
    hide Step;
    SameStore(s, Step(st, s, a));
    hide Buffered;
  }

  lemma ExecuteMoves(st: Setting, s: System, o: Outcome, id: string)
    requires Sound(s)
    ensures Moves(s, Execute(o), Step(st, s, Execute(o)), id)
  {
    var s' := Step(st, s, Execute(o));
    assert s' != s ==> o.id in Todo(s.mode) && o.id !in s.executed && o.id !in s.produced;
    hide Sound, ByAgent;
    SameStore(s, s');
    hide Buffered;
  }

  lemma LeaveHandMoves(st: Setting, s: System, a: Action, id: string)
    requires a.Acknowledge? || a.Crash?
    ensures Moves(s, a, Step(st, s, a), id)
  {
    hide Acknowledged;
    SameStore(s, Step(st, s, a));
    hide Buffered;
  }

  lemma EnqueueMoves(st: Setting, s: System, a: Action, id: string)
    requires a.GiveUp? || a.BufferHeartbeat?
    ensures Moves(s, a, Step(st, s, a), id)
  {
    var s' := Step(st, s, a);
    if Buffered(s', id) {
      var e :| e in s'.store.rows && e.payload.ResultOf? && e.payload.o.id == id;
      assert e in s.store.rows || (a.GiveUp? && a.written && InHand(s, id));
    }
  }

  lemma EndDrainMoves(st: Setting, s: System, a: Action, id: string)
    requires a.EndDrain?
    ensures Moves(s, a, Step(st, s, a), id)
  {
    var s' := Step(st, s, a);
    if Buffered(s', id) && s'.store != s.store {
      var e :| e in s'.store.rows && e.payload.ResultOf? && e.payload.o.id == id;
      Buffer.DeletedIsPart(s.store, s.mode.done, e);
    }
    hide Buffer.Deleted;
  }

  lemma AcknowledgeBufferedMoves(st: Setting, s: System, a: Action, id: string)
    requires AgentTruthful(s) && a.AcknowledgeBuffered?
    ensures Moves(s, a, Step(st, s, a), id)
  {
    hide Genuine, Acknowledged;
    SameStore(s, Step(st, s, a));
    if AtResult(s.mode) {
      assert s.mode.left[0] in s.mode.left && s.mode.left[0] in s.store.rows;
      assert Buffered(s, s.mode.left[0].payload.o.id);
    }
    hide Buffered;
  }

  lemma StepMoves(st: Setting, s: System, a: Action, id: string)
    requires Sound(s)
    ensures Moves(s, a, Step(st, s, a), id)
  {
    if a.Execute? {
      ExecuteMoves(st, s, a.o, id);
    } else if a.Acknowledge? || a.Crash? {
      LeaveHandMoves(st, s, a, id);
    } else if a.GiveUp? || a.BufferHeartbeat? {
      EnqueueMoves(st, s, a, id);
    } else if a.EndDrain? {
      EndDrainMoves(st, s, a, id);
    } else if a.AcknowledgeBuffered? {
      AcknowledgeBufferedMoves(st, s, a, id);
    } else {
      QuietMoves(st, s, a, id);
    }
    hide Step, Moves;
  }

  /** Whatever the agent still holds or has dealt with, it has produced. */
  lemma KnownIsProduced(s: System, id: string)
    requires Sound(s) && (InHand(s, id) || Buffered(s, id) || id in s.acked)
    ensures id in s.produced
  {
    InHandIsProduced(s);
    if Buffered(s, id) {
      var e :| e in s.store.rows && e.payload.ResultOf? && e.payload.o.id == id;
      assert Genuine(s, e.payload.o);
    }
  }

  lemma StepExclusive(st: Setting, s: System, a: Action)
    requires Sound(s) && Exclusive(s)
    ensures Exclusive(Step(st, s, a))
  {
    var s' := Step(st, s, a);
    hide Step, Sound, InHand, Buffered;
    forall id
      ensures InHand(s', id) ==> id !in s'.lost && !Buffered(s', id) && id !in s'.acked
      ensures id in s'.lost ==> id in s'.produced && !Buffered(s', id) && id !in s'.acked
    {
      StepMoves(st, s, a, id);
      if InHand(s, id) || Buffered(s, id) || id in s.acked {
        KnownIsProduced(s, id);
      }
      if InHand(s, id) && InHand(s', id) {
        SameStore(s, s');
      }
    }
  }

  lemma BootExclusive()
    ensures Exclusive(BOOT)
  {
  }

  lemma {:induction false} AlwaysExclusive(st: Setting, actions: seq<Action>)
    ensures Exclusive(After(st, actions))
  {
    hide *;
    if actions == [] {
      NothingYet(st);
      BootExclusive();
    } else {
      var n := |actions| - 1;
      assert actions == actions[..n] + [actions[n]];
      OneMore(st, actions[..n], actions[n]);
      AlwaysSound(st, actions[..n]);
      AlwaysExclusive(st, actions[..n]);
      StepExclusive(st, After(st, actions[..n]), actions[n]);
    }
  }

  /** In every run the lost results are exactly those executed that are neither in hand, nor in the
      buffer, nor acknowledged. */
  lemma LostIsNowhere(st: Setting, actions: seq<Action>, id: string)
    ensures var s := After(st, actions);
            id in s.lost <==> id in s.executed && !InHand(s, id) && !Buffered(s, id) && id !in s.acked
  {
    AlwaysSound(st, actions);
    AlwaysExclusive(st, actions);
    hide After, InHand, Buffered, OnePlace, ServerTruthful, Genuine;
  }

  // --- Can the server still come by it? ---

  /** Some request that the server would not refuse carries the result. */
  ghost predicate Carried(st: Setting, s: System, o: Outcome) {
    exists r | r in s.requests :: r.o == o && Refused(st, r).None?
  }

  lemma OnlySendingSends(st: Setting, s: System, a: Action)
    ensures forall r | r in Step(st, s, a).requests && r !in s.requests ::
              (a.Send? && s.mode.Reporting? && r.o == s.mode.o)
              || (a.SendBuffered? && AtResult(s.mode) && r.o == s.mode.left[0].payload.o)
  {
    hide Pending, AllDispatched, Answer, Refusal, Reported, Acknowledged, ByAgent;
  }

  /** Nothing sends a lost result again. */
  lemma NotSentAgain(st: Setting, s: System, a: Action, id: string)
    requires Sound(s) && !InHand(s, id) && !Buffered(s, id)
    ensures forall r | r in Step(st, s, a).requests && r.o.id == id :: r in s.requests
  {
    hide OnePlace, ServerTruthful, Accounted, Genuine;
    if a.SendBuffered? && AtResult(s.mode) {
      assert s.mode.left[0] in s.mode.left && s.mode.left[0] in s.store.rows;
    }
    OnlySendingSends(st, s, a);
    hide Step;
  }

  lemma PollRecordsNothing(st: Setting, s: System, key: nat, o: Outcome)
    requires Sound(s) && o.id in s.table.rows
    ensures Recorded(Step(st, s, Poll(key)).table, o) ==> Recorded(s.table, o)
  {
    if key !in s.inFlight && Refusal(st, st.header).None? {
      var s' := Step(st, s, Poll(key));
      PollHandsOut(st, s, key, s');
      if s.table.rows[o.id].body.Some? { ResultMeansReported(s, o.id); }
      hide Step, Sound;
    }
  }

  lemma OnlyServerRecords(st: Setting, s: System, a: Action)
    requires !ByServer(a) && !a.Poll?
    ensures Step(st, s, a).table == s.table
  {
    hide Pending, AllDispatched, Answer, Refusal, Reported, Acknowledged, ByAgent, AtResult;
  }

  /** A row comes to hold a result only by an unrefused request that carries it. */
  lemma RecordedByRequest(st: Setting, s: System, a: Action, o: Outcome)
    requires Sound(s) && !Recorded(s.table, o) && Recorded(Step(st, s, a).table, o) && Genuine(s, o)
    ensures Carried(st, s, o)
  {
    assert HandedOut(s, o.id);
    if ByServer(a) {
      ServerEffect(st, s, a);
      assert !a.Create? && a.request in s.requests ==> Genuine(s, a.request.o);
      hide Step, OnePlace, ServerTruthful, Accounted;
    } else {
      if a.Poll? {
        PollRecordsNothing(st, s, a.key, o);
      } else {
        OnlyServerRecords(st, s, a);
      }
      hide Step, Sound, Recorded;
    }
  }

  /** Lost, not recorded, and on no request that would get it recorded. */
  ghost predicate Hopeless(st: Setting, s: System, o: Outcome) {
    o.id in s.lost && Genuine(s, o) && !Recorded(s.table, o) && !Carried(st, s, o)
  }

  lemma StepHopeless(st: Setting, s: System, a: Action, o: Outcome)
    requires Sound(s) && Exclusive(s) && Hopeless(st, s, o)
    ensures Hopeless(st, Step(st, s, a), o)
  {
    var s' := Step(st, s, a);
    assert !InHand(s, o.id) && !Buffered(s, o.id);
    LostStep(st, s, a, o.id);
    ProducedStays(st, s, a, o.id);
    NotSentAgain(st, s, a, o.id);
    hide Step, Sound, Exclusive, Recorded;
    if Recorded(s'.table, o) {
      RecordedByRequest(st, s, a, o);
    }
  }

  lemma {:induction false} HopelessForEver(st: Setting, actions: seq<Action>, more: seq<Action>, o: Outcome)
    requires Hopeless(st, After(st, actions), o)
    ensures Hopeless(st, After(st, actions + more), o)
    decreases |more|
  {
    hide *;
    if more == [] {
      assert actions + more == actions;
    } else {
      var n := |more| - 1;
      assert actions + more == (actions + more[..n]) + [more[n]];
      OneMore(st, actions + more[..n], more[n]);
      HopelessForEver(st, actions, more[..n], o);
      AlwaysSound(st, actions + more[..n]);
      AlwaysExclusive(st, actions + more[..n]);
      StepHopeless(st, After(st, actions + more[..n]), more[n], o);
    }
  }

  /** A request that is not refused gets recorded when the server takes it up. */
  lemma ServedIsRecorded(st: Setting, s: System, r: Request)
    requires Sound(s) && r in s.requests && Refused(st, r).None?
    ensures Recorded(Step(st, s, Serve(r)).table, r.o)
  {
    assert Genuine(s, r.o) && r.o.id in s.executed && HandedOut(s, r.o.id);
    hide Sound, Refused;
  }

  /** A lost result can still be recorded exactly when it is already, or some request that carries
      it and is not refused is on its way. Nothing else will ever bring it to the server. */
  lemma RecoverableExactly(st: Setting, actions: seq<Action>, id: string)
    requires id in After(st, actions).lost
    ensures id in After(st, actions).produced
    ensures var s := After(st, actions);
            var o := s.produced[id];
            (exists more :: Recorded(After(st, actions + more).table, o)) <==> Recorded(s.table, o) || Carried(st, s, o)
  {
    AlwaysSound(st, actions);
    AlwaysExclusive(st, actions);
    var s := After(st, actions);
    var o := s.produced[id];
    assert o.id == id && Genuine(s, o);
    hide After, Step, Sound, Exclusive, Recorded, Refused;
    if Recorded(s.table, o) {
      assert actions + [] == actions;
      assert Recorded(After(st, actions + []).table, o);
    } else if Carried(st, s, o) {
      var r :| r in s.requests && r.o == o && Refused(st, r).None?;
      ServedIsRecorded(st, s, r);
      OneMore(st, actions, Serve(r));
      assert Recorded(After(st, actions + [Serve(r)]).table, o);
    } else {
      forall more ensures !Recorded(After(st, actions + more).table, o) {
        HopelessForEver(st, actions, more, o);
      }
    }
  }

  lemma HopelessIsUnrecorded(st: Setting, s: System, o: Outcome)
    requires Hopeless(st, s, o)
    ensures !Recorded(s.table, o)
  {
  }

  /** A report that never got an answer, whose local write fails: the result is gone for good. */
  lemma FailedWriteLoses(st: Setting, o: Outcome) returns (actions: seq<Action>)
    requires Refusal(st, st.header).None? && ByAgent(o)
    ensures var s := After(st, actions);
            s.executed == [o.id] && s.produced == map[o.id := o] && o.id in s.lost && s.requests == {}
    ensures forall more :: !Recorded(After(st, actions + more).table, o)
  {
    hide After;
    actions := ExecutedRun(st, o);
    var s := InHandOnly(st, o);
    actions := Longer(st, actions, s, GiveUp(false));
    assert Hopeless(st, After(st, actions), o);
    hide InHandOnly, Hopeless;
    forall more ensures !Recorded(After(st, actions + more).table, o) {
      HopelessForEver(st, actions, more, o);
      HopelessIsUnrecorded(st, After(st, actions + more), o);
    }
  }
}
