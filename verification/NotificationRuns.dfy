/**
 Notification consumers at work on one stream: each takes a message by polling or by
 reclaiming it from another, stores the notification, dispatches it and acknowledges; it
 may crash anywhere, and a message that was not acknowledged is taken again.
 */
module NotificationRuns {
  /** A stream message; known tells whether its event type maps to a notification. */
  datatype Message = Message(id: string, eventId: string, known: bool)

  datatype Worker = Idle | Storing(m: nat) | Dispatching(m: nat) | Acknowledging(m: nat)

  /** stored and dispatched list the event ids of the notifications, in order. */
  datatype State = State(
    messages: seq<Message>, acked: set<nat>, stored: seq<string>, dispatched: seq<string>, workers: seq<Worker>)

  datatype Event =
    | Publish(message: Message)
    | Take(w: nat, m: nat)
    | Store(w: nat, accepted: bool)
    | Dispatch(w: nat)
    | Acknowledge(w: nat, ok: bool)
    | Crash(w: nat)

  /** A message without an event id goes by its own. */
  function EventId(message: Message): string {
    if message.eventId == "" then message.id else message.eventId
  }

  function EventOf(s: State, m: nat): string
    requires m < |s.messages|
  {
    EventId(s.messages[m])
  }

  function Set(s: State, w: nat, worker: Worker): State
    requires w < |s.workers|
  {
    s.(workers := s.workers[w := worker])
  }

  /** Insert fails on a known event id; the consumer takes any other error for the same. */
  function StoreIt(s: State, w: nat, m: nat, accepted: bool): State
    requires w < |s.workers| && m < |s.messages|
  {
    if !s.messages[m].known || EventOf(s, m) in s.stored || !accepted then Set(s, w, Acknowledging(m))
    else Set(s, w, Dispatching(m)).(stored := s.stored + [EventOf(s, m)])
  }

  /** One event; an event that is not enabled changes nothing. */
  function Do(s: State, e: Event): State {
    match e
    case Publish(message) => s.(messages := s.messages + [message])
    case Take(w, m) =>
      if w < |s.workers| && s.workers[w] == Idle && m < |s.messages| && m !in s.acked then Set(s, w, Storing(m)) else s
    case Store(w, accepted) =>
      if w < |s.workers| && s.workers[w].Storing? && s.workers[w].m < |s.messages|
      then StoreIt(s, w, s.workers[w].m, accepted) else s
    case Dispatch(w) =>
      if w < |s.workers| && s.workers[w].Dispatching? && s.workers[w].m < |s.messages|
      then Set(s, w, Acknowledging(s.workers[w].m)).(dispatched := s.dispatched + [EventOf(s, s.workers[w].m)]) else s
    case Acknowledge(w, ok) =>
      if w < |s.workers| && s.workers[w].Acknowledging?
      then Set(s, w, Idle).(acked := if ok then s.acked + {s.workers[w].m} else s.acked) else s
    case Crash(w) => if w < |s.workers| then Set(s, w, Idle) else s
  }

  function Run(s: State, es: seq<Event>): State
    decreases |es|
  {
    if es == [] then s else Run(Do(s, es[0]), es[1..])
  }

  ghost predicate Init(s: State) {
    s.acked == {} && s.stored == [] && s.dispatched == [] && forall w :: w in s.workers ==> w == Idle
  }

  ghost predicate Distinct(ids: seq<string>) {
    forall i, j :: 0 <= i < j < |ids| ==> ids[i] != ids[j]
  }

  /** A worker about to dispatch holds an event that is stored and not yet dispatched. */
  ghost predicate AboutToDispatch(s: State, w: nat)
    requires w < |s.workers|
  {
    s.workers[w].Dispatching? ==>
      && s.workers[w].m < |s.messages|
      && EventOf(s, s.workers[w].m) in s.stored && EventOf(s, s.workers[w].m) !in s.dispatched
  }

  ghost predicate SameEvent(s: State, v: nat, w: nat)
    requires v < |s.workers| && w < |s.workers|
  {
    && s.workers[v].Dispatching? && s.workers[w].Dispatching?
    && s.workers[v].m < |s.messages| && s.workers[w].m < |s.messages|
    && EventOf(s, s.workers[v].m) == EventOf(s, s.workers[w].m)
  }

  ghost predicate Inv(s: State) {
    && Distinct(s.stored) && Distinct(s.dispatched)
    && (forall id :: id in s.dispatched ==> id in s.stored)
    && (forall w :: 0 <= w < |s.workers| ==> AboutToDispatch(s, w))
    && (forall v, w :: 0 <= v < w < |s.workers| ==> !SameEvent(s, v, w))
  }

  lemma StoreKeepsInv(s: State, w: nat, m: nat, accepted: bool)
    requires Inv(s) && w < |s.workers| && m < |s.messages|
    ensures Inv(StoreIt(s, w, m, accepted))
  {
    var t := StoreIt(s, w, m, accepted);
    forall v | 0 <= v < |t.workers| ensures AboutToDispatch(t, v) {
      assert AboutToDispatch(s, v);
    }
    forall v, x | 0 <= v < x < |t.workers| ensures !SameEvent(t, v, x) {
      assert AboutToDispatch(s, v) && AboutToDispatch(s, x) && !SameEvent(s, v, x);
    }
  }

  lemma DispatchKeepsInv(s: State, w: nat)
    requires Inv(s)
    ensures Inv(Do(s, Dispatch(w)))
  {
    var t := Do(s, Dispatch(w));
    if t != s {
      assert AboutToDispatch(s, w);
      forall v | 0 <= v < |t.workers| ensures AboutToDispatch(t, v) {
        assert AboutToDispatch(s, v);
        assert v < w ==> !SameEvent(s, v, w);
        assert w < v ==> !SameEvent(s, w, v);
      }
      forall v, x | 0 <= v < x < |t.workers| ensures !SameEvent(t, v, x) {
        assert !SameEvent(s, v, x);
      }
    }
  }

  lemma StepKeepsInv(s: State, e: Event)
    requires Inv(s)
    ensures Inv(Do(s, e))
  {
    var t := Do(s, e);
    match e
    case Store(w, accepted) =>
      if t != s {
        StoreKeepsInv(s, w, s.workers[w].m, accepted);
      }
    case Dispatch(w) => DispatchKeepsInv(s, w);
    case _ =>
      forall v | 0 <= v < |t.workers| ensures AboutToDispatch(t, v) {
        assert AboutToDispatch(s, v);
      }
      forall v, x | 0 <= v < x < |t.workers| ensures !SameEvent(t, v, x) {
        assert AboutToDispatch(s, v) && AboutToDispatch(s, x) && !SameEvent(s, v, x);
      }
  }

  lemma {:induction false} RunKeepsInv(s: State, es: seq<Event>)
    requires Inv(s)
    ensures Inv(Run(s, es))
    decreases |es|
  {
    if es != [] {
      StepKeepsInv(s, es[0]);
      RunKeepsInv(Do(s, es[0]), es[1..]);
    }
  }

  /**
   Over any interleaving of polling, reclaiming and crashes, an event id yields at most one
   notification and at most one dispatch, and nothing is dispatched that is not stored.
   */
  lemma OneNotificationOneDispatch(init: State, es: seq<Event>, i: nat, j: nat)
    requires Init(init) && i < j
    ensures var s := Run(init, es);
      && (j < |s.stored| ==> s.stored[i] != s.stored[j])
      && (j < |s.dispatched| ==> s.dispatched[i] != s.dispatched[j])
      && (i < |s.dispatched| ==> s.dispatched[i] in s.stored)
  {
    InitHasInv(init);
    RunKeepsInv(init, es);
  }

  lemma InitHasInv(s: State)
    requires Init(s)
    ensures Inv(s)
  {
    forall w | 0 <= w < |s.workers| ensures s.workers[w] == Idle {
      assert s.workers[w] in s.workers;
    }
  }

  // ---------------------------------------------------------------------------
  // Acknowledged messages
  // ---------------------------------------------------------------------------

  ghost predicate StoresAccept(es: seq<Event>) {
    forall e :: e in es && e.Store? ==> e.accepted
  }

  ghost predicate Settled(s: State, m: nat) {
    m < |s.messages| && (s.messages[m].known ==> EventOf(s, m) in s.stored)
  }

  /** Every acknowledged message has its notification, if its event type is known. */
  ghost predicate AcknowledgedAreStored(s: State) {
    forall m :: m in s.acked ==> Settled(s, m)
  }

  /** The same for messages that are acknowledged next. */
  ghost predicate SettledInv(s: State) {
    && AcknowledgedAreStored(s)
    && (forall w :: w in s.workers && w.Acknowledging? ==> Settled(s, w.m))
    && (forall w :: w in s.workers && w.Dispatching? ==> Settled(s, w.m))
  }

  /** The store refuses a new event of a known type, and the consumer takes it for a duplicate. */
  predicate Loses(s: State, e: Event) {
    && e.Store? && !e.accepted && e.w < |s.workers| && s.workers[e.w].Storing? && s.workers[e.w].m < |s.messages|
    && s.messages[s.workers[e.w].m].known && EventOf(s, s.workers[e.w].m) !in s.stored
  }

  lemma StepSettles(s: State, e: Event)
    requires SettledInv(s) && !Loses(s, e)
    ensures SettledInv(Do(s, e))
  {
    var t := Do(s, e);
    forall m | Settled(s, m) ensures Settled(t, m) {}
    forall w | w in t.workers && (w.Acknowledging? || w.Dispatching?) ensures Settled(t, w.m) {
      if w in s.workers && (w.Acknowledging? || w.Dispatching?) {
        assert Settled(s, w.m);
      } else if e.Dispatch? {
        assert s.workers[e.w] in s.workers && Settled(s, s.workers[e.w].m);
      }
    }
    forall m | m in t.acked ensures Settled(t, m) {
      if m !in s.acked {
        assert s.workers[e.w] in s.workers && Settled(s, s.workers[e.w].m);
      }
    }
  }

  /** The exact guard: one event unsettles a settled state iff the store refuses a new known event. */
  lemma StepSettlesExactly(s: State, e: Event)
    requires SettledInv(s)
    ensures SettledInv(Do(s, e)) <==> !Loses(s, e)
  {
    if Loses(s, e) {
      var t := Do(s, e);
      assert t.workers[e.w] == Acknowledging(s.workers[e.w].m) && t.workers[e.w] in t.workers;
    } else {
      StepSettles(s, e);
    }
  }

  ghost predicate AlwaysSettled(s: State, es: seq<Event>)
    decreases |es|
  {
    SettledInv(s) && (es == [] || AlwaysSettled(Do(s, es[0]), es[1..]))
  }

  ghost predicate NeverLoses(s: State, es: seq<Event>)
    decreases |es|
  {
    es == [] || (!Loses(s, es[0]) && NeverLoses(Do(s, es[0]), es[1..]))
  }

  lemma {:induction false} RunSettlesExactly(s: State, es: seq<Event>)
    requires SettledInv(s)
    ensures AlwaysSettled(s, es) <==> NeverLoses(s, es)
    decreases |es|
  {
    if es != [] {
      StepSettlesExactly(s, es[0]);
      if !Loses(s, es[0]) {
        RunSettlesExactly(Do(s, es[0]), es[1..]);
      } else {
        NotSettledNow(Do(s, es[0]), es[1..]);
      }
    }
  }

  lemma NotSettledNow(s: State, es: seq<Event>)
    requires !SettledInv(s)
    ensures !AlwaysSettled(s, es)
  {
  }

  /**
   An acknowledged message has its notification, exactly. Every moment of a run is settled iff
   the store never refuses a new event of a known type; refusals of duplicates and of unknown
   types do no harm.
   */
  lemma AcknowledgedIsStoredExactly(init: State, es: seq<Event>)
    requires Init(init)
    ensures AlwaysSettled(init, es) <==> NeverLoses(init, es)
    ensures NeverLoses(init, es) ==> AcknowledgedAreStored(Run(init, es))
  {
    RunSettlesExactly(init, es);
    if NeverLoses(init, es) {
      SettledAtTheEnd(init, es);
    }
  }

  lemma {:induction false} SettledAtTheEnd(s: State, es: seq<Event>)
    requires AlwaysSettled(s, es)
    ensures SettledInv(Run(s, es))
    decreases |es|
  {
    if es != [] {
      SettledAtTheEnd(Do(s, es[0]), es[1..]);
    }
  }

  lemma {:induction false} AcceptingStoresLoseNothing(s: State, es: seq<Event>)
    requires StoresAccept(es)
    ensures NeverLoses(s, es)
    decreases |es|
  {
    if es != [] {
      assert es[0] in es && forall e :: e in es[1..] ==> e in es;
      AcceptingStoresLoseNothing(Do(s, es[0]), es[1..]);
    }
  }

  /**
   What a settled moment is worth: a reachable state is settled iff, as long as the store accepts
   from then on, no message is ever acknowledged without its notification.
   */
  lemma SettledExactlyIfSafe(s: State)
    requires Inv(s)
    ensures SettledInv(s) <==> forall later :: StoresAccept(later) ==> AcknowledgedAreStored(Run(s, later))
  {
    if SettledInv(s) {
      forall later | StoresAccept(later) ensures AcknowledgedAreStored(Run(s, later)) {
        AcceptingStoresLoseNothing(s, later);
        RunSettlesExactly(s, later);
        SettledAtTheEnd(s, later);
      }
    } else if !AcknowledgedAreStored(s) {
      assert StoresAccept([]) && Run(s, []) == s;
    } else {
      var later := UnsettledIsAcknowledged(s);
    }
  }

  lemma UnsettledIsAcknowledged(s: State) returns (later: seq<Event>)
    requires Inv(s) && AcknowledgedAreStored(s) && !SettledInv(s)
    ensures StoresAccept(later) && !AcknowledgedAreStored(Run(s, later))
  {
    forall w | 0 <= w < |s.workers| && s.workers[w].Dispatching? ensures Settled(s, s.workers[w].m) {
      assert AboutToDispatch(s, w);
    }
    var w: nat :| w < |s.workers| && s.workers[w].Acknowledging? && !Settled(s, s.workers[w].m);
    later := [Acknowledge(w, true)];
    var t := Do(s, later[0]);
    assert later[1..] == [] && Run(s, later) == Run(t, []) == t;
    assert s.workers[w].m in t.acked && !Settled(t, s.workers[w].m);
  }

  /** While the store accepts new events, an acknowledged message has its notification. */
  lemma AcknowledgedIsStored(init: State, es: seq<Event>, m: nat)
    requires Init(init) && StoresAccept(es) && m in Run(init, es).acked
    ensures var s := Run(init, es); m < |s.messages| && (s.messages[m].known ==> EventOf(s, m) in s.stored)
  {
    AcceptingStoresLoseNothing(init, es);
    AcknowledgedIsStoredExactly(init, es);
    assert Settled(Run(init, es), m);
  }

  // ---------------------------------------------------------------------------
  // A loss
  // ---------------------------------------------------------------------------

  lemma RunOfThree(s: State, a: Event, b: Event, c: Event)
    ensures Run(s, [a, b, c]) == Do(Do(Do(s, a), b), c)
  {
    assert [a, b, c][1..] == [b, c] && [b, c][1..] == [c] && [c][1..] == [];
    assert Run(Do(s, a), [b, c]) == Run(Do(Do(s, a), b), [c]);
  }

  /** The worker's turn on one message, when nothing fails. */
  function Turn(w: nat, m: nat): seq<Event> {
    [Take(w, m), Store(w, true), Dispatch(w), Acknowledge(w, true)]
  }

  lemma RunOfTurn(s: State, w: nat, m: nat)
    ensures Run(s, Turn(w, m))
         == Do(Do(Do(Do(s, Take(w, m)), Store(w, true)), Dispatch(w)), Acknowledge(w, true))
  {
    var a, b, c, d := Take(w, m), Store(w, true), Dispatch(w), Acknowledge(w, true);
    assert Turn(w, m)[1..] == [b, c, d] && [b, c, d][1..] == [c, d] && [c, d][1..] == [d] && [d][1..] == [];
    assert Run(Do(s, a), [b, c, d]) == Run(Do(Do(s, a), b), [c, d]);
    assert Run(Do(Do(s, a), b), [c, d]) == Run(Do(Do(Do(s, a), b), c), [d]);
  }

  /**
   An undisturbed turn. A message of a known type whose event is new is stored, dispatched and
   acknowledged, by the event id it carries or, if it carries none, by its own; a duplicate
   and a message of an unknown type are only acknowledged.
   */
  lemma QuietTurn(s: State, w: nat, m: nat)
    requires w < |s.workers| && s.workers[w] == Idle && m < |s.messages| && m !in s.acked
    ensures var message := s.messages[m];
      var id := if |message.eventId| > 0 then message.eventId else message.id;
      Run(s, Turn(w, m))
        == if message.known && id !in s.stored
           then s.(acked := s.acked + {m}, stored := s.stored + [id], dispatched := s.dispatched + [id])
           else s.(acked := s.acked + {m})
  {
    RunOfTurn(s, w, m);
    var id := EventOf(s, m);
    var taken := Set(s, w, Storing(m));
    assert Do(s, Take(w, m)) == taken;
    assert taken.workers[w := Acknowledging(m)][w := Idle] == s.workers;
    if s.messages[m].known && id !in s.stored {
      var kept := Set(taken, w, Dispatching(m)).(stored := s.stored + [id]);
      assert Do(taken, Store(w, true)) == kept;
      assert Do(kept, Dispatch(w)) == Set(kept, w, Acknowledging(m)).(dispatched := s.dispatched + [id]);
      assert kept.workers[w := Acknowledging(m)][w := Idle] == s.workers;
    } else {
      assert Do(taken, Store(w, true)) == Set(taken, w, Acknowledging(m));
    }
  }

  /** A message that is published is there to be taken, after those before it. */
  lemma PublishedIsHandled(s: State, message: Message, w: nat)
    requires w < |s.workers| && s.workers[w] == Idle && |s.messages| !in s.acked
    requires message.known && message.eventId != "" && message.eventId !in s.stored
    ensures var t := Run(Do(s, Publish(message)), Turn(w, |s.messages|));
      && t.messages == s.messages + [message] && t.acked == s.acked + {|s.messages|}
      && t.stored == s.stored + [message.eventId] && t.dispatched == s.dispatched + [message.eventId]
  {
    QuietTurn(Do(s, Publish(message)), w, |s.messages|);
  }

  /** A failed acknowledgement and a crash leave the message to be taken again, and the worker free. */
  lemma LeftToBeTakenAgain(s: State, w: nat)
    requires w < |s.workers|
    ensures s.workers[w].Acknowledging? ==> Do(s, Acknowledge(w, false)) == s.(workers := s.workers[w := Idle])
    ensures Do(s, Crash(w)) == s.(workers := s.workers[w := Idle])
  {
  }

  /** With any number of workers, one idle one and one refusal lose the notification of a message. */
  lemma StoreErrorLosesNotification(s: State, w: nat, m: nat)
    requires w < |s.workers| && s.workers[w] == Idle
    requires m < |s.messages| && m !in s.acked && s.messages[m].known && EventOf(s, m) !in s.stored
    ensures var t := Run(s, [Take(w, m), Store(w, false), Acknowledge(w, true)]);
      t == s.(acked := s.acked + {m}) && !AcknowledgedAreStored(t)
  {
    RunOfThree(s, Take(w, m), Store(w, false), Acknowledge(w, true));
    var s1 := Set(s, w, Storing(m));
    assert Do(s, Take(w, m)) == s1;
    var s2 := Set(s1, w, Acknowledging(m));
    assert Do(s1, Store(w, false)) == s2;
    assert Do(s2, Acknowledge(w, true)) == s.(acked := s.acked + {m}) by {
      assert s.workers[w := Storing(m)][w := Acknowledging(m)][w := Idle] == s.workers;
    }
    assert !Settled(s.(acked := s.acked + {m}), m);
  }

  /** Nobody can store the event any more: all its messages are acknowledged and no worker holds one. */
  ghost predicate BeyondRecall(s: State, id: string) {
    && id !in s.stored
    && (forall k :: 0 <= k < |s.messages| && EventOf(s, k) == id ==> k in s.acked)
    && (forall w :: w in s.workers && w.Storing? && w.m < |s.messages| ==> EventOf(s, w.m) != id)
    && (forall w :: w in s.workers && w.Storing? ==> w.m < |s.messages|)
  }

  lemma StepCannotRecall(s: State, e: Event, id: string)
    requires BeyondRecall(s, id) && (e.Publish? ==> EventId(e.message) != id)
    ensures BeyondRecall(Do(s, e), id)
  {
    var t := Do(s, e);
    forall w | w in t.workers && w.Storing? ensures w.m < |t.messages| && EventOf(t, w.m) != id {
      if w in s.workers {
        assert w.m < |s.messages|;
      }
    }
    if e.Store? && t != s {
      assert s.workers[e.w] in s.workers;
    }
  }

  /** After the loss the event is beyond recall if no other message carries it and no other worker holds one. */
  lemma LostEventIsBeyondRecall(s: State, w: nat, m: nat)
    requires w < |s.workers| && s.workers[w] == Idle && m < |s.messages| && EventOf(s, m) !in s.stored
    requires forall k :: 0 <= k < |s.messages| && k != m && EventOf(s, k) == EventOf(s, m) ==> k in s.acked
    requires forall v :: v in s.workers && v.Storing? ==> v.m < |s.messages| && EventOf(s, v.m) != EventOf(s, m)
    ensures BeyondRecall(s.(acked := s.acked + {m}), EventOf(s, m))
  {
    var t := s.(acked := s.acked + {m});
    forall k | 0 <= k < |t.messages| && EventOf(t, k) == EventOf(s, m) ensures k in t.acked {
      assert EventOf(s, k) == EventOf(s, m);
    }
  }

  /** The loss is for good: unless the event is published again, no run ever stores it. */
  lemma {:induction false} LostForGood(s: State, es: seq<Event>, id: string)
    requires BeyondRecall(s, id) && forall e :: e in es && e.Publish? ==> EventId(e.message) != id
    ensures id !in Run(s, es).stored
    decreases |es|
  {
    if es != [] {
      assert es[0] in es && forall e :: e in es[1..] ==> e in es;
      StepCannotRecall(s, es[0], id);
      LostForGood(Do(s, es[0]), es[1..], id);
    }
  }
}
