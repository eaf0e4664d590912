/**
 The whole path from a journey's status to its slots: the journeys table and its outbox,
 the relays and the stream, and the capacity consumers that release rows by journey id.
 */
module Delivery {
  import opened Tables
  import opened Admission
  import DbRuns
  import L = Lifecycle
  import O = OutboxRelay

  const MAX_RETRIES := 3
  const BATCH_SIZE := 10

  /** The stream entries a consumer holds, in order, and the attempt it makes at the first. */
  datatype Consumer = Consumer(inbox: seq<nat>, attempt: nat)

  /** ReleaseByJourneyID may report an error and have run all the same. */
  datatype ReleaseReply = Done | Error(applied: bool)

  datatype State = State(l: L.State, r: O.State, db: DB, delivered: nat, consumers: seq<Consumer>)

  datatype Event =
    | Journeys(le: L.Event)
    | Relays(re: O.Event)
    | Capacity(step: DbRuns.Step)
    | Deliver(c: nat, count: nat)
    | Process(c: nat, reply: ReleaseReply)
    | ConsumerCrash(c: nat)

  const FRESH := Consumer([], 1)

  function Apply(rows: seq<Row>, event: L.OutboxRow, reply: ReleaseReply): seq<Row> {
    if L.Ended(event.event) && reply != Error(false) then Release(rows, OfJourney(event.jid)) else rows
  }

  /** Success, a foreign event or the third failure acknowledges the first entry. */
  function NextEntry(c: Consumer, event: L.OutboxRow, reply: ReleaseReply): Consumer
    requires c.inbox != []
  {
    if !L.Ended(event.event) || reply == Done || c.attempt >= MAX_RETRIES then Consumer(c.inbox[1..], 1)
    else c.(attempt := c.attempt + 1)
  }

  /** The outbox row behind a stream entry. */
  function EventAt(s: State, p: nat): L.OutboxRow
    requires p < |s.r.stream| && s.r.stream[p] < |s.l.outbox|
  {
    s.l.outbox[s.r.stream[p]]
  }

  predicate Readable(s: State, p: nat) {
    p < |s.r.stream| && s.r.stream[p] < |s.l.outbox|
  }

  /** One event; an event that is not enabled changes nothing. */
  function Do(s: State, e: Event): State {
    match e
    case Journeys(le) =>
      var l := L.Do(s.l, le);
      s.(l := l, r := if |l.outbox| > |s.l.outbox| then O.Do(s.r, O.Enqueue) else s.r)
    case Relays(re) => if re == O.Enqueue then s else s.(r := O.Do(s.r, re))
    case Capacity(step) => s.(db := DbRuns.Apply(s.db, step))
    case Deliver(c, count) =>
      if c >= |s.consumers| || s.consumers[c].inbox != [] then s
      else if count > BATCH_SIZE || s.delivered + count > |s.r.stream| then s
      else
        var entries := seq(count, k requires 0 <= k => s.delivered + k);
        s.(delivered := s.delivered + count, consumers := s.consumers[c := Consumer(entries, 1)])
    case Process(c, reply) =>
      if c >= |s.consumers| || s.consumers[c].inbox == [] || !Readable(s, s.consumers[c].inbox[0]) then s
      else
        var event := EventAt(s, s.consumers[c].inbox[0]);
        s.(db := s.db.(rows := Apply(s.db.rows, event, reply)),
           consumers := s.consumers[c := NextEntry(s.consumers[c], event, reply)])
    case ConsumerCrash(c) => if c >= |s.consumers| then s else s.(consumers := s.consumers[c := FRESH])
  }

  function Run(s: State, es: seq<Event>): State
    decreases |es|
  {
    if es == [] then s else Run(Do(s, es[0]), es[1..])
  }

  ghost predicate Init(s: State) {
    && L.Init(s.l) && O.Init(s.r) && s.r.size == 0 && s.delivered == 0
    && forall c :: c in s.consumers ==> c == FRESH
  }

  ghost predicate Inv(s: State) {
    L.Inv(s.l) && O.Inv(s.r) && s.r.size == |s.l.outbox|
  }

  lemma OutboxGrowsByOne(l: L.State, e: L.Event)
    ensures var after := L.Do(l, e).outbox; l.outbox <= after && |after| <= |l.outbox| + 1
  {
  }

  lemma RelayKeepsSize(r: O.State, e: O.Event)
    requires e != O.Enqueue
    ensures O.Do(r, e).size == r.size && r.stream <= O.Do(r, e).stream
  {
  }

  lemma StepKeepsInv(s: State, e: Event)
    requires Inv(s)
    ensures Inv(Do(s, e))
  {
    match e
    case Journeys(le) =>
      L.StepKeepsInv(s.l, le);
      O.StepKeepsInv(s.r, O.Enqueue);
      OutboxGrowsByOne(s.l, le);
    case Relays(re) =>
      if re != O.Enqueue {
        O.StepKeepsInv(s.r, re);
        RelayKeepsSize(s.r, re);
      }
    case _ =>
  }

  lemma {:induction false} RunKeepsInv(s: State, es: seq<Event>)
    requires Inv(s)
    ensures Inv(Run(s, es))
    decreases |es|
  {
    if es != [] {
      StepKeepsInv(s, es[0]);
      RunKeepsInv(Do(s, es[0]), es[1..]);
    }
  }

  lemma InitHasInv(s: State)
    requires Init(s)
    ensures Inv(s)
  {
    forall jid ensures L.EventsOf(s.l.outbox, jid) == L.HistoryOf(s.l, jid) {}
  }

  /** A journey that has ended by the committed row, whatever any replica still shows. */
  ghost predicate HasEnded(s: State, jid: string) {
    jid in s.l.journeys && var h := s.l.journeys[jid].history; h != [] && L.Ended(h[|h| - 1])
  }

  /** A consumer changes a row only if it is an active row of a journey that has ended. */
  lemma ProcessReleasesEndedOnly(s: State, c: nat, reply: ReleaseReply, i: nat)
    requires Inv(s) && i < |s.db.rows|
    ensures var after := Do(s, Process(c, reply)).db.rows;
      && |after| == |s.db.rows|
      && (after[i] == s.db.rows[i] || (after[i] == s.db.rows[i].(status := Released) && HasEnded(s, s.db.rows[i].jid)))
  {
    if c < |s.consumers| && s.consumers[c].inbox != [] && Readable(s, s.consumers[c].inbox[0]) {
      var event := EventAt(s, s.consumers[c].inbox[0]);
      if L.Ended(event.event) {
        L.ReleaseEventMeansEnded(s.l, s.r.stream[s.consumers[c].inbox[0]]);
      }
    }
  }

  /**
   No release of a live journey, step by step: in every run, whatever is stale, lost,
   duplicated or repeated, the rows that a consumer releases belong to journeys whose
   committed status is CANCELLED, COMPLETED or EXPIRED.
   */
  lemma NoReleaseOfLiveJourney(init: State, es: seq<Event>, c: nat, reply: ReleaseReply)
    requires Init(init)
    ensures var s := Run(init, es);
      var after := Do(s, Process(c, reply)).db.rows;
      && |after| == |s.db.rows|
      && forall i :: 0 <= i < |after| && after[i] != s.db.rows[i] ==> HasEnded(s, s.db.rows[i].jid)
  {
    InitHasInv(init);
    RunKeepsInv(init, es);
    var s := Run(init, es);
    var after := Do(s, Process(c, reply)).db.rows;
    forall i | 0 <= i < |s.db.rows|
      ensures i < |after| && (after[i] != s.db.rows[i] ==> HasEnded(s, s.db.rows[i].jid))
    {
      ProcessReleasesEndedOnly(s, c, reply, i);
    }
    assert |after| == |s.db.rows|;
  }

  lemma HistoryStep(s: State, e: Event, jid: string)
    requires Inv(s) && HasEnded(s, jid)
    ensures HasEnded(Do(s, e), jid)
  {
    if e.Journeys? {
      L.StepKeepsInv(s.l, e.le);
      L.EndedIsForever(s.l, [e.le], jid);
      assert L.Run(s.l, [e.le]) == L.Run(L.Do(s.l, e.le), [e.le][1..]) == L.Do(s.l, e.le);
    }
  }

  /** Steps of the capacity service itself leave the row alone. */
  ghost predicate OthersSpare(s: State, es: seq<Event>, i: nat)
    decreases |es|
  {
    es == [] || (
      && (es[0].Capacity? && es[0].step.ReleaseWhere? && i < |s.db.rows| ==> !Matches(es[0].step.f, s.db.rows[i]))
      && OthersSpare(Do(s, es[0]), es[1..], i))
  }

  lemma StepKeepsRow(s: State, e: Event, i: nat)
    requires Inv(s) && i < |s.db.rows|
    requires e.Capacity? && e.step.ReleaseWhere? ==> !Matches(e.step.f, s.db.rows[i])
    ensures i < |Do(s, e).db.rows|
    ensures Do(s, e).db.rows[i] == s.db.rows[i]
         || (HasEnded(s, s.db.rows[i].jid) && Do(s, e).db.rows[i] == s.db.rows[i].(status := Released))
  {
    match e
    case Process(c, reply) => ProcessReleasesEndedOnly(s, c, reply, i);
    case _ =>
  }

  lemma {:induction false} EndedStaysEnded(s: State, es: seq<Event>, jid: string)
    requires Inv(s) && HasEnded(s, jid)
    ensures HasEnded(Run(s, es), jid)
    decreases |es|
  {
    if es != [] {
      HistoryStep(s, es[0], jid);
      StepKeepsInv(s, es[0]);
      EndedStaysEnded(Do(s, es[0]), es[1..], jid);
    }
  }

  /**
   No release of a live journey, over whole runs: a row that the capacity service itself
   spares is the same at the end of any run at which its journey has not ended.
   */
  lemma {:induction false} LiveJourneyKeepsItsSlots(s: State, es: seq<Event>, i: nat)
    requires Inv(s) && i < |s.db.rows| && OthersSpare(s, es, i)
    ensures i < |Run(s, es).db.rows|
    ensures !HasEnded(Run(s, es), s.db.rows[i].jid) ==> Run(s, es).db.rows[i] == s.db.rows[i]
    decreases |es|
  {
    if es != [] {
      var jid := s.db.rows[i].jid;
      StepKeepsInv(s, es[0]);
      StepKeepsRow(s, es[0], i);
      LiveJourneyKeepsItsSlots(Do(s, es[0]), es[1..], i);
      if HasEnded(s, jid) {
        EndedStaysEnded(s, es, jid);
      }
    }
  }

  // ---------------------------------------------------------------------------
  // Who reads which entry
  // ---------------------------------------------------------------------------

  ghost predicate HeldInOrder(inbox: seq<nat>, delivered: nat) {
    && (forall k :: k in inbox ==> k < delivered)
    && forall i, j :: 0 <= i < j < |inbox| ==> inbox[i] < inbox[j]
  }

  ghost predicate Apart(a: seq<nat>, b: seq<nat>) {
    forall k :: k in a ==> k !in b
  }

  /** The entries that consumers hold have been handed out, each to one of them, in stream order. */
  ghost predicate InboxesInv(consumers: seq<Consumer>, delivered: nat) {
    && (forall c :: 0 <= c < |consumers| ==> HeldInOrder(consumers[c].inbox, delivered))
    && (forall c, d :: 0 <= c < d < |consumers| ==> Apart(consumers[c].inbox, consumers[d].inbox))
  }

  lemma UpdateKeepsInboxes(consumers: seq<Consumer>, delivered: nat, after: nat, c: nat, next: Consumer)
    requires InboxesInv(consumers, delivered) && delivered <= after && c < |consumers|
    requires HeldInOrder(next.inbox, after)
    requires forall k :: k in next.inbox ==> k in consumers[c].inbox || k >= delivered
    ensures InboxesInv(consumers[c := next], after)
  {
    var t := consumers[c := next];
    forall d | 0 <= d < |t| ensures HeldInOrder(t[d].inbox, after) {
      assert HeldInOrder(consumers[d].inbox, delivered);
    }
    forall d, e | 0 <= d < e < |t| ensures Apart(t[d].inbox, t[e].inbox) {
      assert Apart(consumers[d].inbox, consumers[e].inbox);
      assert HeldInOrder(consumers[d].inbox, delivered) && HeldInOrder(consumers[e].inbox, delivered);
    }
  }

  lemma StepKeepsInboxes(s: State, e: Event)
    requires InboxesInv(s.consumers, s.delivered)
    ensures InboxesInv(Do(s, e).consumers, Do(s, e).delivered)
  {
    match e
    case Journeys(le) =>
    case Relays(re) =>
    case Capacity(step) =>
    case Deliver(c, count) =>
      if c < |s.consumers| {
        var entries := seq(count, k requires 0 <= k < count => s.delivered + k);
        UpdateKeepsInboxes(s.consumers, s.delivered, s.delivered + count, c, Consumer(entries, 1));
        assert Do(s, e) != s ==> Do(s, e).consumers[c].inbox == entries;
      }
    case Process(c, reply) =>
      if c < |s.consumers| && s.consumers[c].inbox != [] {
        var inbox := s.consumers[c].inbox;
        assert HeldInOrder(inbox, s.delivered);
        assert forall k :: k in inbox[1..] ==> k in inbox;
        UpdateKeepsInboxes(s.consumers, s.delivered, s.delivered, c, Consumer(inbox[1..], 1));
        UpdateKeepsInboxes(s.consumers, s.delivered, s.delivered, c,
          s.consumers[c].(attempt := s.consumers[c].attempt + 1));
      }
    case ConsumerCrash(c) =>
      if c < |s.consumers| {
        UpdateKeepsInboxes(s.consumers, s.delivered, s.delivered, c, FRESH);
      }
  }

  /** In every run no stream entry is in the hands of two consumers, or twice in the hands of one. */
  lemma {:induction false} RunKeepsInboxes(s: State, es: seq<Event>)
    requires InboxesInv(s.consumers, s.delivered)
    ensures InboxesInv(Run(s, es).consumers, Run(s, es).delivered)
    decreases |es|
  {
    if es != [] {
      StepKeepsInboxes(s, es[0]);
      RunKeepsInboxes(Do(s, es[0]), es[1..]);
    }
  }

  /**
   A consumer that holds nothing reads the next entries, ten at most and no more than there are; one that is
   busy reads none, and one that crashes forgets what it holds.
   */
  lemma DeliverExactly(s: State, c: nat, count: nat)
    requires c < |s.consumers|
    ensures var t := Do(s, Deliver(c, count));
      if s.consumers[c].inbox == [] && count <= 10 && s.delivered + count <= |s.r.stream| then
        && t.delivered == s.delivered + count
        && t.consumers[c].inbox == seq(count, k requires 0 <= k => s.delivered + k) && t.consumers[c].attempt == 1
      else t == s
    ensures Do(s, ConsumerCrash(c)) == s.(consumers := s.consumers[c := Consumer([], 1)])
  {
  }

  /** An entry whose releases fail is tried three times; then the consumer gives it up and goes on to the next. */
  lemma GivesUpAfterThree(s: State, c: nat, jid: string)
    requires HoldsReleaseOf(s, c, jid) && s.consumers[c].attempt == 1
    ensures var fails, inbox := Process(c, Error(false)), s.consumers[c].inbox;
      && Run(s, [fails]) == s.(consumers := s.consumers[c := Consumer(inbox, 2)])
      && Run(s, [fails, fails]) == s.(consumers := s.consumers[c := Consumer(inbox, 3)])
      && Run(s, [fails, fails, fails]) == s.(consumers := s.consumers[c := Consumer(inbox[1..], 1)])
  {
    var fails, inbox := Process(c, Error(false)), s.consumers[c].inbox;
    var second := s.(consumers := s.consumers[c := Consumer(inbox, 2)]);
    var third := s.(consumers := s.consumers[c := Consumer(inbox, 3)]);
    RunOfOneMore(s, [], fails);
    RunOfTwo(s, fails, fails);
    RunOfThree(s, fails, fails, fails);
    assert [] + [fails] == [fails];
    assert Do(s, fails) == second;
    assert Do(second, fails) == third;
  }

  /** A run is its events one after another. */
  lemma {:induction false} RunOfOneMore(s: State, es: seq<Event>, e: Event)
    ensures Run(s, []) == s && Run(s, es + [e]) == Do(Run(s, es), e)
    decreases |es|
  {
    if es == [] {
      assert es + [e] == [e];
    } else {
      assert (es + [e])[1..] == es[1..] + [e];
      RunOfOneMore(Do(s, es[0]), es[1..], e);
    }
  }

  // ---------------------------------------------------------------------------
  // From the end of a journey to its slots
  // ---------------------------------------------------------------------------

  /** All events are published and read, and a relay and a consumer are free. */
  ghost predicate Caught(s: State, i: nat, c: nat) {
    && (forall k: nat :: k in s.r.published <==> k < s.r.size)
    && s.delivered == |s.r.stream| && s.l.pending == []
    && i < |s.r.relays| && s.r.relays[i] == O.Relay(O.Idle, [], 0)
    && c < |s.consumers| && s.consumers[c] == Consumer([], 1)
  }

  /** An operation reads and writes, its event is relayed and read, and the slots are released. */
  function EndOfJourney(kind: L.Kind, jid: string, version: nat, caller: string, i: nat, c: nat): seq<Event> {
    [Journeys(L.Read(kind, jid, version, caller)), Journeys(L.Write(0, true))]
    + [Relays(O.Fetch(i)), Relays(O.Add(i, O.Acknowledged)), Relays(O.Mark(i, true))]
    + [Deliver(c, 1), Process(c, Done)]
  }

  /** The journey part: the new status and its event, the last of the outbox. */
  lemma JourneyEnds(s: State, kind: L.Kind, jid: string, caller: string, after: L.Status)
    requires Inv(s) && s.l.pending == [] && jid in s.l.journeys
    requires L.PermittedOn(s.l.limits, kind, s.l.journeys[jid], |s.l.journeys[jid].history|, caller, s.l.now, after)
    ensures var v := |s.l.journeys[jid].history|;
      Run(s, [Journeys(L.Read(kind, jid, v, caller)), Journeys(L.Write(0, true))])
        == s.(l := L.Moved(s.l, jid, after), r := s.r.(size := s.r.size + 1))
  {
    var v := |s.l.journeys[jid].history|;
    L.AdmitsMeansPermitted(s.l.limits, kind, s.l.journeys[jid], v, caller, s.l.now, after);
    var op := L.Operation(kind, jid, v);
    var waiting := s.(l := s.l.(pending := [op]));
    assert Do(s, Journeys(L.Read(kind, jid, v, caller))) == waiting;
    assert waiting.l.pending[..0] + waiting.l.pending[1..] == [];
    assert L.Do(waiting.l, L.Write(0, true)) == L.Moved(s.l, jid, after);
    RunOfTwo(s, Journeys(L.Read(kind, jid, v, caller)), Journeys(L.Write(0, true)));
  }

  lemma OnlyTheNewRow(size: nat, published: set<nat>)
    requires forall k: nat :: k in published <==> k < size
    ensures O.FetchUnpublishedOutbox(size + 1, published, O.BATCH_LIMIT) == [size]
  {
    var rows := O.Unpublished(size + 1, published);
    assert forall k: nat :: k in rows <==> k == size;
    assert rows[0] in rows && rows[|rows| - 1] in rows;
    assert rows == [size];
  }

  /** The relay part: the new row is fetched, appended and marked. */
  lemma NewRowIsRelayed(s: State, i: nat, size: nat)
    requires s.r.size == size + 1 && (forall k: nat :: k in s.r.published <==> k < size)
    requires i < |s.r.relays| && s.r.relays[i] == O.Relay(O.Idle, [], 0)
    ensures Run(s, [Relays(O.Fetch(i)), Relays(O.Add(i, O.Acknowledged)), Relays(O.Mark(i, true))])
         == s.(r := s.r.(stream := s.r.stream + [size], published := s.r.published + {size}))
  {
    OnlyTheNewRow(size, s.r.published);
    var fetched := s.(r := s.r.(relays := s.r.relays[i := O.Relay(O.Adding, [size], 0)]));
    assert Do(s, Relays(O.Fetch(i))) == fetched;
    var added := s.(r := s.r.(stream := s.r.stream + [size], relays := s.r.relays[i := O.Relay(O.Marking, [size], 1)]));
    assert Do(fetched, Relays(O.Add(i, O.Acknowledged))) == added;
    assert O.SetOf([size][..1]) == {size};
    assert s.r.relays[i := O.Relay(O.Idle, [], 0)] == s.r.relays;
    RunOfThree(s, Relays(O.Fetch(i)), Relays(O.Add(i, O.Acknowledged)), Relays(O.Mark(i, true)));
  }

  /** The consumer part: the entry of the event is read and processed. */
  lemma NewEntryIsProcessed(s: State, c: nat, event: L.OutboxRow)
    requires c < |s.consumers| && s.consumers[c] == Consumer([], 1) && |s.r.stream| == s.delivered + 1
    requires Readable(s, s.delivered) && EventAt(s, s.delivered) == event
    requires event.event == L.Cancelled || event.event == L.Completed || event.event == L.Expired
    ensures Run(s, [Deliver(c, 1), Process(c, Done)])
         == s.(delivered := s.delivered + 1, db := s.db.(rows := Release(s.db.rows, OfJourney(event.jid))))
    ensures NoneActive(Release(s.db.rows, OfJourney(event.jid)), |s.db.rows|, event.jid)
  {
    RunOfTwo(s, Deliver(c, 1), Process(c, Done));
    var read := s.(delivered := s.delivered + 1, consumers := s.consumers[c := Consumer([s.delivered], 1)]);
    assert seq(1, k requires 0 <= k => s.delivered + k) == [s.delivered];
    assert Do(s, Deliver(c, 1)) == read;
    assert read.consumers[c := Consumer([], 1)] == s.consumers;
  }

  /** The state in which the end of a journey leaves everything. */
  function AfterEnd(s: State, jid: string, after: L.Status): State
    requires jid in s.l.journeys
  {
    var r := s.r.(size := s.r.size + 1, stream := s.r.stream + [s.r.size], published := s.r.published + {s.r.size});
    State(L.Moved(s.l, jid, after), r, s.db.(rows := Release(s.db.rows, OfJourney(jid))), s.delivered + 1, s.consumers)
  }

  lemma EventIsRelayedAndProcessed(s: State, jid: string, after: L.Status, i: nat, c: nat)
    requires Caught(s, i, c) && jid in s.l.journeys && s.r.size == |s.l.outbox|
    requires after == L.Cancelled || after == L.Completed || after == L.Expired
    ensures var ended := s.(l := L.Moved(s.l, jid, after), r := s.r.(size := s.r.size + 1));
      Run(ended, [Relays(O.Fetch(i)), Relays(O.Add(i, O.Acknowledged)), Relays(O.Mark(i, true))]
                 + [Deliver(c, 1), Process(c, Done)]) == AfterEnd(s, jid, after)
  {
    var ended := s.(l := L.Moved(s.l, jid, after), r := s.r.(size := s.r.size + 1));
    RunOfConcat(ended, [Relays(O.Fetch(i)), Relays(O.Add(i, O.Acknowledged)), Relays(O.Mark(i, true))],
      [Deliver(c, 1), Process(c, Done)]);
    NewRowIsRelayed(ended, i, s.r.size);
    var relayed := ended.(r := ended.r.(stream := s.r.stream + [s.r.size], published := s.r.published + {s.r.size}));
    NewEntryIsProcessed(relayed, c, L.OutboxRow(jid, after));
  }

  lemma AllIsFreeAgain(s: State, jid: string, after: L.Status, i: nat, c: nat)
    requires Caught(s, i, c) && jid in s.l.journeys
    ensures var t := AfterEnd(s, jid, after);
      NoneActive(t.db.rows, |t.db.rows|, jid) && Caught(t, i, c)
  {
  }

  /**
   From end to end: when nothing fails, the end of a journey, whichever way the design permits it, frees all its
   slots, by its event through the outbox, a relay, the stream and a consumer; all are free again after.
   */
  lemma QuietEndFreesSlots(s: State, kind: L.Kind, jid: string, caller: string, after: L.Status, i: nat, c: nat)
    requires Inv(s) && Caught(s, i, c) && jid in s.l.journeys
    requires L.PermittedOn(s.l.limits, kind, s.l.journeys[jid], |s.l.journeys[jid].history|, caller, s.l.now, after)
    requires after == L.Cancelled || after == L.Completed || after == L.Expired
    ensures var t := Run(s, EndOfJourney(kind, jid, |s.l.journeys[jid].history|, caller, i, c));
      && t == AfterEnd(s, jid, after)
      && NoneActive(t.db.rows, |t.db.rows|, jid) && Caught(t, i, c)
  {
    var v := |s.l.journeys[jid].history|;
    var first := [Journeys(L.Read(kind, jid, v, caller)), Journeys(L.Write(0, true))];
    var second := [Relays(O.Fetch(i)), Relays(O.Add(i, O.Acknowledged)), Relays(O.Mark(i, true))];
    var third := [Deliver(c, 1), Process(c, Done)];
    JourneyEnds(s, kind, jid, caller, after);
    RunOfConcat(s, first, second + third);
    EventIsRelayedAndProcessed(s, jid, after, i, c);
    assert EndOfJourney(kind, jid, v, caller, i, c) == first + (second + third);
    AllIsFreeAgain(s, jid, after, i, c);
  }

  lemma RunOfTwo(s: State, a: Event, b: Event)
    ensures Run(s, [a, b]) == Do(Do(s, a), b)
  {
    RunOfOneMore(s, [], a);
    RunOfOneMore(s, [a], b);
    assert [] + [a] == [a] && [a] + [b] == [a, b];
  }

  lemma RunOfThree(s: State, a: Event, b: Event, c: Event)
    ensures Run(s, [a, b, c]) == Do(Do(Do(s, a), b), c)
  {
    RunOfTwo(s, a, b);
    RunOfOneMore(s, [a, b], c);
    assert [a, b] + [c] == [a, b, c];
  }

  lemma {:induction false} RunOfConcat(s: State, a: seq<Event>, b: seq<Event>)
    ensures Run(s, a + b) == Run(Run(s, a), b)
    decreases |b|
  {
    if b == [] {
      assert a + b == a;
    } else {
      var init, last := b[..|b| - 1], b[|b| - 1];
      RunOfConcat(s, a, init);
      RunOfOneMore(s, a + init, last);
      RunOfOneMore(Run(s, a), init, last);
      assert a + b == (a + init) + [last] && b == init + [last];
    }
  }

  // ---------------------------------------------------------------------------
  // Duplicates
  // ---------------------------------------------------------------------------

  /** The consumer is about to process an event of the journey. */
  predicate HoldsEventOf(s: State, c: nat, jid: string) {
    && c < |s.consumers| && s.consumers[c].inbox != [] && Readable(s, s.consumers[c].inbox[0])
    && EventAt(s, s.consumers[c].inbox[0]).jid == jid
  }

  predicate HoldsReleaseOf(s: State, c: nat, jid: string) {
    HoldsEventOf(s, c, jid) && L.Ended(EventAt(s, s.consumers[c].inbox[0]).event)
  }

  predicate InsertsUnder(e: Event, jid: string) {
    e.Capacity? && e.step.ReserveTx? && e.step.jid == jid
  }

  /** Among the first n rows none of the journey is active. */
  ghost predicate NoneActive(rows: seq<Row>, n: nat, jid: string) {
    n <= |rows| && forall i :: 0 <= i < n && rows[i].jid == jid ==> rows[i].status == Released
  }

  lemma SuccessReleasesAll(s: State, c: nat, jid: string)
    requires HoldsReleaseOf(s, c, jid)
    ensures NoneActive(Do(s, Process(c, Done)).db.rows, |s.db.rows|, jid)
  {
  }

  /** A processed event frees all rows of its journey iff it tells of a cancelled, completed or expired one. */
  lemma EndEventsFreeExactly(s: State, c: nat, jid: string)
    requires HoldsEventOf(s, c, jid)
    ensures var status, after := EventAt(s, s.consumers[c].inbox[0]).event, Do(s, Process(c, Done)).db;
      if status == L.Cancelled || status == L.Completed || status == L.Expired
      then NoneActive(after.rows, |after.rows|, jid) else after == s.db
  {
  }

  lemma ReleaseKeepsNoneActive(rows: seq<Row>, f: Filter, n: nat, jid: string)
    requires NoneActive(rows, n, jid)
    ensures NoneActive(Release(rows, f), n, jid)
  {
  }

  /** No event makes an old row active, and only a reservation of the journey adds an active one. */
  lemma StepKeepsNoneActive(s: State, e: Event, n: nat, jid: string)
    requires NoneActive(s.db.rows, n, jid)
    ensures NoneActive(Do(s, e).db.rows, n, jid)
    ensures n == |s.db.rows| && !InsertsUnder(e, jid) ==> NoneActive(Do(s, e).db.rows, |Do(s, e).db.rows|, jid)
  {
    match e
    case Capacity(step) =>
      if step.ReleaseWhere? {
        ReleaseKeepsNoneActive(s.db.rows, step.f, n, jid);
      }
    case Process(c, reply) =>
      if c < |s.consumers| && s.consumers[c].inbox != [] && Readable(s, s.consumers[c].inbox[0]) {
        ReleaseKeepsNoneActive(s.db.rows, OfJourney(EventAt(s, s.consumers[c].inbox[0]).jid), n, jid);
      }
    case _ =>
  }

  lemma {:induction false} RunKeepsNoneActive(s: State, es: seq<Event>, n: nat, jid: string)
    requires NoneActive(s.db.rows, n, jid)
    ensures NoneActive(Run(s, es).db.rows, n, jid)
    ensures n == |s.db.rows| && (forall e :: e in es ==> !InsertsUnder(e, jid))
        ==> NoneActive(Run(s, es).db.rows, |Run(s, es).db.rows|, jid)
    decreases |es|
  {
    if es != [] {
      StepKeepsNoneActive(s, es[0], n, jid);
      var next := Do(s, es[0]);
      RunKeepsNoneActive(next, es[1..], n, jid);
      if n == |s.db.rows| && forall e :: e in es ==> !InsertsUnder(e, jid) {
        assert es[0] in es && forall e :: e in es[1..] ==> e in es;
        RunKeepsNoneActive(next, es[1..], |next.db.rows|, jid);
      }
    }
  }

  lemma ReleasedRowsStay(s: State, d: nat, reply: ReleaseReply, n: nat, jid: string)
    requires HoldsEventOf(s, d, jid) && NoneActive(s.db.rows, n, jid)
    ensures var after := Do(s, Process(d, reply)).db.rows; |after| == |s.db.rows| && after[..n] == s.db.rows[..n]
  {
    forall i | 0 <= i < n ensures ReleaseRow(OfJourney(jid), s.db.rows[i]) == s.db.rows[i] {
    }
  }

  /**
   Duplicates change nothing, over whole runs: after one success with an event that ends a
   journey, whatever happens next, any consumer that processes an event of that journey
   leaves all rows of that time as they are; and if no later reservation is made for the
   journey, it changes nothing in the tables at all.
   */
  lemma DuplicateChangesNothing(s: State, c: nat, es: seq<Event>, d: nat, reply: ReleaseReply, jid: string)
    requires HoldsReleaseOf(s, c, jid) && HoldsEventOf(Run(Do(s, Process(c, Done)), es), d, jid)
    ensures var t := Run(Do(s, Process(c, Done)), es);
      var after := Do(t, Process(d, reply)).db;
      && |s.db.rows| <= |t.db.rows| == |after.rows|
      && after.rows[..|s.db.rows|] == t.db.rows[..|s.db.rows|]
      && ((forall e :: e in es ==> !InsertsUnder(e, jid)) ==> after == t.db)
  {
    var once := Do(s, Process(c, Done));
    var t := Run(once, es);
    SuccessReleasesAll(s, c, jid);
    RunKeepsNoneActive(once, es, |s.db.rows|, jid);
    ReleasedRowsStay(t, d, reply, |s.db.rows|, jid);
    if forall e :: e in es ==> !InsertsUnder(e, jid) {
      ReleasedRowsStay(t, d, reply, |t.db.rows|, jid);
      var after := Do(t, Process(d, reply)).db;
      assert after.rows[..|t.db.rows|] == after.rows && t.db.rows[..|t.db.rows|] == t.db.rows;
    }
  }

  /** The condition is needed: a reservation that is made for the journey later is released by a further copy. */
  lemma LaterReservationIsReleased(
    s: State, d: nat, jid: string, rid: string, w: Window, vehicle: VehicleType, p: Priority)
    requires HoldsReleaseOf(s, d, jid) && CheckWindow(s.db, w, SlotsNeeded(vehicle), p).None?
    ensures var t := Do(s, Capacity(DbRuns.ReserveTx(rid, jid, [w], vehicle, p)));
      var after, n := Do(t, Process(d, Done)).db.rows, |s.db.rows|;
      && |t.db.rows| == |after| == n + 1
      && t.db.rows[n] == Row(rid, jid, w, SlotsNeeded(vehicle), p, Active)
      && after[n] == Row(rid, jid, w, SlotsNeeded(vehicle), p, Released)
  {
    assert FirstFailure(s.db, [w], SlotsNeeded(vehicle), p).None?;
  }

  /** The capacity service's side of the stream. */
  class CapacityConsumer {
    var rows: seq<Row>

    constructor (rows: seq<Row>)
      ensures this.rows == rows
    {
      this.rows := rows;
    }

    /**
     processWithRetry: up to three attempts, and an acknowledgement in any case. The rows of
     the journey are released exactly when one of the attempts got through.
     */
    method ProcessWithRetry(event: L.OutboxRow, replies: nat -> ReleaseReply) returns (attempts: nat)
      modifies this
      ensures 1 <= attempts <= 3
      ensures var ends := event.event == L.Cancelled || event.event == L.Completed || event.event == L.Expired;
        && (!ends ==> attempts == 1)
        && (ends ==> forall k :: 0 <= k < attempts - 1 ==> replies(k) != Done)
        && (ends && attempts < 3 ==> replies(attempts - 1) == Done)
        && rows == if ends && (exists k :: 0 <= k < attempts && replies(k) != Error(false))
                      then Release(old(rows), OfJourney(event.jid)) else old(rows)
    {
      ghost var f := OfJourney(event.jid);
      attempts := 0;
      while attempts < MAX_RETRIES
        invariant attempts <= MAX_RETRIES
        invariant attempts > 0 ==> L.Ended(event.event)
        invariant forall k :: 0 <= k < attempts ==> replies(k) != Done
        invariant rows == if exists k :: 0 <= k < attempts && replies(k) != Error(false)
                          then Release(old(rows), f) else old(rows)
      {
        var reply := replies(attempts);
        ghost var before := rows;
        rows := Apply(rows, event, reply);
        ReleasesAreIdempotentAndCommute(old(rows), f, f);
        attempts := attempts + 1;
        assert reply != Error(false) ==> replies(attempts - 1) != Error(false);
        if !L.Ended(event.event) || reply == Done {
          return;
        }
      }
    }
  }
}
