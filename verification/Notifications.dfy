/**
 Notifications: the store that drops duplicate events, the dispatch of one notification to
 the driver's devices, and consumers that poll, crash and reclaim each other's messages.
 */
module Notifications {
  import opened Collections

  datatype Delivery = Pending | Retrying | Sent | Failed | Skipped

  datatype Notification = Notification(
    id: string, eventId: string, driver: string, read: bool, delivery: Delivery, retries: nat)

  datatype DeviceToken = DeviceToken(id: string, driver: string, active: bool, reason: string)

  /** The outcome of one FCM send. */
  datatype SendResult = Delivered | Permanent(code: string) | Transient

  const MAX_DELIVERY_ATTEMPTS := 3

  /** What FCM answers to each attempt for each device token. */
  type Fcm = (string, nat) -> SendResult

  /**
   Which database calls of one dispatch get through: the load of the devices, the write of
   RETRYING after an attempt at a device, the write of the final status, and deactivations.
   */
  datatype Database = Database(
    load: bool, retrying: (string, nat) -> bool, final: bool, deactivate: string -> bool)

  // ---------------------------------------------------------------------------
  // One dispatch
  // ---------------------------------------------------------------------------

  /** Attempts go on while the answer is a transient error, up to the limit. */
  function AttemptsFrom(fcm: Fcm, id: string, attempt: nat): (last: nat)
    requires 1 <= attempt <= MAX_DELIVERY_ATTEMPTS
    ensures attempt <= last <= MAX_DELIVERY_ATTEMPTS
    ensures forall k :: attempt <= k < last ==> fcm(id, k) == Transient
    ensures last < MAX_DELIVERY_ATTEMPTS ==> fcm(id, last) != Transient
    decreases MAX_DELIVERY_ATTEMPTS - attempt
  {
    if fcm(id, attempt) != Transient || attempt == MAX_DELIVERY_ATTEMPTS then attempt
    else AttemptsFrom(fcm, id, attempt + 1)
  }

  function Outcome(fcm: Fcm, id: string): SendResult { fcm(id, AttemptsFrom(fcm, id, 1)) }

  /** The retry count reported: the limit itself when every attempt failed in passing. */
  function Retries(fcm: Fcm, id: string): nat {
    if Outcome(fcm, id) == Transient then MAX_DELIVERY_ATTEMPTS else AttemptsFrom(fcm, id, 1) - 1
  }

  /** How many of the first n attempts are answered with a transient error. */
  function TransientAnswers(fcm: Fcm, id: string, n: nat): nat {
    if n == 0 then 0 else TransientAnswers(fcm, id, n - 1) + if fcm(id, n) == Transient then 1 else 0
  }

  /** The retry count is the number of sends that failed in passing. */
  lemma RetriesAreTransientAnswers(fcm: Fcm, id: string)
    ensures Retries(fcm, id) == TransientAnswers(fcm, id, AttemptsFrom(fcm, id, 1))
  {
    AllTransientBefore(fcm, id, AttemptsFrom(fcm, id, 1) - 1);
  }

  lemma {:induction false} AllTransientBefore(fcm: Fcm, id: string, n: nat)
    requires forall k :: 1 <= k <= n ==> fcm(id, k) == Transient
    ensures TransientAnswers(fcm, id, n) == n
  {
    if n > 0 {
      AllTransientBefore(fcm, id, n - 1);
    }
  }

  function ActiveOf(tokens: seq<DeviceToken>, driver: string): (found: seq<DeviceToken>)
    ensures forall t :: t in found <==> t in tokens && t.driver == driver && t.active
  {
    if tokens == [] then []
    else
      var n := |tokens| - 1;
      ActiveOf(tokens[..n], driver) + if tokens[n].driver == driver && tokens[n].active then [tokens[n]] else []
  }

  ghost predicate DistinctIds(tokens: seq<DeviceToken>) {
    forall i, j :: 0 <= i < j < |tokens| ==> tokens[i].id != tokens[j].id
  }

  /** A device token after a dispatch to a driver: only a permanent error changes it. */
  function AfterDispatch(fcm: Fcm, db: Database, driver: string, t: DeviceToken): DeviceToken {
    if t.driver == driver && t.active && Outcome(fcm, t.id).Permanent? && db.deactivate(t.id)
    then t.(active := false, reason := Outcome(fcm, t.id).code) else t
  }

  ghost predicate SomeDelivered(fcm: Fcm, tokens: seq<DeviceToken>) {
    exists t :: t in tokens && Outcome(fcm, t.id) == Delivered
  }

  function HighestRetry(fcm: Fcm, tokens: seq<DeviceToken>): (r: nat)
    ensures forall t :: t in tokens ==> Retries(fcm, t.id) <= r
    ensures tokens != [] ==> exists t :: t in tokens && Retries(fcm, t.id) == r
  {
    if tokens == [] then 0
    else
      var n := |tokens| - 1;
      var before := HighestRetry(fcm, tokens[..n]);
      if Retries(fcm, tokens[n].id) > before then Retries(fcm, tokens[n].id) else
        assert n == 0 ==> before == 0 && tokens[n] in tokens;
        before
  }

  /** The sends of one dispatch, in order: (token, attempt). */
  function SendsOf(fcm: Fcm, tokens: seq<DeviceToken>): seq<(string, nat)> {
    if tokens == [] then []
    else
      var n := |tokens| - 1;
      SendsOf(fcm, tokens[..n]) + SendsTo(tokens[n].id, AttemptsFrom(fcm, tokens[n].id, 1))
  }

  function SendsTo(id: string, attempts: nat): (sends: seq<(string, nat)>)
    ensures |sends| == attempts && forall k :: 0 <= k < attempts ==> sends[k] == (id, k + 1)
  {
    seq(attempts, k requires 0 <= k < attempts => (id, k + 1))
  }

  lemma {:induction false} CountOfSends(fcm: Fcm, tokens: seq<DeviceToken>, id: string, k: nat)
    requires DistinctIds(tokens)
    ensures multiset(SendsOf(fcm, tokens))[(id, k)]
         == if (exists t :: t in tokens && t.id == id) && 1 <= k <= AttemptsFrom(fcm, id, 1) then 1 else 0
  {
    if tokens != [] {
      var n := |tokens| - 1;
      var before, last := tokens[..n], tokens[n];
      CountOfSends(fcm, before, id, k);
      CountOfSendsTo(last.id, AttemptsFrom(fcm, last.id, 1), id, k);
      assert tokens == before + [last];
    }
  }

  lemma {:induction false} CountOfSendsTo(to: string, attempts: nat, id: string, k: nat)
    ensures multiset(SendsTo(to, attempts))[(id, k)] == if to == id && 1 <= k <= attempts then 1 else 0
  {
    if attempts > 0 {
      CountOfSendsTo(to, attempts - 1, id, k);
      assert SendsTo(to, attempts) == SendsTo(to, attempts - 1) + [(to, attempts)];
    }
  }

  /**
   Within one dispatch no attempt is made twice, none after the third, and none after a
   success or a permanent error: attempt k + 1 goes out exactly when attempt k went out,
   was answered with a transient error and was not the third.
   */
  lemma SendsStopAtTheFirstAnswer(fcm: Fcm, tokens: seq<DeviceToken>, id: string, k: nat)
    requires DistinctIds(tokens) && k >= 1
    ensures var sends := multiset(SendsOf(fcm, tokens));
      && sends[(id, k)] <= 1
      && (sends[(id, k + 1)] == 1 <==> sends[(id, k)] == 1 && fcm(id, k) == Transient && k < 3)
  {
    CountOfSends(fcm, tokens, id, k);
    CountOfSends(fcm, tokens, id, k + 1);
  }

  /** Where the first devices of the list have been dispatched to, and no others. */
  ghost predicate DispatchedTo(
    fcm: Fcm, db: Database, driver: string, done: seq<DeviceToken>, before: seq<DeviceToken>, now: seq<DeviceToken>)
  {
    && |now| == |before|
    && forall k :: 0 <= k < |before|
         ==> now[k] == if before[k] in done then AfterDispatch(fcm, db, driver, before[k]) else before[k]
  }

  /** The tokens after one more device: only a permanent error deactivates it. */
  ghost predicate OneSent(fcm: Fcm, db: Database, t: DeviceToken, before: seq<DeviceToken>, now: seq<DeviceToken>) {
    && |now| == |before|
    && forall k :: 0 <= k < |before| ==>
         now[k] == if before[k].id == t.id && Outcome(fcm, t.id).Permanent? && db.deactivate(t.id)
                   then before[k].(active := false, reason := Outcome(fcm, t.id).code) else before[k]
  }

  lemma OneMoreDispatched(
    fcm: Fcm, db: Database, driver: string, done: seq<DeviceToken>, t: DeviceToken,
    start: seq<DeviceToken>, before: seq<DeviceToken>, now: seq<DeviceToken>)
    requires DistinctIds(start) && t in start && t.driver == driver && t.active
    requires forall d :: d in done ==> d in start
    requires DispatchedTo(fcm, db, driver, done, start, before) && OneSent(fcm, db, t, before, now)
    ensures DispatchedTo(fcm, db, driver, done + [t], start, now) && DistinctIds(now)
  {
    forall k | 0 <= k < |start|
      ensures now[k] == if start[k] in done + [t] then AfterDispatch(fcm, db, driver, start[k]) else start[k]
    {
      var j :| 0 <= j < |start| && start[j] == t;
      assert start[k].id == t.id ==> k == j;
    }
  }

  /** What the loop over the devices has found and sent so far. */
  ghost predicate Summary(
    fcm: Fcm, done: seq<DeviceToken>, someSent: bool, highest: nat, before: seq<(string, nat)>, now: seq<(string, nat)>)
  {
    && (someSent <==> SomeDelivered(fcm, done)) && highest == HighestRetry(fcm, done)
    && now == before + SendsOf(fcm, done)
  }

  lemma SummaryOfOneMore(
    fcm: Fcm, done: seq<DeviceToken>, t: DeviceToken, someSent: bool, highest: nat,
    before: seq<(string, nat)>, now: seq<(string, nat)>)
    requires Summary(fcm, done, someSent, highest, before, now)
    ensures Summary(fcm, done + [t], someSent || Outcome(fcm, t.id) == Delivered,
              if Retries(fcm, t.id) > highest then Retries(fcm, t.id) else highest,
              before, now + SendsTo(t.id, AttemptsFrom(fcm, t.id, 1)))
  {
    OneMoreResult(fcm, done, t);
    Associative(before, SendsOf(fcm, done), SendsTo(t.id, AttemptsFrom(fcm, t.id, 1)));
  }

  /** One notification has been replaced. */
  ghost predicate OnlyAt(before: seq<Notification>, now: seq<Notification>, n: nat, note: Notification) {
    n < |before| && now == before[n := note]
  }

  lemma MarkedAfterOneMore(
    fcm: Fcm, db: Database, done: seq<DeviceToken>, t: DeviceToken,
    before: seq<Notification>, mid: seq<Notification>, now: seq<Notification>, n: nat)
    requires n < |before| && OnlyAt(before, mid, n, AfterSends(fcm, db, before[n], done))
    requires OnlyAt(mid, now, n, AfterRetries(mid[n], db, t.id, AttemptsFrom(fcm, t.id, 1) - 1))
    ensures OnlyAt(before, now, n, AfterSends(fcm, db, before[n], done + [t]))
  {
    assert (done + [t])[..|done|] == done;
  }

  lemma OneMoreResult(fcm: Fcm, done: seq<DeviceToken>, t: DeviceToken)
    ensures SomeDelivered(fcm, done + [t]) <==> SomeDelivered(fcm, done) || Outcome(fcm, t.id) == Delivered
    ensures HighestRetry(fcm, done + [t])
         == if Retries(fcm, t.id) > HighestRetry(fcm, done) then Retries(fcm, t.id) else HighestRetry(fcm, done)
    ensures SendsOf(fcm, done + [t]) == SendsOf(fcm, done) + SendsTo(t.id, AttemptsFrom(fcm, t.id, 1))
  {
    assert (done + [t])[..|done|] == done;
    if d :| d in done && Outcome(fcm, d.id) == Delivered {
      assert d in done + [t];
    }
    assert t in done + [t];
  }

  /** A write of the status; an error is logged and leaves the notification as it is. */
  function Marked(n: Notification, ok: bool, delivery: Delivery, retries: nat): Notification {
    if ok then n.(delivery := delivery, retries := retries) else n
  }

  /** The notification after its first k attempts at a device were answered with transient errors. */
  function AfterRetries(n: Notification, db: Database, id: string, k: nat): Notification {
    if k == 0 then n else Marked(AfterRetries(n, db, id, k - 1), db.retrying(id, k), Retrying, k)
  }

  /** The notification after the sends to all devices: each attempt but the last has been marked. */
  function AfterSends(fcm: Fcm, db: Database, n: Notification, tokens: seq<DeviceToken>): Notification {
    if tokens == [] then n
    else
      var k := |tokens| - 1;
      AfterRetries(AfterSends(fcm, db, n, tokens[..k]), db, tokens[k].id, AttemptsFrom(fcm, tokens[k].id, 1) - 1)
  }

  /** Whether a dispatch sends anything at all. */
  predicate Reaches(client: bool, db: Database, active: seq<DeviceToken>) { client && db.load && active != [] }

  /** The notification after a dispatch to the active devices of its driver. */
  ghost function AfterPush(
    client: bool, fcm: Fcm, db: Database, n: Notification, active: seq<DeviceToken>): Notification
  {
    if Reaches(client, db, active) then
      Marked(AfterSends(fcm, db, n, active), db.final,
        if SomeDelivered(fcm, active) then Sent else Failed, HighestRetry(fcm, active))
    else Marked(n, db.final, if client && !db.load then Failed else Skipped, 0)
  }

  /** Some attempt before the last at some device has been marked. */
  ghost predicate SomeRetryMarked(fcm: Fcm, db: Database, tokens: seq<DeviceToken>) {
    exists t, k :: t in tokens && 1 <= k < AttemptsFrom(fcm, t.id, 1) && db.retrying(t.id, k)
  }

  lemma {:induction false} MarksOfOneDevice(n: Notification, db: Database, id: string, k: nat)
    ensures AfterRetries(n, db, id, k).delivery
         == if exists i :: 1 <= i <= k && db.retrying(id, i) then Retrying else n.delivery
  {
    if k > 0 {
      MarksOfOneDevice(n, db, id, k - 1);
    }
  }

  lemma {:induction false} MarksOfAllDevices(fcm: Fcm, db: Database, n: Notification, tokens: seq<DeviceToken>)
    ensures AfterSends(fcm, db, n, tokens).delivery == if SomeRetryMarked(fcm, db, tokens) then Retrying else n.delivery
  {
    if tokens != [] {
      var m := |tokens| - 1;
      var before, last := tokens[..m], tokens[m];
      MarksOfAllDevices(fcm, db, n, before);
      MarksOfOneDevice(AfterSends(fcm, db, n, before), db, last.id, AttemptsFrom(fcm, last.id, 1) - 1);
      if t, k :| t in before && 1 <= k < AttemptsFrom(fcm, t.id, 1) && db.retrying(t.id, k) {
        assert t in tokens;
      }
      assert last in tokens && tokens == before + [last];
    }
  }

  /**
   What the status of a new notification says after its dispatch: SENT exactly when some
   device got it, FAILED when none did or the devices could not be loaded, SKIPPED without
   client or devices; but if the last write fails, it says RETRYING for ever if any
   attempt was marked, and PENDING if none was.
   */
  lemma StatusAfterPush(client: bool, fcm: Fcm, db: Database, n: Notification, active: seq<DeviceToken>)
    requires n.delivery == Pending
    ensures var status, sends := AfterPush(client, fcm, db, n, active).delivery, Reaches(client, db, active);
      && (status == Sent <==> db.final && sends && SomeDelivered(fcm, active))
      && (status == Failed <==> db.final && client && (!db.load || (sends && !SomeDelivered(fcm, active))))
      && (status == Skipped <==> db.final && (!client || (db.load && active == [])))
      && (status == Retrying <==> !db.final && sends && SomeRetryMarked(fcm, db, active))
      && (status == Pending <==> !db.final && !(sends && SomeRetryMarked(fcm, db, active)))
  {
    MarksOfAllDevices(fcm, db, n, active);
  }

  lemma {:induction false} SendsKeepIdentity(fcm: Fcm, db: Database, n: Notification, tokens: seq<DeviceToken>)
    ensures AfterSends(fcm, db, n, tokens).eventId == n.eventId
  {
    if tokens != [] {
      var m := |tokens| - 1;
      SendsKeepIdentity(fcm, db, n, tokens[..m]);
      var before := AfterSends(fcm, db, n, tokens[..m]);
      RetriesKeepIdentity(before, db, tokens[m].id, AttemptsFrom(fcm, tokens[m].id, 1) - 1);
    }
  }

  lemma {:induction false} RetriesKeepIdentity(n: Notification, db: Database, id: string, k: nat)
    ensures AfterRetries(n, db, id, k).eventId == n.eventId
  {
    if k > 0 {
      RetriesKeepIdentity(n, db, id, k - 1);
    }
  }

  ghost predicate Deduplicated(records: seq<Notification>, events: set<string>) {
    && (forall i, j :: 0 <= i < j < |records| ==> records[i].eventId != records[j].eventId)
    && (forall e :: e in events <==> exists i :: 0 <= i < |records| && records[i].eventId == e)
  }

  /** Changing what is not the event id keeps the store as good as it was. */
  lemma SameEventsStayDeduplicated(a: seq<Notification>, b: seq<Notification>, events: set<string>)
    requires Deduplicated(a, events) && |a| == |b| && forall i :: 0 <= i < |a| ==> a[i].eventId == b[i].eventId
    ensures Deduplicated(b, events)
  {
    forall e ensures e in events <==> exists i :: 0 <= i < |b| && b[i].eventId == e {
      if e in events {
        var i :| 0 <= i < |a| && a[i].eventId == e;
        assert b[i].eventId == e;
      }
      if i :| 0 <= i < |b| && b[i].eventId == e {
        assert a[i].eventId == e;
      }
    }
  }

  /** The notification service over its in-memory stores. */
  class Notifier {
    var records: seq<Notification>
    var events: set<string>
    var tokens: seq<DeviceToken>
    const client: bool
    ghost var sends: seq<(string, nat)>

    /** One record per event, and the set of events is that of the records. */
    ghost predicate Valid()
      reads this
    {
      DistinctIds(tokens) && Deduplicated(records, events)
    }

    constructor (client: bool)
      ensures Valid() && records == [] && tokens == [] && sends == [] && this.client == client
    {
      records, events, tokens, sends := [], {}, [], [];
      this.client := client;
    }

    /** Insert: an event that is known is an error and changes nothing. */
    method Insert(n: Notification) returns (ok: bool)
      requires Valid()
      modifies this`records, this`events
      ensures Valid()
      ensures ok <==> forall i :: 0 <= i < |old(records)| ==> old(records)[i].eventId != n.eventId
      ensures records == if ok then old(records) + [n] else old(records)
    {
      if n.eventId in events {
        return false;
      }
      events := events + {n.eventId};
      records := records + [n];
      assert forall i :: 0 <= i < |old(records)| ==> records[i] == old(records)[i];
      assert records[|old(records)|].eventId == n.eventId;
      ok := true;
    }

    /** MarkAllRead: a loop over the records that counts what it changes. */
    method MarkAllRead(driver: string) returns (count: nat)
      requires Valid()
      modifies this`records
      ensures Valid() && |records| == |old(records)|
      ensures forall i :: 0 <= i < |records| ==>
        records[i] == if old(records)[i].driver == driver then old(records)[i].(read := true) else old(records)[i]
      ensures count == |set i | 0 <= i < |old(records)| && old(records)[i].driver == driver && !old(records)[i].read|
    {
      count := 0;
      ghost var changed: set<int> := {};
      for i := 0 to |records|
        invariant |records| == |old(records)|
        invariant forall k :: i <= k < |records| ==> records[k] == old(records)[k]
        invariant forall k :: 0 <= k < i ==>
          records[k] == if old(records)[k].driver == driver then old(records)[k].(read := true) else old(records)[k]
        invariant changed == set k | 0 <= k < i && old(records)[k].driver == driver && !old(records)[k].read
        invariant count == |changed|
      {
        if records[i].driver == driver && !records[i].read {
          records := records[i := records[i].(read := true)];
          changed := changed + {i};
          count := count + 1;
        }
      }
      SameEventsStayDeduplicated(old(records), records, events);
    }

    /** Deactivate: the first record with the id. */
    method Deactivate(id: string, reason: string)
      requires DistinctIds(tokens)
      modifies this`tokens
      ensures |tokens| == |old(tokens)|
      ensures forall i :: 0 <= i < |tokens| ==>
        tokens[i] == if old(tokens)[i].id == id then old(tokens)[i].(active := false, reason := reason)
                     else old(tokens)[i]
    {
      for i := 0 to |tokens|
        invariant tokens == old(tokens) && forall k :: 0 <= k < i ==> tokens[k].id != id
      {
        if tokens[i].id == id {
          tokens := tokens[i := tokens[i].(active := false, reason := reason)];
          return;
        }
      }
    }

    /** UpdateDeliveryStatus; ok tells whether the write gets through. */
    method UpdateDeliveryStatus(i: nat, ok: bool, status: Delivery, retries: nat)
      requires i < |records|
      modifies this`records
      ensures records == old(records)[i := Marked(old(records)[i], ok, status, retries)]
    {
      if ok {
        records := records[i := records[i].(delivery := status, retries := retries)];
      }
    }

    /** sendWithRetry: at most three sends; between them the notification is RETRYING. */
    method SendWithRetry(fcm: Fcm, db: Database, id: string, n: nat) returns (retries: nat, result: SendResult)
      requires n < |records|
      modifies this`records, this`sends
      ensures result == Outcome(fcm, id) && retries == Retries(fcm, id)
      ensures sends == old(sends) + SendsTo(id, AttemptsFrom(fcm, id, 1))
      ensures records == old(records)[n := AfterRetries(old(records)[n], db, id, AttemptsFrom(fcm, id, 1) - 1)]
    {
      var attempt := 1;
      while true
        invariant 1 <= attempt <= MAX_DELIVERY_ATTEMPTS
        invariant AttemptsFrom(fcm, id, 1) == AttemptsFrom(fcm, id, attempt)
        invariant sends == old(sends) + SendsTo(id, attempt - 1)
        invariant records == old(records)[n := AfterRetries(old(records)[n], db, id, attempt - 1)]
        decreases MAX_DELIVERY_ATTEMPTS - attempt
      {
        result := fcm(id, attempt);
        sends := sends + [(id, attempt)];
        assert SendsTo(id, attempt) == SendsTo(id, attempt - 1) + [(id, attempt)];
        if result != Transient {
          return attempt - 1, result;
        }
        if attempt == MAX_DELIVERY_ATTEMPTS {
          return MAX_DELIVERY_ATTEMPTS, result;
        }
        UpdateDeliveryStatus(n, db.retrying(id, attempt), Retrying, attempt);
        attempt := attempt + 1;
      }
    }

    /** One turn of the loop of dispatchPush. */
    method SendOne(fcm: Fcm, db: Database, n: nat, t: DeviceToken) returns (sent: bool, retries: nat)
      requires DistinctIds(tokens) && n < |records|
      modifies this`records, this`tokens, this`sends
      ensures (sent <==> Outcome(fcm, t.id) == Delivered) && retries == Retries(fcm, t.id)
      ensures sends == old(sends) + SendsTo(t.id, AttemptsFrom(fcm, t.id, 1))
      ensures records == old(records)[n := AfterRetries(old(records)[n], db, t.id, AttemptsFrom(fcm, t.id, 1) - 1)]
      ensures OneSent(fcm, db, t, old(tokens), tokens)
    {
      var result;
      retries, result := SendWithRetry(fcm, db, t.id, n);
      sent := result == Delivered;
      if result.Permanent? && db.deactivate(t.id) {
        Deactivate(t.id, result.code);
      }
    }

    /** The loop of dispatchPush over the driver's active devices. */
    method SendToAll(fcm: Fcm, db: Database, n: nat, driver: string, active: seq<DeviceToken>)
      returns (atLeastOneSent: bool, highestRetry: nat)
      requires DistinctIds(tokens) && n < |records|
      requires forall t :: t in active ==> t in tokens && t.driver == driver && t.active
      modifies this`records, this`tokens, this`sends
      ensures Summary(fcm, active, atLeastOneSent, highestRetry, old(sends), sends)
      ensures OnlyAt(old(records), records, n, AfterSends(fcm, db, old(records)[n], active))
      ensures DispatchedTo(fcm, db, driver, active, old(tokens), tokens) && DistinctIds(tokens)
    {
      atLeastOneSent, highestRetry := false, 0;
      for i := 0 to |active|
        invariant Summary(fcm, active[..i], atLeastOneSent, highestRetry, old(sends), sends)
        invariant OnlyAt(old(records), records, n, AfterSends(fcm, db, old(records)[n], active[..i]))
        invariant DispatchedTo(fcm, db, driver, active[..i], old(tokens), tokens) && DistinctIds(tokens)
      {
        var t := active[i];
        ghost var before, mid, out := tokens, records, sends;
        var sent, retries := SendOne(fcm, db, n, t);
        assert t in active;
        OneMoreDispatched(fcm, db, driver, active[..i], t, old(tokens), before, tokens);
        MarkedAfterOneMore(fcm, db, active[..i], t, old(records), mid, records, n);
        SummaryOfOneMore(fcm, active[..i], t, atLeastOneSent, highestRetry, old(sends), out);
        TakeOneMore(active, i);
        if retries > highestRetry {
          highestRetry := retries;
        }
        atLeastOneSent := atLeastOneSent || sent;
      }
      assert active[..|active|] == active;
    }

    method SendAndMark(fcm: Fcm, db: Database, n: nat, driver: string, active: seq<DeviceToken>)
      requires DistinctIds(tokens) && n < |records|
      requires forall t :: t in active ==> t in tokens && t.driver == driver && t.active
      requires Reaches(client, db, active)
      modifies this`records, this`tokens, this`sends
      ensures records == old(records)[n := AfterPush(client, fcm, db, old(records)[n], active)]
      ensures sends == old(sends) + SendsOf(fcm, active)
      ensures DispatchedTo(fcm, db, driver, active, old(tokens), tokens) && DistinctIds(tokens)
    {
      var atLeastOneSent, highestRetry := SendToAll(fcm, db, n, driver, active);
      UpdateDeliveryStatus(n, db.final, if atLeastOneSent then Sent else Failed, highestRetry);
    }

    /**
     dispatchPush. What status it leaves is in StatusAfterPush; it sends to the active devices of the driver if it can
     load them, and deactivates exactly those with a permanent error, as far as the store lets it.
     */
    method DispatchPush(fcm: Fcm, db: Database, n: nat)
      requires Valid() && n < |records|
      modifies this`records, this`tokens, this`sends
      ensures Valid()
      ensures var note := old(records)[n];
        var active := ActiveOf(old(tokens), note.driver);
        var sendsOut := Reaches(client, db, active);
        && records == old(records)[n := AfterPush(client, fcm, db, note, active)]
        && sends == (if sendsOut then old(sends) + SendsOf(fcm, active) else old(sends))
        && DispatchedTo(fcm, db, note.driver, if sendsOut then active else [], old(tokens), tokens)
    {
      var driver := records[n].driver;
      var active := ActiveOf(tokens, driver);
      SendsKeepIdentity(fcm, db, records[n], active);
      if !client {
        UpdateDeliveryStatus(n, db.final, Skipped, 0);
      } else if !db.load {
        UpdateDeliveryStatus(n, db.final, Failed, 0);
      } else if |active| == 0 {
        UpdateDeliveryStatus(n, db.final, Skipped, 0);
      } else {
        SendAndMark(fcm, db, n, driver, active);
      }
      SameEventsStayDeduplicated(old(records), records, events);
    }

    /**
     process, for a known event type: a duplicate is acknowledged and changes nothing; a new
     event is recorded and dispatched, with the status and the sends of DispatchPush.
     */
    method Process(fcm: Fcm, db: Database, note: Notification) returns (dispatched: bool)
      requires Valid() && note.delivery == Pending
      modifies this
      ensures Valid()
      ensures dispatched <==> forall i :: 0 <= i < |old(records)| ==> old(records)[i].eventId != note.eventId
      ensures !dispatched ==> records == old(records) && tokens == old(tokens) && sends == old(sends)
      ensures dispatched ==>
        var active := ActiveOf(old(tokens), note.driver);
        var sendsOut := Reaches(client, db, active);
        && records == old(records) + [AfterPush(client, fcm, db, note, active)]
        && sends == (if sendsOut then old(sends) + SendsOf(fcm, active) else old(sends))
        && DispatchedTo(fcm, db, note.driver, if sendsOut then active else [], old(tokens), tokens)
    {
      dispatched := Insert(note);
      if dispatched {
        DispatchPush(fcm, db, |records| - 1);
      }
    }
  }
}
