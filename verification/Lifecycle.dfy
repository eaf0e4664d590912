/**
 The journeys table and its outbox: every lifecycle operation reads a row that may come
 from a stale replica, and later writes guarded by nothing but the version it read.
 */
module Lifecycle {
  import opened Wrappers
  import DbRuns

  datatype Status = Approved | Rejected | Active | Completed | Cancelled | Expired

  /**
   A journey row with its past: the statuses it has had, one for each version. The current
   version is the length of the history, since the version starts at 1 and each update adds 1.
   */
  datatype Journey = Journey(driver: string, key: string, departure: int, history: seq<Status>)

  datatype Kind = Cancel | Activate | Complete | AdminCancel | Expire

  /** An operation between its read and its write: the version it read. */
  datatype Operation = Operation(kind: Kind, jid: string, version: nat)

  /**
   A row of journey.outbox. Its event type names the status that the journey took: booked,
   rejected, activated, completed, cancelled or expired.
   */
  datatype OutboxRow = OutboxRow(jid: string, event: Status)

  /** Configured minutes: how long before departure a driver may cancel, and after it activate. */
  datatype Limits = Limits(minCancel: int, activationGrace: int)

  datatype State = State(
    limits: Limits, journeys: map<string, Journey>, pending: seq<Operation>, outbox: seq<OutboxRow>, now: int)

  datatype Event =
    | Create(jid: string, driver: string, key: string, approved: bool, departure: int)
    | Read(kind: Kind, jid: string, version: nat, caller: string)
    | Write(k: nat, committed: bool)
    | Tick(elapsed: nat)

  /** A driver's operations are open to the driver of the journey alone. */
  predicate MayCall(kind: Kind, driver: string, caller: string) {
    kind == Cancel || kind == Activate || kind == Complete ==> caller == driver
  }

  predicate RightStatus(kind: Kind, status: Status) {
    match kind
    case Cancel | Activate | Expire => status == Approved
    case Complete => status == Active
    case AdminCancel => status == Approved || status == Active
  }

  /** The thirty minutes of the expiry job stand in its query. */
  predicate InTime(limits: Limits, kind: Kind, departure: int, now: int) {
    match kind
    case Cancel => departure - now > limits.minCancel * DbRuns.MINUTE
    case Activate => departure <= now <= departure + limits.activationGrace * DbRuns.MINUTE
    case Complete | AdminCancel => true
    case Expire => departure < now - 30 * DbRuns.MINUTE
  }

  /** The checks that an operation makes on the version of the row that it has read. */
  predicate Admits(limits: Limits, kind: Kind, j: Journey, version: nat, caller: string, now: int)
    requires 1 <= version <= |j.history|
  {
    && MayCall(kind, j.driver, caller)
    && RightStatus(kind, j.history[version - 1])
    && InTime(limits, kind, j.departure, now)
  }

  function Target(kind: Kind): Status {
    match kind
    case Cancel => Cancelled
    case Activate => Active
    case Complete => Completed
    case AdminCancel => Cancelled
    case Expire => Expired
  }

  /** The driver's journey is APPROVED or ACTIVE. */
  ghost predicate Occupies(j: Journey, driver: string) {
    j.driver == driver && j.history != [] && j.history[|j.history| - 1] in {Approved, Active}
  }

  /** A journey that the partial unique index on the driver counts. */
  predicate IsLive(j: Journey) {
    j.history != [] && (j.history[|j.history| - 1] == Approved || j.history[|j.history| - 1] == Active)
  }

  predicate DriverIsBusy(journeys: map<string, Journey>, driver: string) {
    exists id :: id in journeys && journeys[id].driver == driver && IsLive(journeys[id])
  }

  predicate KeyIsUsed(journeys: map<string, Journey>, key: string) {
    exists id :: id in journeys && journeys[id].key == key
  }

  /** The unique constraints on an insert: the id, the idempotency key and, for an approved journey, its driver. */
  predicate Conflicts(journeys: map<string, Journey>, jid: string, driver: string, key: string, approved: bool) {
    jid in journeys || KeyIsUsed(journeys, key) || (approved && DriverIsBusy(journeys, driver))
  }

  /** The UPDATE ... WHERE version = v, and the outbox row in the same transaction. */
  function UpdateStatusWithEvent(s: State, op: Operation): State {
    if op.jid !in s.journeys || op.version != |s.journeys[op.jid].history| then s
    else
      var j := s.journeys[op.jid];
      s.(journeys := s.journeys[op.jid := j.(history := j.history + [Target(op.kind)])],
         outbox := s.outbox + [OutboxRow(op.jid, Target(op.kind))])
  }

  /** One event; an event that is not enabled changes nothing. */
  function Do(s: State, e: Event): State {
    match e
    case Create(jid, driver, key, approved, departure) =>
      if Conflicts(s.journeys, jid, driver, key, approved) then s
      else
        var status := if approved then Approved else Rejected;
        s.(journeys := s.journeys[jid := Journey(driver, key, departure, [status])],
           outbox := s.outbox + [OutboxRow(jid, status)])
    case Read(kind, jid, version, caller) =>
      if jid !in s.journeys || version == 0 || version > |s.journeys[jid].history| then s
      else if !Admits(s.limits, kind, s.journeys[jid], version, caller, s.now) then s
      else s.(pending := s.pending + [Operation(kind, jid, version)])
    case Write(k, committed) =>
      if k >= |s.pending| then s
      else
        var done := s.(pending := s.pending[..k] + s.pending[k + 1..]);
        if committed then UpdateStatusWithEvent(done, s.pending[k]) else done
    case Tick(elapsed) => s.(now := s.now + elapsed)
  }

  function Run(s: State, es: seq<Event>): State
    decreases |es|
  {
    if es == [] then s else Run(Do(s, es[0]), es[1..])
  }

  ghost predicate Init(s: State) {
    s.journeys == map[] && s.pending == [] && s.outbox == []
  }

  // ---------------------------------------------------------------------------
  // The lifecycle
  // ---------------------------------------------------------------------------

  predicate Legal(a: Status, b: Status) {
    || (a == Approved && (b == Cancelled || b == Active || b == Expired))
    || (a == Active && (b == Completed || b == Cancelled))
  }

  predicate Ended(status: Status) { status == Completed || status == Cancelled || status == Expired }

  /** A history as the design draws it. */
  ghost predicate LegalHistory(h: seq<Status>) {
    && h != [] && (h[0] == Approved || h[0] == Rejected)
    && forall v :: 0 <= v < |h| - 1 ==> Legal(h[v], h[v + 1])
  }

  /** The events of one journey, in outbox order. */
  function EventsOf(outbox: seq<OutboxRow>, jid: string): seq<Status> {
    if outbox == [] then []
    else
      var n := |outbox| - 1;
      EventsOf(outbox[..n], jid) + if outbox[n].jid == jid then [outbox[n].event] else []
  }

  function HistoryOf(s: State, jid: string): seq<Status> {
    if jid in s.journeys then s.journeys[jid].history else []
  }

  /** An operation in flight read a version that exists and passed its status check there. */
  ghost predicate ReadWell(s: State, op: Operation) {
    && 1 <= op.version <= |HistoryOf(s, op.jid)|
    && Legal(HistoryOf(s, op.jid)[op.version - 1], Target(op.kind))
  }

  ghost predicate Inv(s: State) {
    && (forall jid :: jid in s.journeys ==> LegalHistory(s.journeys[jid].history))
    && (forall op :: op in s.pending ==> ReadWell(s, op))
    && (forall jid :: EventsOf(s.outbox, jid) == HistoryOf(s, jid))
  }

  lemma EventsOfOneMore(outbox: seq<OutboxRow>, row: OutboxRow, jid: string)
    ensures EventsOf(outbox + [row], jid) == EventsOf(outbox, jid) + if row.jid == jid then [row.event] else []
  {
    assert (outbox + [row])[..|outbox|] == outbox;
  }

  /** Appending one status and its event, legally, keeps everything. */
  lemma AppendKeepsInv(s: State, jid: string, j: Journey, status: Status)
    requires Inv(s) && j.history == HistoryOf(s, jid) + [status] && LegalHistory(j.history)
    ensures Inv(s.(journeys := s.journeys[jid := j], outbox := s.outbox + [OutboxRow(jid, status)]))
  {
    var t := s.(journeys := s.journeys[jid := j], outbox := s.outbox + [OutboxRow(jid, status)]);
    forall id ensures EventsOf(t.outbox, id) == HistoryOf(t, id) {
      EventsOfOneMore(s.outbox, OutboxRow(jid, status), id);
    }
    forall op | op in t.pending ensures ReadWell(t, op) {
      assert ReadWell(s, op);
    }
  }

  lemma UpdateKeepsInv(s: State, op: Operation)
    requires Inv(s) && ReadWell(s, op)
    ensures Inv(UpdateStatusWithEvent(s, op))
  {
    if op.jid in s.journeys && op.version == |s.journeys[op.jid].history| {
      var j := s.journeys[op.jid];
      AppendKeepsInv(s, op.jid, j.(history := j.history + [Target(op.kind)]), Target(op.kind));
    }
  }

  lemma WriteKeepsInv(s: State, k: nat)
    requires Inv(s) && k < |s.pending|
    ensures var done := s.(pending := s.pending[..k] + s.pending[k + 1..]);
      Inv(done) && Inv(UpdateStatusWithEvent(done, s.pending[k]))
  {
    var op, done := s.pending[k], s.(pending := s.pending[..k] + s.pending[k + 1..]);
    assert op in s.pending && ReadWell(s, op);
    forall other | other in done.pending ensures ReadWell(done, other) {
      assert other in s.pending && ReadWell(s, other);
    }
    UpdateKeepsInv(done, op);
  }

  lemma ReadKeepsInv(s: State, kind: Kind, jid: string, version: nat, caller: string)
    requires Inv(s)
    ensures Inv(Do(s, Read(kind, jid, version, caller)))
  {
    var t := Do(s, Read(kind, jid, version, caller));
    forall op | op in t.pending ensures ReadWell(t, op) {
      if op in s.pending {
        assert ReadWell(s, op);
      }
    }
  }

  lemma StepKeepsInv(s: State, e: Event)
    requires Inv(s)
    ensures Inv(Do(s, e))
  {
    match e
    case Create(jid, driver, key, approved, departure) =>
      if !Conflicts(s.journeys, jid, driver, key, approved) {
        var status := if approved then Approved else Rejected;
        AppendKeepsInv(s, jid, Journey(driver, key, departure, [status]), status);
      }
    case Read(kind, jid, version, caller) => ReadKeepsInv(s, kind, jid, version, caller);
    case Write(k, committed) =>
      if k < |s.pending| {
        WriteKeepsInv(s, k);
      }
    case Tick(elapsed) =>
      forall op | op in s.pending ensures ReadWell(Do(s, e), op) {
        assert ReadWell(s, op);
      }
  }

  lemma {:induction false} RunKeepsInv(s: State, es: seq<Event>)
    requires Inv(s)
    ensures Inv(Run(s, es))
    decreases |es|
  {
    if es != [] {
      StepKeepsInv(s, es[0]);
      RunKeepsInv(Do(s, es[0]), es[1..]);
    }
  }

  /** What legality amounts to: at most three versions, and an ended or rejected journey has no later one. */
  lemma LegalHistoriesAreShort(h: seq<Status>)
    requires LegalHistory(h)
    ensures 1 <= |h| <= 3
    ensures forall v :: 0 <= v < |h| - 1 ==> h[v] == Approved || h[v] == Active
    ensures forall v :: 0 <= v < |h| && (Ended(h[v]) || h[v] == Rejected) ==> v == |h| - 1
  {
    forall v | 0 <= v < |h| - 1 ensures h[v] == Approved || h[v] == Active {
      assert Legal(h[v], h[v + 1]);
    }
    if |h| > 2 {
      assert Legal(h[0], h[1]);
      assert Legal(h[1], h[2]);
    }
  }

  /**
   Lifecycle safety and outbox fidelity. Although reads may be stale and writes check only
   the version: in every run, every journey has one of the designed histories, of at most
   three versions, and its events in the outbox are exactly that history, in order.
   */
  lemma HistoriesAreLegalAndPublished(init: State, es: seq<Event>, jid: string)
    requires Init(init) && jid in Run(init, es).journeys
    ensures var s := Run(init, es);
      && LegalHistory(s.journeys[jid].history)
      && 1 <= |s.journeys[jid].history| <= 3
      && EventsOf(s.outbox, jid) == s.journeys[jid].history
  {
    forall id ensures EventsOf(init.outbox, id) == HistoryOf(init, id) {}
    RunKeepsInv(init, es);
    LegalHistoriesAreShort(Run(init, es).journeys[jid].history);
  }

  // ---------------------------------------------------------------------------
  // Who moves a journey, when, and where to
  // ---------------------------------------------------------------------------

  /** The design of the operations: who may bring a journey from one status to another, and when. */
  ghost predicate Permitted(
    limits: Limits, kind: Kind, driver: string, departure: int, before: Status, caller: string, now: int, after: Status)
  {
    match after
    case Active =>
      && kind == Activate && before == Approved && caller == driver
      && departure <= now <= departure + limits.activationGrace * 60_000_000_000
    case Completed => kind == Complete && before == Active && caller == driver
    case Cancelled =>
      || (kind == Cancel && before == Approved && caller == driver
          && now + limits.minCancel * 60_000_000_000 < departure)
      || (kind == AdminCancel && (before == Approved || before == Active))
    case Expired => kind == Expire && before == Approved && departure + 1_800_000_000_000 < now
    case Approved | Rejected => false
  }

  /** The checks and the target of an operation follow the design. */
  lemma AdmitsMeansPermitted(
    limits: Limits, kind: Kind, j: Journey, version: nat, caller: string, now: int, after: Status)
    requires 1 <= version <= |j.history|
    ensures Admits(limits, kind, j, version, caller, now) && after == Target(kind)
       <==> Permitted(limits, kind, j.driver, j.departure, j.history[version - 1], caller, now, after)
  {
  }

  ghost predicate PermittedOn(
    limits: Limits, kind: Kind, j: Journey, version: nat, caller: string, now: int, after: Status)
  {
    && 1 <= version <= |j.history|
    && Permitted(limits, kind, j.driver, j.departure, j.history[version - 1], caller, now, after)
  }

  ghost predicate IsPermitted(limits: Limits, kind: Kind, j: Journey, version: nat, caller: string, now: int) {
    exists after :: PermittedOn(limits, kind, j, version, caller, now, after)
  }

  lemma PermittedExactly(limits: Limits, kind: Kind, j: Journey, version: nat, caller: string, now: int)
    requires 1 <= version <= |j.history|
    ensures Admits(limits, kind, j, version, caller, now) <==> IsPermitted(limits, kind, j, version, caller, now)
    ensures Admits(limits, kind, j, version, caller, now)
        ==> PermittedOn(limits, kind, j, version, caller, now, Target(kind))
  {
    if after :| PermittedOn(limits, kind, j, version, caller, now, after) {
      AdmitsMeansPermitted(limits, kind, j, version, caller, now, after);
    }
    AdmitsMeansPermitted(limits, kind, j, version, caller, now, Target(kind));
    if Admits(limits, kind, j, version, caller, now) {
      assert PermittedOn(limits, kind, j, version, caller, now, Target(kind));
    }
  }

  /** A journey in its next status, and the event that tells so. */
  function Moved(s: State, jid: string, status: Status): State
    requires jid in s.journeys
  {
    var j := s.journeys[jid];
    s.(journeys := s.journeys[jid := j.(history := j.history + [status])],
      outbox := s.outbox + [OutboxRow(jid, status)])
  }

  /** At this point of the run a permitted operation reads the version before the given one. */
  ghost predicate ReadsFor(s: State, e: Event, jid: string, version: nat, after: Status) {
    && e.Read? && e.jid == jid && e.version == version && jid in s.journeys
    && PermittedOn(s.limits, e.kind, s.journeys[jid], version, e.caller, s.now, after)
  }

  ghost predicate WaitsFor(s: State, jid: string, version: nat, after: Status) {
    exists op :: op in s.pending && op.jid == jid && op.version == version && Target(op.kind) == after
  }

  /** Once the grace is over, an activation is refused, whoever asks. */
  lemma LateActivationIsRefused(s: State, elapsed: nat, jid: string, version: nat, caller: string)
    requires jid in s.journeys
    requires s.now + elapsed > s.journeys[jid].departure + s.limits.activationGrace * 60_000_000_000
    ensures var late := Do(s, Tick(elapsed)); Do(late, Read(Activate, jid, version, caller)) == late
  {
  }

  lemma NewVersionWasPending(s: State, e: Event, jid: string, v: nat)
    requires v >= 1 && |HistoryOf(s, jid)| <= v < |HistoryOf(Do(s, e), jid)|
    ensures v == |HistoryOf(s, jid)| && WaitsFor(s, jid, v, HistoryOf(Do(s, e), jid)[v])
  {
    assert e.Write? && s.pending[e.k] in s.pending;
  }

  lemma WaitingWasRead(s: State, e: Event, jid: string, version: nat, after: Status)
    requires WaitsFor(Do(s, e), jid, version, after) && !WaitsFor(s, jid, version, after)
    ensures ReadsFor(s, e, jid, version, after)
  {
    var op :| op in Do(s, e).pending && op.jid == jid && op.version == version && Target(op.kind) == after;
    assert op !in s.pending;
    if e.Read? {
      AdmitsMeansPermitted(s.limits, e.kind, s.journeys[jid], version, e.caller, s.now, after);
    }
  }

  ghost predicate ReadInRun(s: State, es: seq<Event>, jid: string, version: nat, after: Status)
    decreases |es|
  {
    es != [] && (ReadsFor(s, es[0], jid, version, after) || ReadInRun(Do(s, es[0]), es[1..], jid, version, after))
  }

  lemma {:induction false} NewVersionsWereRead(s: State, es: seq<Event>, jid: string, v: nat)
    requires v >= 1 && |HistoryOf(s, jid)| <= v < |HistoryOf(Run(s, es), jid)|
    ensures var after := HistoryOf(Run(s, es), jid)[v];
      WaitsFor(s, jid, v, after) || ReadInRun(s, es, jid, v, after)
    decreases |es|
  {
    var t, after := Do(s, es[0]), HistoryOf(Run(s, es), jid)[v];
    if v < |HistoryOf(t, jid)| {
      HistoriesGrow(t, es[1..], jid);
      NewVersionWasPending(s, es[0], jid, v);
    } else {
      NewVersionsWereRead(t, es[1..], jid, v);
      if WaitsFor(t, jid, v, after) && !WaitsFor(s, jid, v, after) {
        WaitingWasRead(s, es[0], jid, v, after);
      }
    }
  }

  /**
   Every move is by design, in every run: each version of a journey after the first goes
   back to an operation that the design permits, by its kind, caller and time, from the
   version before. So a journey becomes ACTIVE only by its own driver within the grace
   from departure, COMPLETED by its driver, CANCELLED by its driver in time or by an admin.
   */
  lemma MovesAreByDesign(init: State, es: seq<Event>, jid: string, v: nat)
    requires Init(init) && 1 <= v < |HistoryOf(Run(init, es), jid)|
    ensures ReadInRun(init, es, jid, v, HistoryOf(Run(init, es), jid)[v])
  {
    NewVersionsWereRead(init, es, jid, v);
  }

  // ---------------------------------------------------------------------------
  // One live journey per driver
  // ---------------------------------------------------------------------------

  /** What the unique indexes promise, though no update is checked against them here. */
  ghost predicate Unique(journeys: map<string, Journey>) {
    forall a, b :: a in journeys && b in journeys && a != b ==>
      && journeys[a].key != journeys[b].key
      && !(journeys[a].driver == journeys[b].driver && IsLive(journeys[a]) && IsLive(journeys[b]))
  }

  lemma UpdateKeepsUnique(s: State, op: Operation)
    requires Unique(s.journeys) && ReadWell(s, op)
    ensures Unique(UpdateStatusWithEvent(s, op).journeys)
  {
    var t := UpdateStatusWithEvent(s, op);
    forall id | id in t.journeys
      ensures id in s.journeys
      ensures t.journeys[id].driver == s.journeys[id].driver && t.journeys[id].key == s.journeys[id].key
      ensures IsLive(t.journeys[id]) ==> IsLive(s.journeys[id])
    {
    }
  }

  lemma StepKeepsUnique(s: State, e: Event)
    requires Inv(s) && Unique(s.journeys)
    ensures Unique(Do(s, e).journeys)
  {
    if e.Write? && e.k < |s.pending| && e.committed {
      var op, done := s.pending[e.k], s.(pending := s.pending[..e.k] + s.pending[e.k + 1..]);
      assert op in s.pending && ReadWell(s, op) && ReadWell(done, op);
      UpdateKeepsUnique(done, op);
    }
  }

  lemma {:induction false} RunKeepsUnique(s: State, es: seq<Event>)
    requires Inv(s) && Unique(s.journeys)
    ensures Unique(Run(s, es).journeys)
    decreases |es|
  {
    if es != [] {
      StepKeepsInv(s, es[0]);
      StepKeepsUnique(s, es[0]);
      RunKeepsUnique(Do(s, es[0]), es[1..]);
    }
  }

  /**
   In every run no driver has two journeys that are APPROVED or ACTIVE, and no two journeys share an
   idempotency key: the insert is checked, and no update makes a journey live that was not.
   */
  lemma OneLiveJourneyPerDriver(init: State, es: seq<Event>, a: string, b: string)
    requires Init(init) && a in Run(init, es).journeys && b in Run(init, es).journeys && a != b
    ensures var j, k := Run(init, es).journeys[a], Run(init, es).journeys[b];
      && j.key != k.key
      && (Occupies(j, j.driver) ==> !Occupies(k, j.driver))
  {
    forall id ensures EventsOf(init.outbox, id) == HistoryOf(init, id) {}
    RunKeepsUnique(init, es);
  }

  lemma {:induction false} HistoriesGrow(s: State, es: seq<Event>, jid: string)
    requires jid in s.journeys
    ensures jid in Run(s, es).journeys && s.journeys[jid].history <= Run(s, es).journeys[jid].history
    decreases |es|
  {
    if es != [] {
      HistoriesGrow(Do(s, es[0]), es[1..], jid);
    }
  }

  /** Terminal states absorb: an ended or rejected journey never changes again. */
  lemma EndedIsForever(s: State, es: seq<Event>, jid: string)
    requires Inv(s) && jid in s.journeys
    requires var h := s.journeys[jid].history; Ended(h[|h| - 1]) || h[|h| - 1] == Rejected
    ensures jid in Run(s, es).journeys && Run(s, es).journeys[jid].history == s.journeys[jid].history
  {
    HistoriesGrow(s, es, jid);
    RunKeepsInv(s, es);
    LegalHistoriesAreShort(Run(s, es).journeys[jid].history);
  }

  /** Where an event of a journey stands in the outbox. */
  lemma {:induction false} EventInHistory(outbox: seq<OutboxRow>, k: nat)
    requires k < |outbox|
    ensures outbox[k].event in EventsOf(outbox, outbox[k].jid)
  {
    var n := |outbox| - 1;
    if k < n {
      EventInHistory(outbox[..n], k);
    }
  }

  /** An outbox row with a release event tells the truth: its journey has ended, for good. */
  lemma ReleaseEventMeansEnded(s: State, k: nat)
    requires Inv(s) && k < |s.outbox| && Ended(s.outbox[k].event)
    ensures var jid := s.outbox[k].jid;
      && jid in s.journeys
      && var h := s.journeys[jid].history; h != [] && h[|h| - 1] == s.outbox[k].event
  {
    var jid := s.outbox[k].jid;
    EventInHistory(s.outbox, k);
    assert EventsOf(s.outbox, jid) == HistoryOf(s, jid);
    LegalHistoriesAreShort(s.journeys[jid].history);
  }

  /** Two outbox rows of a journey are two of its events, in the same order. */
  lemma {:induction false} TwoRowsTwoEvents(outbox: seq<OutboxRow>, i: nat, j: nat) returns (a: nat, b: nat)
    requires i < j < |outbox| && outbox[i].jid == outbox[j].jid
    ensures var h := EventsOf(outbox, outbox[i].jid); a < b < |h| && h[a] == outbox[i].event && h[b] == outbox[j].event
    decreases |outbox|
  {
    var n, jid := |outbox| - 1, outbox[i].jid;
    var shorter := EventsOf(outbox[..n], jid);
    assert outbox[..n][i] == outbox[i] && shorter <= EventsOf(outbox, jid);
    if j < n {
      assert outbox[..n][j] == outbox[j];
      a, b := TwoRowsTwoEvents(outbox[..n], i, j);
    } else {
      EventInHistory(outbox[..n], i);
      a :| a < |shorter| && shorter[a] == outbox[i].event;
      b := |shorter|;
    }
  }

  /** A release event is the last event of its journey, so at most one is ever enqueued. */
  lemma ReleaseEventIsLast(init: State, es: seq<Event>, i: nat, j: nat)
    requires Init(init) && i < j < |Run(init, es).outbox| && Ended(Run(init, es).outbox[i].event)
    ensures Run(init, es).outbox[j].jid != Run(init, es).outbox[i].jid
  {
    forall id ensures EventsOf(init.outbox, id) == HistoryOf(init, id) {}
    RunKeepsInv(init, es);
    var s := Run(init, es);
    var jid := s.outbox[i].jid;
    ReleaseEventMeansEnded(s, i);
    LegalHistoriesAreShort(s.journeys[jid].history);
    assert EventsOf(s.outbox, jid) == HistoryOf(s, jid);
    if s.outbox[j].jid == jid {
      var a, b := TwoRowsTwoEvents(s.outbox, i, j);
      assert false;
    }
  }

  // ---------------------------------------------------------------------------
  // The expiry job
  // ---------------------------------------------------------------------------

  /** The updates of one pass of the expiry job, row after row; a conflict skips a row. */
  function UpdateAll(s: State, ops: seq<Operation>): State
    decreases |ops|
  {
    if ops == [] then s else UpdateAll(UpdateStatusWithEvent(s, ops[0]), ops[1..])
  }

  lemma UpdateKeepsReads(s: State, op: Operation, other: Operation)
    requires ReadWell(s, other)
    ensures ReadWell(UpdateStatusWithEvent(s, op), other)
  {
  }

  /** A stale row of the pass, or a second one for the same journey, changes nothing. */
  ghost predicate Current(s: State, ops: seq<Operation>, jid: string) {
    exists op :: op in ops && op.jid == jid && op.version == |HistoryOf(s, jid)|
  }

  ghost predicate ExpiresReadRows(s: State, ops: seq<Operation>) {
    forall op :: op in ops ==> op.kind == Expire && ReadWell(s, op)
  }

  lemma CurrentOfCons(s: State, ops: seq<Operation>, jid: string)
    requires ops != []
    ensures Current(s, ops, jid) <==> Current(s, [ops[0]], jid) || Current(s, ops[1..], jid)
  {
    assert ops == [ops[0]] + ops[1..];
  }

  lemma UpdateKeepsAllReads(s: State, ops: seq<Operation>)
    requires ops != [] && ExpiresReadRows(s, ops)
    ensures ExpiresReadRows(UpdateStatusWithEvent(s, ops[0]), ops[1..]) && ExpiresReadRows(s, ops[1..])
    ensures ops[0].kind == Expire && ReadWell(s, ops[0])
  {
    assert ops[0] in ops;
    forall other | other in ops[1..] ensures ReadWell(UpdateStatusWithEvent(s, ops[0]), other) {
      assert other in ops;
      UpdateKeepsReads(s, ops[0], other);
    }
  }

  /**
   A pass of the expiry job over what a replica shows: exactly the journeys whose current
   version is among the rows read become EXPIRED, each by one event, and all others are as before.
   */
  lemma {:induction false} ExpiryPassIsExact(s: State, ops: seq<Operation>, jid: string)
    requires Inv(s) && ExpiresReadRows(s, ops)
    ensures HistoryOf(UpdateAll(s, ops), jid) == HistoryOf(s, jid) + if Current(s, ops, jid) then [Expired] else []
    decreases |ops|
  {
    if ops != [] {
      UpdateKeepsAllReads(s, ops);
      UpdateKeepsInv(s, ops[0]);
      ExpiryPassIsExact(UpdateStatusWithEvent(s, ops[0]), ops[1..], jid);
      CurrentAfterUpdate(s, ops[0], ops[1..], jid);
      CurrentOfCons(s, ops, jid);
    }
  }

  lemma CurrentAfterUpdate(s: State, op: Operation, rest: seq<Operation>, jid: string)
    requires Inv(s) && op.kind == Expire && ReadWell(s, op)
    requires ExpiresReadRows(s, rest)
    ensures var t := UpdateStatusWithEvent(s, op);
      if Current(s, [op], jid) then HistoryOf(t, jid) == HistoryOf(s, jid) + [Expired] && !Current(t, rest, jid)
      else HistoryOf(t, jid) == HistoryOf(s, jid) && (Current(t, rest, jid) <==> Current(s, rest, jid))
  {
    assert op in [op];
  }

  /** The method and the run model agree on an operation whose read and write nothing separates. */
  lemma TransitionIsRun(s: State, kind: Kind, jid: string, version: nat, caller: string)
    requires s.pending == [] && 1 <= version <= |HistoryOf(s, jid)|
    ensures Run(s, [Read(kind, jid, version, caller), Write(0, true)])
         == if Admits(s.limits, kind, s.journeys[jid], version, caller, s.now)
            then UpdateStatusWithEvent(s, Operation(kind, jid, version)) else s
  {
    var op, read, write := Operation(kind, jid, version), Read(kind, jid, version, caller), Write(0, true);
    assert [read, write][1..] == [write] && [write][1..] == [];
    assert Run(s, [read, write]) == Run(Do(s, read), [write]) == Run(Do(Do(s, read), write), []);
    if Admits(s.limits, kind, s.journeys[jid], version, caller, s.now) {
      var waiting := s.(pending := [op]);
      assert Do(s, read) == waiting;
      assert waiting.pending[..0] + waiting.pending[1..] == [];
      assert waiting.(pending := []) == s;
    }
  }

  /** The journey service over its tables; a read may return any version that a row has had. */
  class JourneyService {
    var journeys: map<string, Journey>
    var outbox: seq<OutboxRow>
    var now: int
    const limits: Limits

    ghost function Contents(): State
      reads this
    {
      State(limits, journeys, [], outbox, now)
    }

    ghost predicate Valid()
      reads this
    {
      Inv(Contents())
    }

    constructor (now: int, limits: Limits)
      ensures Valid() && Init(Contents()) && this.now == now && this.limits == limits
    {
      journeys, outbox := map[], [];
      this.now, this.limits := now, limits;
      new;
      forall jid ensures EventsOf(outbox, jid) == HistoryOf(Contents(), jid) {}
    }

    /** Create: the row and its event in one transaction, unless a unique constraint is in the way. */
    method CreateJourney(jid: string, driver: string, key: string, approved: bool, departure: int)
      returns (r: Result<Status>)
      requires Valid()
      modifies this`journeys, this`outbox
      ensures Valid() && Contents() == Do(old(Contents()), Create(jid, driver, key, approved, departure))
      ensures r == Err("CONFLICT") <==>
        || jid in old(journeys)
        || (exists id :: id in old(journeys) && old(journeys)[id].key == key)
        || (approved && exists id :: id in old(journeys) && Occupies(old(journeys)[id], driver))
      ensures r != Err("CONFLICT") ==> r == Ok(if approved then Approved else Rejected)
      ensures old(Unique(journeys)) ==> Unique(journeys)
    {
      StepKeepsInv(Contents(), Create(jid, driver, key, approved, departure));
      if jid in journeys || KeyIsUsed(journeys, key) || (approved && DriverIsBusy(journeys, driver)) {
        return Err("CONFLICT");
      }
      var status := if approved then Approved else Rejected;
      journeys := journeys[jid := Journey(driver, key, departure, [status])];
      outbox := outbox + [OutboxRow(jid, status)];
      r := Ok(status);
    }

    /** The transaction of UpdateStatusWithEvent: no row updated means a conflict, and no event. */
    method UpdateStatus(op: Operation) returns (ok: bool)
      requires Valid() && ReadWell(Contents(), op)
      modifies this`journeys, this`outbox
      ensures Valid() && Contents() == UpdateStatusWithEvent(old(Contents()), op)
      ensures ok <==> op.version == |old(HistoryOf(Contents(), op.jid))|
    {
      UpdateKeepsInv(Contents(), op);
      var j := journeys[op.jid];
      if op.version != |j.history| {
        return false;
      }
      journeys := journeys[op.jid := j.(history := j.history + [Target(op.kind)])];
      outbox := outbox + [OutboxRow(op.jid, Target(op.kind))];
      ok := true;
    }

    /**
     CancelJourney, ActivateJourney, CompleteJourney or AdminCancelJourney: read, check,
     update. It succeeds exactly when the row read is admitted and still current; then the
     journey takes the target status by one event, and otherwise nothing changes.
     A stranger learns no more than that the journey does not exist for him.
     */
    method Transition(kind: Kind, jid: string, version: nat, caller: string) returns (r: Result<Status>)
      requires Valid() && (jid in journeys ==> 1 <= version <= |journeys[jid].history|)
      modifies this`journeys, this`outbox
      ensures Valid()
      ensures r == Err("NOT_FOUND") <==>
        || jid !in old(journeys)
        || ((kind == Cancel || kind == Activate || kind == Complete) && caller != old(journeys)[jid].driver)
      ensures r.Ok? <==>
        && jid in old(journeys) && version == |old(journeys)[jid].history|
        && IsPermitted(limits, kind, old(journeys)[jid], version, caller, now)
      ensures r == Err("CONFLICT") <==>
        && jid in old(journeys) && version < |old(journeys)[jid].history|
        && IsPermitted(limits, kind, old(journeys)[jid], version, caller, now)
      ensures r == Err("BAD_REQUEST") <==>
        && jid in old(journeys) && MayCall(kind, old(journeys)[jid].driver, caller)
        && !RightStatus(kind, old(journeys)[jid].history[version - 1])
      ensures r == Err("FORBIDDEN") <==>
        && jid in old(journeys) && MayCall(kind, old(journeys)[jid].driver, caller)
        && RightStatus(kind, old(journeys)[jid].history[version - 1])
        && !InTime(limits, kind, old(journeys)[jid].departure, now)
      ensures r.Ok? ==> PermittedOn(limits, kind, old(journeys)[jid], version, caller, now, r.value)
      ensures Contents() == if r.Ok? then Moved(old(Contents()), jid, r.value) else old(Contents())
    {
      if jid !in journeys {
        return Err("NOT_FOUND");
      }
      var j := journeys[jid];
      PermittedExactly(limits, kind, j, version, caller, now);
      if !MayCall(kind, j.driver, caller) {
        return Err("NOT_FOUND");
      }
      if !RightStatus(kind, j.history[version - 1]) {
        return Err("BAD_REQUEST");
      }
      if !InTime(limits, kind, j.departure, now) {
        return Err("FORBIDDEN");
      }
      var ok := UpdateStatus(Operation(kind, jid, version));
      r := if ok then Ok(Target(kind)) else Err("CONFLICT");
    }

    /** expireJourneys: the loop over the rows that GetExpiredJourneys read. */
    method ExpireJourneys(rows: seq<Operation>)
      requires Valid() && ExpiresReadRows(Contents(), rows)
      modifies this`journeys, this`outbox
      ensures Valid() && Contents() == UpdateAll(old(Contents()), rows)
    {
      ghost var start := Contents();
      assert rows[0..] == rows;
      for i := 0 to |rows|
        invariant Valid() && UpdateAll(start, rows) == UpdateAll(Contents(), rows[i..])
        invariant forall op :: op in rows ==> op.kind == Expire && ReadWell(Contents(), op)
      {
        ghost var before := Contents();
        assert rows[i] in rows && rows[i..][0] == rows[i] && rows[i..][1..] == rows[i + 1..];
        forall op | op in rows ensures ReadWell(UpdateStatusWithEvent(before, rows[i]), op) {
          UpdateKeepsReads(before, rows[i], op);
        }
        var ok := UpdateStatus(rows[i]);
      }
    }
  }
}
