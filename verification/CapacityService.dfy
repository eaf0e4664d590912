/**
 The capacity service as it is called: one object over its tables, whose methods follow
 the service and repository code statement by statement. Each call runs while no other does and
 every database call succeeds; the run models take up what happens otherwise.
 */
module CapacityService {
  import opened Tables
  import opened Admission
  import opened Collections
  import opened Regions
  import opened Wrappers
  import B = Bookings
  import DbRuns
  import S = Saga
  import SR = SagaRuns

  /** A step of status RESERVED in a saga row. */
  datatype RegionStep = RegionStep(region: Region, rid: string)

  datatype SagaRow = SagaRow(jid: string, createdAt: int, status: SR.SagaStatus, steps: seq<RegionStep>)

  datatype Response = Answered(answer: B.Answer) | BadRequest | InternalError

  /** validateReserveRequest; the other fields cannot be malformed here. */
  predicate ValidRequest(r: Request) {
    r.jid != "" && r.key != "" && r.windows != [] && forall w :: w in r.windows ==> w.seg != ""
  }

  function WindowsOfRows(rows: seq<Row>): seq<Window> {
    seq(|rows|, i requires 0 <= i < |rows| => rows[i].window)
  }

  lemma OneMoreSelected(rows: seq<Row>, i: nat, f: Filter)
    requires i < |rows|
    ensures WindowsOfRows(Select(rows[..i + 1], f))
         == WindowsOfRows(Select(rows[..i], f)) + if Matches(f, rows[i]) then [rows[i].window] else []
  {
    assert rows[..i + 1] == rows[..i] + [rows[i]];
    S.SelectOfConcat(rows[..i], [rows[i]], f);
  }

  /** The first i rows have been released as far as they match; the others are as before. */
  ghost predicate Halfway(before: seq<Row>, now: seq<Row>, i: nat, f: Filter) {
    && |now| == |before|
    && forall k :: 0 <= k < |before| ==> now[k] == if k < i then ReleaseRow(f, before[k]) else before[k]
  }

  lemma HalfwayStep(before: seq<Row>, now: seq<Row>, i: nat, f: Filter)
    requires i < |before| && Halfway(before, now, i, f)
    ensures now[i] == before[i]
    ensures Halfway(before, if Matches(f, now[i]) then now[i := now[i].(status := Released)] else now, i + 1, f)
  {
  }

  /** The regional groups in the coordinator's order, each sorted. */
  function GroupsInOrder(groups: map<Region, seq<Window>>, order: seq<Region>): (gs: seq<seq<Window>>)
    requires forall r :: r in order ==> r in groups
    ensures |gs| == |order| && forall i :: 0 <= i < |order| ==> gs[i] == SortBySegment(groups[order[i]])
  {
    seq(|order|, i requires 0 <= i < |order| => SortBySegment(groups[order[i]]))
  }

  function StepsOf(order: seq<Region>, rid: string): (steps: seq<RegionStep>)
    ensures |steps| == |order| && forall i :: 0 <= i < |order| ==> steps[i] == RegionStep(order[i], rid)
  {
    seq(|order|, i requires 0 <= i < |order| => RegionStep(order[i], rid))
  }

  /** When the first i windows pass, the next one decides. */
  lemma {:induction false} FailureOfNext(db: DB, ws: seq<Window>, i: nat, slots: real, priority: Priority)
    requires i < |ws| && FirstFailure(db, ws[..i], slots, priority).None?
    ensures var f := CheckWindow(db, ws[i], slots, priority);
      if f.Some? then FirstFailure(db, ws, slots, priority) == f
      else FirstFailure(db, ws[..i + 1], slots, priority).None?
  {
    assert ws == ws[..i] + ws[i..] && ws[..i + 1] == ws[..i] + [ws[i]];
    S.FirstFailureOfConcat(db, ws[..i], ws[i..], slots, priority);
    S.FirstFailureOfConcat(db, ws[..i], [ws[i]], slots, priority);
  }

  /** The coordinator's order, cut into its three possible parts. */
  lemma GroupsOfParts(groups: map<Region, seq<Window>>, a: seq<Region>, e: seq<Region>, u: seq<Region>)
    requires forall r :: r in a ==> r in groups
    requires forall r :: r in e ==> r in groups
    requires forall r :: r in u ==> r in groups
    ensures GroupsInOrder(groups, a + e + u)
        == GroupsInOrder(groups, a) + GroupsInOrder(groups, e) + GroupsInOrder(groups, u)
  {
  }

  /** The groups that the coordinator works through are those of the saga model. */
  lemma GroupsAreRegional(groups: map<Region, seq<Window>>, ws: seq<Window>)
    requires IsGrouping(SegmentRegion, groups, ws)
    ensures GroupsInOrder(groups, InOrder(groups.Keys)) == S.RegionalGroups(SegmentRegion, ws)
  {
    var a, e := if Apac in groups then [Apac] else [], if Eu in groups then [Eu] else [];
    var u := if Us in groups then [Us] else [];
    assert InOrder(groups.Keys) == a + e + u;
    GroupsOfParts(groups, a, e, u);
    GroupOrNone(groups, ws, Apac, a);
    GroupOrNone(groups, ws, Eu, e);
    GroupOrNone(groups, ws, Us, u);
  }

  lemma GroupOrNone(groups: map<Region, seq<Window>>, ws: seq<Window>, r: Region, order: seq<Region>)
    requires IsGrouping(SegmentRegion, groups, ws) && order == if r in groups then [r] else []
    ensures GroupsInOrder(groups, order) == S.NonEmpty(S.SortedGroup(SegmentRegion, ws, r))
  {
    var g := GroupOf(SegmentRegion, ws, r);
    assert |multiset(SortBySegment(g))| == |multiset(g)|;
    if r in groups {
      var w :| w in ws && SegmentRegion(w.seg) == r;
      assert w in g;
    } else {
      UntouchedRegionIsEmpty(SegmentRegion, ws, r);
    }
  }

  /** A saga with the first i regions carried out: what is left of it, from here, gives the whole outcome. */
  ghost predicate CarriedOut(
    whole: S.Outcome, db: DB, rid: string, jid: string, gs: seq<seq<Window>>, i: nat, slots: real, priority: Priority)
  {
    && i <= |gs|
    && var rest := S.Forward(db, rid, jid, gs[i..], slots, priority); whole == rest.(reserved := rest.reserved + i)
  }

  lemma CarryOutNext(
    whole: S.Outcome, db: DB, rid: string, jid: string, gs: seq<seq<Window>>, i: nat, slots: real, priority: Priority)
    requires CarriedOut(whole, db, rid, jid, gs, i, slots, priority) && i < |gs|
    ensures FirstFailure(db, gs[i], slots, priority).None? ==>
      CarriedOut(whole, Admission.Reserve(db, rid, jid, gs[i], slots, priority), rid, jid, gs, i + 1, slots, priority)
    ensures FirstFailure(db, gs[i], slots, priority).Some? ==>
      whole == S.Outcome(db, i, FirstFailure(db, gs[i], slots, priority))
  {
    DropOneMore(gs, i);
  }

  lemma CarriedOutAll(
    whole: S.Outcome, db: DB, rid: string, jid: string, gs: seq<seq<Window>>, slots: real, priority: Priority)
    requires CarriedOut(whole, db, rid, jid, gs, |gs|, slots, priority)
    ensures whole == S.Outcome(db, |gs|, None)
  {
  }

  lemma StepsOfOneMore(order: seq<Region>, i: nat, rid: string)
    requires i < |order|
    ensures StepsOf(order[..i + 1], rid) == StepsOf(order[..i], rid) + [RegionStep(order[i], rid)]
  {
  }

  ghost predicate AreGroups(groups: map<Region, seq<Window>>, order: seq<Region>, gs: seq<seq<Window>>) {
    && |gs| == |order|
    && forall i :: 0 <= i < |order| ==> order[i] in groups && gs[i] == SortBySegment(groups[order[i]])
  }

  /** The saga rows of all other keys are as before. */
  ghost predicate OnlyAt(before: map<string, SagaRow>, after: map<string, SagaRow>, key: string) {
    && after.Keys == before.Keys
    && forall k :: k in before && k != key ==> after[k] == before[k]
  }

  lemma OnlyAtTwice(a: map<string, SagaRow>, b: map<string, SagaRow>, c: map<string, SagaRow>, key: string)
    requires OnlyAt(a, b, key) && OnlyAt(b, c, key)
    ensures OnlyAt(a, c, key)
  {
  }

  lemma OnlyAtThenSet(before: map<string, SagaRow>, after: map<string, SagaRow>, key: string, row: SagaRow)
    requires OnlyAt(before, after, key)
    ensures after[key := row] == before[key := row]
  {
  }

  lemma GroupsInOrderAreGroups(groups: map<Region, seq<Window>>, order: seq<Region>)
    requires forall r :: r in order ==> r in groups
    ensures AreGroups(groups, order, GroupsInOrder(groups, order))
  {
  }

  /** What a saga that ran to its end answers, and how it is marked. */
  function SagaAnswer(o: S.Outcome, rid: string, jid: string): B.Answer {
    if o.failed.Some? then B.Failed(o.failed.value) else B.Reserved(rid, jid)
  }

  function SagaEnd(o: S.Outcome): SR.SagaStatus {
    if o.failed.Some? then SR.Compensated else SR.Committed
  }

  /** A saga ends COMMITTED and answers its reservation iff every region went through; else COMPENSATED and failed. */
  lemma SagaEndsAsItAnswers(o: S.Outcome, rid: string, jid: string)
    ensures SagaEnd(o) == SR.Committed <==> o.failed.None?
    ensures SagaEnd(o) == SR.Compensated <==> o.failed.Some?
    ensures SagaAnswer(o, rid, jid) == B.Reserved(rid, jid) <==> o.failed.None?
    ensures o.failed.Some? ==> SagaAnswer(o, rid, jid) == B.Failed(o.failed.value)
  {
  }

  /** The outcome that one transaction over the windows as requested would have. */
  ghost predicate LikeOneTransaction(
    db: DB, rid: string, jid: string, ws: seq<Window>, slots: real, priority: Priority, accepted: bool,
    rows: seq<Row>)
  {
    && (accepted <==> FirstFailure(db, ws, slots, priority).None?)
    && multiset(Select(rows, AnyActive))
        == multiset(Select(Admission.Reserve(db, rid, jid, ws, slots, priority).rows, AnyActive))
  }

  /** What a request with a new key leaves: an answer, which is cached, and the rows of one transaction. */
  ghost predicate NewKeyOutcome(
    db: DB, before: map<string, B.Entry>, now: int, req: Request, rid: string,
    r: Response, rows: seq<Row>, cache: map<string, B.Entry>)
  {
    && r.Answered?
    && cache == before[req.key := B.NewEntry(now, req.jid, r.answer)]
    && (r.answer.Reserved? ==> r.answer == B.Reserved(rid, req.jid))
    && LikeOneTransaction(
         db, rid, req.jid, req.windows, SlotsNeeded(req.vehicle), req.priority, r.answer.Reserved?, rows)
  }

  /** What one transaction over the windows answers and leaves, case by case. */
  ghost predicate TxOutcome(
    db: DB, before: map<string, B.Entry>, now: int, req: Request, ws: seq<Window>, rid: string,
    r: Response, rows: seq<Row>, cache: map<string, B.Entry>)
  {
    var slots := SlotsNeeded(req.vehicle);
    var failure := FirstFailure(db, ws, slots, req.priority);
    match B.ValidEntry(before, now, req.key)
    case Some(entry) => r == Answered(entry.answer) && rows == db.rows && cache == before
    case None =>
      if failure.Some? then
        && r == Answered(B.Failed(failure.value)) && rows == db.rows
        && cache == B.InsertOrIgnore(before, now, req.key, req.jid, B.Failed(failure.value))
      else if req.key in before then r == InternalError && rows == db.rows && cache == before
      else
        && r == Answered(B.Reserved(rid, req.jid))
        && rows == Admission.Reserve(db, rid, req.jid, ws, slots, req.priority).rows
        && cache == before[req.key := B.NewEntry(now, req.jid, B.Reserved(rid, req.jid))]
  }

  function ResponseOf(reply: B.Reply): Response {
    match reply
    case Replied(answer) => Answered(answer)
    case ServerError => InternalError
  }

  /** An attempt of the run model from its transaction to its end, while nothing else happens. */
  ghost function Finish(t: B.State, i: nat, rid: string): B.State {
    B.Do(B.Do(B.Do(t, B.RunsTx(i, rid, B.Committed)), B.RecordsFailure(i, true)), B.LooksUp(i, true))
  }

  lemma FailedAttemptFinishes(t: B.State, i: nat, rid: string)
    requires i < |t.attempts| && t.attempts[i].at.Transaction? && B.Fresh(t, rid)
    requires B.ValidEntry(t.cache, t.now, t.attempts[i].request.key).None? && B.FailureOf(t, i).Some?
    ensures var r, answer := t.attempts[i].request, B.Failed(B.FailureOf(t, i).value);
      var recorded := B.MoveTo(t, i, B.RecordFailure(answer.segment));
      Finish(t, i, rid) == B.Tell(B.Offer(recorded, r.key, r.jid, answer), i, answer)
  {
    var recorded := B.MoveTo(t, i, B.RecordFailure(B.FailureOf(t, i).value));
    assert B.Do(t, B.RunsTx(i, rid, B.Committed)) == recorded;
  }

  /** The method and the run model agree on a transaction that nothing interrupts. */
  lemma TransactionIsRunOfAttempt(t: B.State, i: nat, rid: string)
    requires i < |t.attempts| && t.attempts[i].at.Transaction? && B.Fresh(t, rid)
    ensures var r, u := t.attempts[i].request, Finish(t, i, rid);
      && i < |u.attempts| && u.attempts[i].at.Done?
      && TxOutcome(t.db, t.cache, t.now, r, r.windows, rid, ResponseOf(u.attempts[i].at.reply), u.db.rows, u.cache)
  {
    var r := t.attempts[i].request;
    if B.ValidEntry(t.cache, t.now, r.key).Some? {
      assert B.Do(t, B.RunsTx(i, rid, B.Committed)) == B.Tell(t, i, t.cache[r.key].answer);
    } else if B.FailureOf(t, i).Some? {
      FailedAttemptFinishes(t, i, rid);
    } else if r.key in t.cache {
      assert B.Do(t, B.RunsTx(i, rid, B.Committed)) == B.MoveTo(t, i, B.LookupAgain);
    } else {
      assert B.Do(t, B.RunsTx(i, rid, B.Committed))
          == B.Tell(B.CommitReservation(t, r, rid), i, B.Reserved(rid, r.jid));
    }
  }

  /** The rows once a pending saga of the last 24 hours has been compensated, as far as calls got through. */
  ghost function Recovered(rows: seq<Row>, saga: SagaRow, now: int, ok: nat -> bool): seq<Row> {
    if IsRecent(saga, now) && saga.status == SR.Pending && exists i :: 0 <= i < |saga.steps| && ok(i)
    then Release(rows, OfReservation(saga.steps[0].rid)) else rows
  }

  /** GetByIdempotencyKey finds no older saga. */
  predicate IsRecent(saga: SagaRow, now: int) { saga.createdAt > now - B.DAY }

  /** What a saga that runs from its creation to its end answers and leaves. */
  ghost predicate FreshSagaOutcome(
    db: DB, before: map<string, B.Entry>, sagas: map<string, SagaRow>, now: int, req: Request,
    gs: seq<seq<Window>>, rid: string,
    r: Response, rows: seq<Row>, cache: map<string, B.Entry>, after: map<string, SagaRow>)
  {
    var o := S.Execute(db, rid, req.jid, gs, SlotsNeeded(req.vehicle), req.priority);
    && rows == o.db.rows && r == Answered(SagaAnswer(o, rid, req.jid))
    && cache == B.InsertOrIgnore(before, now, req.key, req.jid, r.answer)
    && req.key in after && after == sagas[req.key := SagaRow(req.jid, now, SagaEnd(o), after[req.key].steps)]
  }

  /**
   What executeSaga answers and leaves. Without an earlier saga of the key it runs a fresh
   one. A recent committed saga is replayed; a recent pending one is compensated. Then, as
   after any other earlier saga, a fresh one would follow; but where the key is unique
   among sagas, the insert of its record fails.
   */
  ghost predicate SagaOutcome(
    db: DB, before: map<string, B.Entry>, sagas: map<string, SagaRow>, now: int, req: Request,
    gs: seq<seq<Window>>, rid: string, ok: nat -> bool, uniqueKeys: bool,
    r: Response, rows: seq<Row>, cache: map<string, B.Entry>, after: map<string, SagaRow>)
  {
    if req.key !in sagas then FreshSagaOutcome(db, before, sagas, now, req, gs, rid, r, rows, cache, after)
    else
      var saga := sagas[req.key];
      var freed := Recovered(db.rows, saga, now, ok);
      if IsRecent(saga, now) && saga.status == SR.Committed then
        && rows == db.rows && cache == before && after == sagas
        && r == (if B.ValidEntry(before, now, req.key).Some? then Answered(before[req.key].answer) else InternalError)
      else if uniqueKeys then
        && rows == freed && cache == before && r == InternalError
        && after == (if IsRecent(saga, now) && saga.status == SR.Pending
                     then sagas[req.key := saga.(status := SR.Compensated)] else sagas)
      else FreshSagaOutcome(db.(rows := freed), before, sagas, now, req, gs, rid, r, rows, cache, after)
  }

  lemma SortingDoesNotMatter(db: DB, rid: string, jid: string, ws: seq<Window>, slots: real, priority: Priority)
    ensures var sorted := SortBySegment(ws);
      LikeOneTransaction(db, rid, jid, ws, slots, priority,
        FirstFailure(db, sorted, slots, priority).None?, Admission.Reserve(db, rid, jid, sorted, slots, priority).rows)
  {
    var sorted := SortBySegment(ws);
    S.FailureDependsOnWindowsOnly(db, sorted, ws, slots, priority);
    S.ActiveAfterInsert(db.rows, rid, jid, sorted, ws, slots, priority);
  }

  lemma RegionsDoNotMatter(db: DB, rid: string, jid: string, ws: seq<Window>, slots: real, priority: Priority)
    requires FreshReservation(db.rows, rid)
    ensures var o := S.Execute(db, rid, jid, S.RegionalGroups(SegmentRegion, SortBySegment(ws)), slots, priority);
      LikeOneTransaction(db, rid, jid, ws, slots, priority, o.failed.None?, o.db.rows)
  {
    var sorted := SortBySegment(ws);
    S.GroupsPartitionTheRequest(SegmentRegion, sorted);
    S.SagaRefinesTransaction(db, rid, jid, ws, S.RegionalGroups(SegmentRegion, sorted), slots, priority);
  }

  /** A call with a new key keeps capacity and the emergency buffer, through a saga as through one transaction. */
  lemma NewKeyKeepsBounds(
    db: DB, before: map<string, B.Entry>, now: int, req: Request, rid: string,
    r: Response, rows: seq<Row>, cache: map<string, B.Entry>)
    requires NewKeyOutcome(db, before, now, req, rid, r, rows, cache) && WellFormed(db)
    ensures var slots := SlotsNeeded(req.vehicle);
      && (WithinCapacity(db) && OwnLoadFits(req.windows, slots, Headroom(req.priority))
          ==> WithinCapacity(db.(rows := rows)))
      && (BufferKept(db) && (req.priority == Normal ==> OwnLoadFits(req.windows, slots, 0.0))
          ==> BufferKept(db.(rows := rows)))
  {
    var slots := SlotsNeeded(req.vehicle);
    var single := Admission.Reserve(db, rid, req.jid, req.windows, slots, req.priority);
    forall f ensures SumSlots(rows, f) == SumSlots(single.rows, f) {
      SumDependsOnActiveRows(rows, single.rows, f);
    }
    if WithinCapacity(db) && OwnLoadFits(req.windows, slots, Headroom(req.priority)) {
      ReserveKeepsCapacity(db, rid, req.jid, req.windows, slots, req.priority);
    }
    if BufferKept(db) && (req.priority == Normal ==> OwnLoadFits(req.windows, slots, 0.0)) {
      ReserveKeepsBuffer(db, rid, req.jid, req.windows, slots, req.priority);
    }
  }

  lemma TxOutcomeIsNew(
    db: DB, before: map<string, B.Entry>, now: int, req: Request, rid: string,
    r: Response, rows: seq<Row>, cache: map<string, B.Entry>)
    requires TxOutcome(db, before, now, req, SortBySegment(req.windows), rid, r, rows, cache) && req.key !in before
    ensures NewKeyOutcome(db, before, now, req, rid, r, rows, cache)
  {
    SortingDoesNotMatter(db, rid, req.jid, req.windows, SlotsNeeded(req.vehicle), req.priority);
  }

  lemma FreshSagaIsNew(
    db: DB, before: map<string, B.Entry>, sagas: map<string, SagaRow>, now: int, req: Request, rid: string,
    r: Response, rows: seq<Row>, cache: map<string, B.Entry>, after: map<string, SagaRow>)
    requires FreshReservation(db.rows, rid) && req.key !in before
    requires var gs := S.RegionalGroups(SegmentRegion, SortBySegment(req.windows));
      FreshSagaOutcome(db, before, sagas, now, req, gs, rid, r, rows, cache, after)
    ensures NewKeyOutcome(db, before, now, req, rid, r, rows, cache)
  {
    RegionsDoNotMatter(db, rid, req.jid, req.windows, SlotsNeeded(req.vehicle), req.priority);
  }

  /**
   The retry that the coordinator's comments promise. Were the key not unique among sagas, an attempt after a
   compensated, failed, recovered or old saga would be like one transaction over the
   tables as the recovery leaves them; where it is, the attempt ends with an internal error.
   */
  lemma RetryIsLikeOneTransaction(
    db: DB, before: map<string, B.Entry>, sagas: map<string, SagaRow>, now: int, req: Request, rid: string,
    ok: nat -> bool, uniqueKeys: bool,
    r: Response, rows: seq<Row>, cache: map<string, B.Entry>, after: map<string, SagaRow>)
    requires FreshReservation(db.rows, rid) && req.key !in before && req.key in sagas
    requires !(IsRecent(sagas[req.key], now) && sagas[req.key].status == SR.Committed)
    requires var gs := S.RegionalGroups(SegmentRegion, SortBySegment(req.windows));
      SagaOutcome(db, before, sagas, now, req, gs, rid, ok, uniqueKeys, r, rows, cache, after)
    ensures var freed := db.(rows := Recovered(db.rows, sagas[req.key], now, ok));
      if uniqueKeys then r == InternalError && rows == freed.rows
      else NewKeyOutcome(freed, before, now, req, rid, r, rows, cache)
  {
    if !uniqueKeys {
      var freed := db.(rows := Recovered(db.rows, sagas[req.key], now, ok));
      assert FreshReservation(freed.rows, rid) by {
        forall row | row in freed.rows ensures row.rid != rid {
          var i :| 0 <= i < |freed.rows| && freed.rows[i] == row;
          assert db.rows[i] in db.rows;
        }
      }
      FreshSagaIsNew(freed, before, sagas, now, req, rid, r, rows, cache, after);
    }
  }

  /**
   What Reserve answers and leaves: nothing for an invalid request, a replay for a valid
   entry; else one transaction over the sorted request, or a saga if it touches several regions.
   */
  ghost predicate ReserveOutcome(
    db: DB, before: map<string, B.Entry>, sagas: map<string, SagaRow>, now: int, req: Request, rid: string,
    ok: nat -> bool, uniqueKeys: bool,
    r: Response, rows: seq<Row>, cache: map<string, B.Entry>, after: map<string, SagaRow>)
  {
    var sorted := SortBySegment(req.windows);
    if !ValidRequest(req) then r == BadRequest && rows == db.rows && cache == before && after == sagas
    else if B.ValidEntry(before, now, req.key).Some? then
      r == Answered(before[req.key].answer) && rows == db.rows && cache == before && after == sagas
    else if |RegionsOf(SegmentRegion, sorted)| > 1 then
      var gs := S.RegionalGroups(SegmentRegion, sorted);
      SagaOutcome(db, before, sagas, now, req, gs, rid, ok, uniqueKeys, r, rows, cache, after)
    else TxOutcome(db, before, now, req, sorted, rid, r, rows, cache) && after == sagas
  }

  /**
   A valid request with a new key, in one region or in several: it is accepted exactly when
   one transaction over its windows would be, it leaves the same active rows, and the
   answer is cached.
   */
  lemma NewKeyIsLikeOneTransaction(
    db: DB, before: map<string, B.Entry>, sagas: map<string, SagaRow>, now: int, req: Request, rid: string,
    ok: nat -> bool, uniqueKeys: bool,
    r: Response, rows: seq<Row>, cache: map<string, B.Entry>, after: map<string, SagaRow>)
    requires FreshReservation(db.rows, rid) && ValidRequest(req) && req.key !in before && req.key !in sagas
    requires ReserveOutcome(db, before, sagas, now, req, rid, ok, uniqueKeys, r, rows, cache, after)
    ensures NewKeyOutcome(db, before, now, req, rid, r, rows, cache)
  {
    if |RegionsOf(SegmentRegion, SortBySegment(req.windows))| > 1 {
      FreshSagaIsNew(db, before, sagas, now, req, rid, r, rows, cache, after);
    } else {
      TxOutcomeIsNew(db, before, now, req, rid, r, rows, cache);
    }
  }

  /** A recorded release call of the saga that gets through meets a row that it can free. */
  ghost predicate CanFree(rows: seq<Row>, saga: SagaRow, ok: nat -> bool) {
    && (exists i :: 0 <= i < |saga.steps| && ok(i))
    && exists r :: r in rows && Matches(OfReservation(saga.steps[0].rid), r)
  }

  lemma ReleaseChangesExactly(rows: seq<Row>, f: Filter)
    ensures Release(rows, f) == rows <==> forall r :: r in rows ==> !Matches(f, r)
  {
    forall r | r in rows && Matches(f, r) ensures Release(rows, f) != rows {
      var i :| 0 <= i < |rows| && rows[i] == r;
      assert Release(rows, f)[i].status == Released;
    }
  }

  lemma RecoveryChangesExactly(rows: seq<Row>, saga: SagaRow, now: int, ok: nat -> bool)
    ensures Recovered(rows, saga, now, ok) != rows
        <==> IsRecent(saga, now) && saga.status == SR.Pending && CanFree(rows, saga, ok)
  {
    if saga.steps != [] {
      ReleaseChangesExactly(rows, OfReservation(saga.steps[0].rid));
    }
  }

  /**
   A further call across regions with a key whose saga is known, where the key is unique among
   sagas. It is answered iff the cache still holds the answer. It frees rows iff it
   finds no answer, and the saga is pending, no older than 24 hours and has something to
   free: an older saga is neither replayed nor recovered, and its rows stay.
   */
  lemma KnownSagaKeyExactly(
    db: DB, before: map<string, B.Entry>, sagas: map<string, SagaRow>, now: int, req: Request, rid: string,
    ok: nat -> bool, r: Response, rows: seq<Row>, cache: map<string, B.Entry>, after: map<string, SagaRow>)
    requires ValidRequest(req) && |RegionsOf(SegmentRegion, SortBySegment(req.windows))| > 1 && req.key in sagas
    requires ReserveOutcome(db, before, sagas, now, req, rid, ok, true, r, rows, cache, after)
    ensures var saga := sagas[req.key];
      && cache == before
      && (r.Answered? <==> B.ValidEntry(before, now, req.key).Some?)
      && (r.Answered? ==> r.answer == before[req.key].answer)
      && (rows != db.rows <==>
           !r.Answered? && saga.status == SR.Pending && now < saga.createdAt + B.DAY && CanFree(db.rows, saga, ok))
  {
    RecoveryChangesExactly(db.rows, sagas[req.key], now, ok);
  }

  class Service {
    var segments: map<string, real>
    var closures: seq<Closure>
    var rows: seq<Row>
    var cache: map<string, B.Entry>
    var sagas: map<string, SagaRow>
    var now: int
    var defaultCapacity: real

    /** Whether the schema declares the idempotency key unique among sagas. */
    const uniqueKeys: bool

    ghost function Db(): DB
      reads this
    {
      DB(segments, closures, rows)
    }

    /** All steps of one saga carry one reservation id. */
    ghost predicate SagasValid()
      reads this
    {
      forall key, s, t :: key in sagas && s in sagas[key].steps && t in sagas[key].steps ==> s.rid == t.rid
    }

    constructor (now: int, defaultCapacity: real, uniqueKeys: bool)
      ensures Db() == DB(map[], [], []) && cache == map[] && sagas == map[] && this.now == now
      ensures this.defaultCapacity == defaultCapacity && this.uniqueKeys == uniqueKeys
    {
      segments, closures, rows, cache, sagas := map[], [], [], map[], map[];
      this.now, this.defaultCapacity, this.uniqueKeys := now, defaultCapacity, uniqueKeys;
    }

    // -------------------------------------------------------------------------
    // The repositories
    // -------------------------------------------------------------------------

    /** UPDATE ... SET status = 'released' WHERE f RETURNING the windows. */
    method ReleaseWhere(f: Filter) returns (affected: seq<Window>)
      modifies this`rows
      ensures rows == Release(old(rows), f)
      ensures affected == WindowsOfRows(Select(old(rows), f))
    {
      affected := [];
      for i := 0 to |rows|
        invariant Halfway(old(rows), rows, i, f)
        invariant affected == WindowsOfRows(Select(old(rows)[..i], f))
      {
        HalfwayStep(old(rows), rows, i, f);
        OneMoreSelected(old(rows), i, f);
        if Matches(f, rows[i]) {
          affected := affected + [rows[i].window];
          rows := rows[i := rows[i].(status := Released)];
        }
      }
      assert old(rows)[..|rows|] == old(rows);
    }

    method ReleaseByJourneyID(jid: string) returns (affected: seq<Window>)
      modifies this`rows
      ensures rows == Release(old(rows), OfJourney(jid)) && affected == WindowsOfRows(Select(old(rows), OfJourney(jid)))
    {
      affected := ReleaseWhere(OfJourney(jid));
    }

    method ReleaseByReservationID(rid: string) returns (affected: seq<Window>)
      modifies this`rows
      ensures rows == Release(old(rows), OfReservation(rid))
      ensures affected == WindowsOfRows(Select(old(rows), OfReservation(rid)))
    {
      affected := ReleaseWhere(OfReservation(rid));
    }

    method ReleaseOrphans(threshold: int) returns (affected: seq<Window>)
      modifies this`rows
      ensures rows == Release(old(rows), EndedBefore(now - threshold))
      ensures affected == WindowsOfRows(Select(old(rows), EndedBefore(now - threshold)))
    {
      affected := ReleaseWhere(EndedBefore(now - threshold));
    }

    method DeleteExpired() returns (deleted: nat)
      modifies this`cache
      ensures forall k :: k in cache <==> k in old(cache) && old(cache)[k].expiresAt >= now
      ensures forall k :: k in cache ==> cache[k] == old(cache)[k]
      ensures deleted == |old(cache)| - |cache|
    {
      var before := |cache|;
      UnexpiredIsSmaller(cache, now);
      cache := B.Unexpired(cache, now);
      deleted := before - |cache|;
    }

    // -------------------------------------------------------------------------
    // One transaction
    // -------------------------------------------------------------------------

    /** The loop that locks and checks one segment after the other. */
    method FindFailure(ws: seq<Window>, slots: real, priority: Priority) returns (failed: Option<FailedSegment>)
      ensures failed == FirstFailure(Db(), ws, slots, priority)
    {
      for i := 0 to |ws|
        invariant FirstFailure(Db(), ws[..i], slots, priority).None?
      {
        var w := ws[i];
        FailureOfNext(Db(), ws, i, slots, priority);
        if w.hi <= w.lo {
          return Some(FailedSegment(w, InvalidTimeWindow, slots));
        }
        if w.seg !in segments {
          return Some(FailedSegment(w, UnknownSegment, slots));
        }
        var closure := FindActiveOverlap(closures, w.seg, w.lo, w.hi);
        if closure.Some? {
          return Some(FailedSegment(w, SegmentClosed(closure.value), slots));
        }
        var available := EffectiveCapacity(segments[w.seg], priority) - SumSlots(rows, Overlapping(w.seg, w.lo, w.hi));
        if available < slots {
          if available < 0.0 {
            available := 0.0;
          }
          return Some(FailedSegment(w, AtCapacity(available), slots));
        }
      }
      assert ws[..|ws|] == ws;
      failed := None;
    }

    /** The loop that inserts one row for each window. */
    method InsertRows(rid: string, jid: string, ws: seq<Window>, slots: real, priority: Priority)
      modifies this`rows
      ensures rows == old(rows) + NewRows(rid, jid, ws, slots, priority)
    {
      for i := 0 to |ws|
        invariant rows == old(rows) + NewRows(rid, jid, ws[..i], slots, priority)
      {
        var row := Row(rid, jid, ws[i], slots, priority, Active);
        assert NewRows(rid, jid, ws[..i + 1], slots, priority) == NewRows(rid, jid, ws[..i], slots, priority) + [row];
        rows := rows + [row];
      }
      assert ws[..|ws|] == ws;
    }

    /**
     doReserveTx. A valid entry is replayed; a failure is recorded for the key; an entry that has expired but
     is still there makes the insert fail, and everything is rolled back.
     */
    method DoReserveTx(req: Request, ws: seq<Window>, rid: string) returns (r: Response)
      modifies this`rows, this`cache
      ensures TxOutcome(old(Db()), old(cache), now, req, ws, rid, r, rows, cache)
    {
      var slots := SlotsNeeded(req.vehicle);
      var recheck := B.ValidEntry(cache, now, req.key);
      if recheck.Some? {
        return Answered(recheck.value.answer);
      }
      var failed := FindFailure(ws, slots, req.priority);
      if failed.Some? {
        cache := B.InsertOrIgnore(cache, now, req.key, req.jid, B.Failed(failed.value));
        return Answered(B.Failed(failed.value));
      }
      var before := rows;
      InsertRows(rid, req.jid, ws, slots, req.priority);
      if req.key in cache {
        rows := before;
        return InternalError;
      }
      cache := cache[req.key := B.NewEntry(now, req.jid, B.Reserved(rid, req.jid))];
      r := Answered(B.Reserved(rid, req.jid));
    }

    /** doReserveSegmentsTx: the same checks and inserts for one region, without the cache. */
    method DoReserveSegmentsTx(
      jid: string, rid: string, ws: seq<Window>, slots: real, priority: Priority)
      returns (failed: Option<FailedSegment>)
      modifies this`rows
      ensures failed == FirstFailure(old(Db()), ws, slots, priority)
      ensures Db() == Admission.Reserve(old(Db()), rid, jid, ws, slots, priority)
    {
      failed := FindFailure(ws, slots, priority);
      if failed.None? {
        InsertRows(rid, jid, ws, slots, priority);
      }
    }

    // -------------------------------------------------------------------------
    // The saga
    // -------------------------------------------------------------------------

    /** compensateSteps: one release call for each step, of which any may fail. */
    method CompensateSteps(steps: seq<RegionStep>, rid: string, ok: nat -> bool)
      requires forall s :: s in steps ==> s.rid == rid
      modifies this`rows
      ensures rows == if exists i :: 0 <= i < |steps| && ok(i)
                      then Release(old(rows), OfReservation(rid)) else old(rows)
    {
      for i := 0 to |steps|
        invariant rows == if exists k :: 0 <= k < i && ok(k) then Release(old(rows), OfReservation(rid)) else old(rows)
      {
        assert steps[i] in steps;
        ReleasesAreIdempotentAndCommute(old(rows), OfReservation(rid), OfReservation(rid));
        if ok(i) {
          var affected := ReleaseByReservationID(steps[i].rid);
        }
      }
    }

    /** compensateSteps when every release call succeeds. */
    method CompensateAll(steps: seq<RegionStep>, rid: string)
      requires forall s :: s in steps ==> s.rid == rid
      modifies this`rows
      ensures rows == S.Compensate(old(rows), rid, |steps|)
    {
      S.CompensateIsOneRelease(rows, rid, |steps|);
      var always: nat -> bool := k => true;
      assert always(0);
      CompensateSteps(steps, rid, always);
    }

    /** One turn of that loop: the regional transaction and, on success, the write of the step. */
    method ReserveRegion(req: Request, ws: seq<Window>, region: Region, rid: string, steps: seq<RegionStep>)
      returns (failed: Option<FailedSegment>, after: seq<RegionStep>)
      requires req.key in sagas
      modifies this`rows, this`sagas
      ensures failed == FirstFailure(old(Db()), ws, SlotsNeeded(req.vehicle), req.priority)
      ensures Db() == Admission.Reserve(old(Db()), rid, req.jid, ws, SlotsNeeded(req.vehicle), req.priority)
      ensures after == if failed.None? then steps + [RegionStep(region, rid)] else steps
      ensures OnlyAt(old(sagas), sagas, req.key)
    {
      after := steps;
      failed := DoReserveSegmentsTx(req.jid, rid, ws, SlotsNeeded(req.vehicle), req.priority);
      if failed.None? {
        after := steps + [RegionStep(region, rid)];
        sagas := sagas[req.key := SagaRow(req.jid, now, SR.Pending, after)];
      }
    }

    /** The loop of executeSaga: region after region, each step written to the saga row. */
    method ForwardRegions(
      req: Request, groups: map<Region, seq<Window>>, order: seq<Region>, rid: string, ghost gs: seq<seq<Window>>)
      returns (steps: seq<RegionStep>, failed: Option<FailedSegment>)
      requires AreGroups(groups, order, gs) && req.key in sagas
      modifies this`rows, this`sagas
      ensures var o := S.Forward(old(Db()), rid, req.jid, gs, SlotsNeeded(req.vehicle), req.priority);
        && Db() == o.db && failed == o.failed && o.reserved <= |order| && steps == StepsOf(order[..o.reserved], rid)
      ensures OnlyAt(old(sagas), sagas, req.key)
    {
      ghost var slots, p := SlotsNeeded(req.vehicle), req.priority;
      ghost var whole := S.Forward(Db(), rid, req.jid, gs, slots, p);
      steps := [];
      assert gs[0..] == gs;
      for i := 0 to |order|
        invariant steps == StepsOf(order[..i], rid)
        invariant CarriedOut(whole, Db(), rid, req.jid, gs, i, slots, p)
        invariant OnlyAt(old(sagas), sagas, req.key)
      {
        ghost var before := sagas;
        CarryOutNext(whole, Db(), rid, req.jid, gs, i, slots, p);
        failed, steps := ReserveRegion(req, SortBySegment(groups[order[i]]), order[i], rid, steps);
        OnlyAtTwice(old(sagas), before, sagas, req.key);
        if failed.Some? {
          return;
        }
        StepsOfOneMore(order, i, rid);
      }
      CarriedOutAll(whole, Db(), rid, req.jid, gs, slots, p);
      assert order[..|order|] == order;
      failed := None;
    }

    /** A saga that no earlier one with its key precedes: it runs forward and, on failure, back. */
    method RunSaga(
      req: Request, groups: map<Region, seq<Window>>, order: seq<Region>, rid: string, ghost gs: seq<seq<Window>>)
      returns (r: Response)
      requires AreGroups(groups, order, gs)
      modifies this`rows, this`cache, this`sagas
      ensures var o := S.Execute(old(Db()), rid, req.jid, gs, SlotsNeeded(req.vehicle), req.priority);
        && Db() == o.db
        && r == Answered(SagaAnswer(o, rid, req.jid))
        && cache == B.InsertOrIgnore(old(cache), now, req.key, req.jid, r.answer)
        && o.reserved <= |order|
        && sagas == old(sagas)[req.key := SagaRow(req.jid, now, SagaEnd(o), StepsOf(order[..o.reserved], rid))]
    {
      sagas := sagas[req.key := SagaRow(req.jid, now, SR.Pending, [])];
      var steps, failed := ForwardRegions(req, groups, order, rid, gs);
      var row := SagaRow(req.jid, now, if failed.Some? then SR.Compensated else SR.Committed, steps);
      OnlyAtThenSet(old(sagas)[req.key := SagaRow(req.jid, now, SR.Pending, [])], sagas, req.key, row);
      LastUpdateWins(old(sagas), req.key, SagaRow(req.jid, now, SR.Pending, []), row);
      sagas := sagas[req.key := row];
      if failed.Some? {
        CompensateAll(steps, rid);
      }
      var answer := if failed.Some? then B.Failed(failed.value) else B.Reserved(rid, req.jid);
      cache := B.InsertOrIgnore(cache, now, req.key, req.jid, answer);
      r := Answered(answer);
    }

    /** GetByIdempotencyKey: only a saga of the last 24 hours is found. */
    method GetSaga(key: string) returns (saga: Option<SagaRow>)
      ensures saga == if key in sagas && IsRecent(sagas[key], now) then Some(sagas[key]) else None
    {
      saga := if key in sagas && sagas[key].createdAt > now - B.DAY then Some(sagas[key]) else None;
    }

    /** compensateSaga: release calls for the recorded steps, then the mark. */
    method CompensateSaga(key: string, ok: nat -> bool)
      requires key in sagas && IsRecent(sagas[key], now) && sagas[key].status == SR.Pending && SagasValid()
      modifies this`rows, this`sagas
      ensures SagasValid() && rows == Recovered(old(rows), old(sagas)[key], now, ok)
      ensures sagas == old(sagas)[key := old(sagas)[key].(status := SR.Compensated)]
    {
      var saga := sagas[key];
      CompensateSteps(saga.steps, if saga.steps == [] then "" else saga.steps[0].rid, ok);
      sagas := sagas[key := saga.(status := SR.Compensated)];
    }

    /** executeSaga: look for an earlier saga of the key, recover it, and run a fresh one. */
    method ExecuteSaga(
      req: Request, groups: map<Region, seq<Window>>, order: seq<Region>, rid: string,
      ok: nat -> bool, ghost gs: seq<seq<Window>>)
      returns (r: Response)
      requires AreGroups(groups, order, gs) && SagasValid()
      modifies this`rows, this`cache, this`sagas
      ensures SagasValid()
      ensures SagaOutcome(old(Db()), old(cache), old(sagas), now, req, gs, rid, ok, uniqueKeys, r, rows, cache, sagas)
    {
      var existing := GetSaga(req.key);
      if existing.Some? {
        var saga := existing.value;
        if saga.status == SR.Committed {
          var cached := B.ValidEntry(cache, now, req.key);
          return if cached.Some? then Answered(cached.value.answer) else InternalError;
        }
        if saga.status == SR.Pending {
          CompensateSaga(req.key, ok);
        }
      }
      if uniqueKeys && req.key in sagas {
        return InternalError;
      }
      ghost var known := sagas;
      r := RunSaga(req, groups, order, rid, gs);
      if req.key in old(sagas) {
        LastUpdateWins(old(sagas), req.key, known[req.key], sagas[req.key]);
        assert known == old(sagas)[req.key := known[req.key]];
      }
    }

    // -------------------------------------------------------------------------
    // The calls
    // -------------------------------------------------------------------------

    /** Reserve: validate, sort, look the key up, group by region, and run one transaction or the saga. */
    method Reserve(req: Request, rid: string, ok: nat -> bool) returns (r: Response)
      requires FreshReservation(rows, rid) && SagasValid()
      modifies this`rows, this`cache, this`sagas
      ensures SagasValid()
      ensures ReserveOutcome(old(Db()), old(cache), old(sagas), now, req, rid, ok, uniqueKeys, r, rows, cache, sagas)
      ensures r == BadRequest <==>
        || req.jid == "" || req.key == "" || |req.windows| == 0
        || exists w :: w in req.windows && w.seg == ""
    {
      if !ValidRequest(req) {
        return BadRequest;
      }
      var sorted := SortBySegment(req.windows);
      var cached := B.ValidEntry(cache, now, req.key);
      if cached.Some? {
        return Answered(cached.value.answer);
      }
      var groups, order := GroupByRegion(sorted);
      assert groups.Keys == RegionsOf(SegmentRegion, sorted);
      if |groups| > 1 {
        r := ReserveAcrossRegions(req, groups, order, rid, ok, sorted);
      } else {
        r := DoReserveTx(req, sorted, rid);
      }
    }

    method ReserveAcrossRegions(
      req: Request, groups: map<Region, seq<Window>>, order: seq<Region>, rid: string, ok: nat -> bool,
      ghost sorted: seq<Window>)
      returns (r: Response)
      requires IsGrouping(SegmentRegion, groups, sorted) && order == InOrder(groups.Keys) && SagasValid()
      modifies this`rows, this`cache, this`sagas
      ensures SagasValid()
      ensures var gs := S.RegionalGroups(SegmentRegion, sorted);
        SagaOutcome(old(Db()), old(cache), old(sagas), now, req, gs, rid, ok, uniqueKeys, r, rows, cache, sagas)
    {
      GroupsAreRegional(groups, sorted);
      GroupsInOrderAreGroups(groups, order);
      r := ExecuteSaga(req, groups, order, rid, ok, GroupsInOrder(groups, order));
    }

    /** CreateClosure: the checks on the input, then the transaction. */
    method CreateClosure(id: string, seg: string, durationMinutes: int, reason: string) returns (r: Result<Closure>)
      modifies this`closures
      ensures Db() == DbRuns.ApplyClosure(old(Db()), id, seg, now, durationMinutes, reason)
      ensures r.Ok? <==> closures != old(closures)
      ensures r.Ok? ==> closures == old(closures) + [r.value]
    {
      if seg == "" {
        return Err("segment_id is required");
      }
      if reason == "" {
        return Err("reason is required");
      }
      if durationMinutes <= 0 || durationMinutes > DbRuns.MAX_CLOSURE_MINUTES {
        return Err("duration_minutes is out of range");
      }
      var closure := Closure(id, seg, now, now + durationMinutes * DbRuns.MINUTE, reason, true);
      if seg !in segments {
        return Err("unknown segment");
      }
      var overlap := FindActiveOverlap(closures, seg, closure.start, closure.end);
      if overlap.Some? {
        return Err("closure overlap");
      }
      closures := closures + [closure];
      r := Ok(closure);
    }

    /** RegisterSegments: each new id gets the default capacity, all or none. */
    method RegisterSegments(ids: seq<string>) returns (r: Result<nat>)
      modifies this`segments
      ensures r.Err? <==> ids == [] || "" in ids
      ensures segments == if r.Ok? then DbRuns.Register(old(segments), ids, defaultCapacity) else old(segments)
      ensures r.Ok? ==> r.value == |IdSet(ids)|
    {
      if |ids| == 0 {
        return Err("segments list must not be empty");
      }
      var before := segments;
      var seen: set<string> := {};
      var registered := 0;
      for i := 0 to |ids|
        invariant seen == IdSet(ids[..i]) && registered == |seen| && "" !in seen
        invariant segments == DbRuns.Register(old(segments), ids[..i], defaultCapacity)
      {
        TakeOneMore(ids, i);
        IdSetOfOneMore(ids[..i], ids[i]);
        RegisterOneMore(old(segments), ids[..i], ids[i], defaultCapacity);
        if ids[i] == "" {
          assert ids[i] in ids;
          segments := before;
          return Err("segment_id is required");
        }
        if ids[i] !in seen {
          seen := seen + {ids[i]};
          segments := InsertIfMissing(segments, ids[i], defaultCapacity);
          registered := registered + 1;
        }
      }
      assert ids[..|ids|] == ids;
      r := Ok(registered);
    }
  }

  function IdSet(ids: seq<string>): set<string> { set id | id in ids }

  lemma IdSetOfOneMore(ids: seq<string>, id: string)
    ensures IdSet(ids + [id]) == IdSet(ids) + {id}
  {
  }

  /** INSERT ... ON CONFLICT (segment_id) DO NOTHING. */
  function InsertIfMissing(segments: map<string, real>, id: string, cap: real): map<string, real> {
    if id in segments then segments else segments[id := cap]
  }

  lemma {:induction false} RegisterOneMore(segments: map<string, real>, ids: seq<string>, id: string, cap: real)
    ensures DbRuns.Register(segments, ids + [id], cap)
         == InsertIfMissing(DbRuns.Register(segments, ids, cap), id, cap)
    decreases |ids|
  {
    if ids == [] {
      assert DbRuns.Register(segments, [id], cap)
          == DbRuns.Register(InsertIfMissing(segments, id, cap), [id][1..], cap);
    } else {
      TailOfConcat(ids, [id]);
      RegisterOneMore(InsertIfMissing(segments, ids[0], cap), ids[1..], id, cap);
    }
  }

  lemma UnexpiredIsSmaller(cache: map<string, B.Entry>, now: int)
    ensures |B.Unexpired(cache, now)| <= |cache|
  {
    var kept := B.Unexpired(cache, now);
    assert kept.Keys <= cache.Keys;
    SubsetIsSmaller(kept.Keys, cache.Keys);
  }
}
