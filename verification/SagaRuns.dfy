/**
 One cross-region saga among everything else that happens to the tables: its regional
 transactions, step writes and release calls are separate steps, any of which can fail or
 be the last before a crash; a later attempt with the same idempotency key recovers it.
 */
module SagaRuns {
  import opened Tables
  import opened Admission
  import opened Wrappers
  import DbRuns
  import S = Saga
  import R = Regions

  datatype Plan = Plan(rid: string, jid: string, groups: seq<seq<Window>>, vehicle: VehicleType, priority: Priority)

  datatype SagaStatus = Pending | Committed | Compensated | Failed

  /** A step of status RESERVED, as the saga row records it. */
  datatype RegionStep = RegionStep(region: nat, rid: string)

  datatype SagaRow = SagaRow(status: SagaStatus, steps: seq<RegionStep>)

  datatype Reply = Accepted | Rejected(segment: FailedSegment) | SystemError

  /** Where the coordinator stands; each label is the next thing it does. */
  datatype Label =
    | Create
    | Region
    | WriteStep
    | Mark(status: SagaStatus, reply: Reply)
    | Release(next: nat, reply: Reply)
    | Cache(reply: Reply)
    | Returned(reply: Reply)
    | Crashed

  /**
   The coordinator. Besides its label: how many regions it holds as reserved; whether one
   release call has succeeded; whether a step write was lost; and whether the region
   whose transaction reported an error had committed all the same.
   */
  datatype Coordinator = Coordinator(at: Label, reserved: nat, released: bool, lostWrite: bool, errorCommitted: bool)

  /** An attempt that has found the saga PENDING: the steps it read and the call it makes next. */
  datatype Recovery = Recovery(steps: seq<RegionStep>, next: nat)

  /**
   cached tells whether the reply reached the idempotency cache, which later attempts
   consult first (its entry outlives the 24 hours for which the saga is found); missed
   counts the attempts that have missed it and not yet looked for the saga; recoveries are
   those that have found it PENDING;
   touched tells whether a statement of somebody else (an event, the orphan pass) has
   released a row of this saga; recovered, whether a release call of a recovery succeeded.
   */
  datatype State = State(
    db: DB, row: Option<SagaRow>, cached: bool, c: Coordinator,
    missed: nat, recoveries: seq<Recovery>, recovered: bool, touched: bool)

  /** What the coordinator does next, with the outcomes that are not its choice. */
  datatype CoordinatorEvent =
    | CreateRow(ok: bool)
    | RegionTx
    | RegionError(committed: bool)
    | StepWrite(written: bool)
    | StatusWrite(written: bool)
    | ReleaseCall(ok: bool)
    | CacheWrite(written: bool)
    | Crash

  /** What other attempts with the key do; k is the recovery in question. */
  datatype RecoveryEvent =
    | MissesCache
    | LeavesEarly
    | FindsSaga
    | RecoveryRelease(k: nat, ok: bool)
    | RecoveryMark(k: nat, written: bool)
    | RecoveryCrash(k: nat)

  datatype Event = Others(step: DbRuns.Step) | Coordinates(ce: CoordinatorEvent) | Recovers(re: RecoveryEvent)

  ghost predicate ByOthers(p: Plan, d: DbRuns.Step) {
    match d
    case ReserveTx(rid, _, _, _, _) => rid != p.rid
    case _ => true
  }

  ghost predicate Touches(p: Plan, rows: seq<Row>, d: DbRuns.Step) {
    d.ReleaseWhere? && exists r :: r in rows && r.rid == p.rid && Matches(d.f, r)
  }

  /** Others do as they like, but for reservations under this id; they touch the saga iff they release a row of it. */
  lemma TouchedMeansReleased(p: Plan, s: State, d: DbRuns.Step)
    requires d.ReserveTx? ==> d.rid != p.rid
    ensures var t := OthersDo(p, s, d);
      && t == s.(db := DbRuns.Apply(s.db, d), touched := t.touched)
      && (t.touched <==>
            s.touched || exists i :: 0 <= i < |s.db.rows| && s.db.rows[i].rid == p.rid && t.db.rows[i] != s.db.rows[i])
  {
    if r :| d.ReleaseWhere? && r in s.db.rows && r.rid == p.rid && Matches(d.f, r) {
      var i :| 0 <= i < |s.db.rows| && s.db.rows[i] == r;
      assert OthersDo(p, s, d).db.rows[i] == ReleaseRow(d.f, r) != r;
    }
  }

  function Slots(p: Plan): real { SlotsNeeded(p.vehicle) }

  function GroupFailure(p: Plan, db: DB, i: nat): Option<FailedSegment>
    requires i < |p.groups|
  {
    FirstFailure(db, p.groups[i], Slots(p), p.priority)
  }

  function InsertGroup(p: Plan, db: DB, i: nat): DB
    requires i < |p.groups|
  {
    db.(rows := db.rows + NewRows(p.rid, p.jid, p.groups[i], Slots(p), p.priority))
  }

  function Recorded(p: Plan, n: nat): (steps: seq<RegionStep>)
    ensures |steps| == n && forall i :: 0 <= i < n ==> steps[i].rid == p.rid
  {
    seq(n, i requires 0 <= i < n => RegionStep(i, p.rid))
  }

  predicate Stopped(c: Coordinator) { c.at.Returned? || c.at.Crashed? }

  /** The release calls go on until every reserved step has had one; an error is not cached. */
  function NextRelease(c: Coordinator, next: nat, reply: Reply): Label {
    if reply != Accepted && next < c.reserved then Release(next, reply)
    else if reply == SystemError then Returned(reply)
    else Cache(reply)
  }

  ghost function OthersDo(p: Plan, s: State, d: DbRuns.Step): State {
    if ByOthers(p, d) then s.(db := DbRuns.Apply(s.db, d), touched := s.touched || Touches(p, s.db.rows, d)) else s
  }

  function CoordinatorDoes(p: Plan, s: State, e: CoordinatorEvent): State {
    var c := s.c;
    match e
    case CreateRow(ok) =>
      if c.at != Create then s
      else if s.row.Some? || !ok then s.(c := c.(at := Returned(SystemError)))
      else s.(row := Some(SagaRow(Pending, [])), c := c.(at := Region))
    case RegionTx =>
      if c.at != Region || c.reserved >= |p.groups| then s
      else
        (match GroupFailure(p, s.db, c.reserved)
         case None => s.(db := InsertGroup(p, s.db, c.reserved), c := c.(at := WriteStep, reserved := c.reserved + 1))
         case Some(f) => s.(c := c.(at := Mark(Compensated, Rejected(f)))))
    case RegionError(committed) =>
      if c.at != Region || c.reserved >= |p.groups| then s
      else if committed && GroupFailure(p, s.db, c.reserved).None? then
        s.(db := InsertGroup(p, s.db, c.reserved), c := c.(at := Mark(Failed, SystemError), errorCommitted := true))
      else s.(c := c.(at := Mark(Failed, SystemError)))
    case StepWrite(written) =>
      if c.at != WriteStep then s
      else
        var at := if c.reserved < |p.groups| then Region else Mark(Committed, Accepted);
        Write(p, s, written, Pending).(c := c.(at := at, lostWrite := c.lostWrite || !written))
    case StatusWrite(written) =>
      if !c.at.Mark? then s
      else Write(p, s, written, c.at.status).(c := c.(at := NextRelease(c, 0, c.at.reply)))
    case ReleaseCall(ok) =>
      if !c.at.Release? then s
      else
        var after := s.(c := c.(at := NextRelease(c, c.at.next + 1, c.at.reply), released := c.released || ok));
        if ok then after.(db := Free(s.db, p.rid)) else after
    case CacheWrite(written) =>
      if !c.at.Cache? then s
      else s.(cached := s.cached || written, c := c.(at := Returned(c.at.reply)))
    case Crash => if Stopped(c) then s else s.(c := c.(at := Crashed))
  }

  /** The coordinator has stopped and no other attempt is at work. */
  predicate Quiet(s: State) { Stopped(s.c) && s.missed == 0 && s.recoveries == [] }

  function Without(recoveries: seq<Recovery>, k: nat): seq<Recovery>
    requires k < |recoveries|
  {
    recoveries[..k] + recoveries[k + 1..]
  }

  /**
   Other attempts with the key. Each reads the cache first and the saga later, so it may find a saga PENDING whose
   reply has been cached since; finding none, or another status, it has nothing to release.
   With serial set, an attempt arrives only when no other one is at work.
   */
  function RecoveryDoes(s: State, e: RecoveryEvent, serial: bool): State {
    match e
    case MissesCache => if s.cached || (serial && !Quiet(s)) then s else s.(missed := s.missed + 1)
    case LeavesEarly => if s.missed == 0 then s else s.(missed := s.missed - 1)
    case FindsSaga =>
      if s.missed == 0 then s
      else if s.row.Some? && s.row.value.status == Pending then
        s.(missed := s.missed - 1, recoveries := s.recoveries + [Recovery(s.row.value.steps, 0)])
      else s.(missed := s.missed - 1)
    case RecoveryRelease(k, ok) =>
      if k >= |s.recoveries| || s.recoveries[k].next >= |s.recoveries[k].steps| then s
      else
        var r := s.recoveries[k];
        var after := s.(recoveries := s.recoveries[k := r.(next := r.next + 1)]);
        if ok then after.(db := Free(s.db, r.steps[r.next].rid), recovered := true) else after
    case RecoveryMark(k, written) =>
      if k >= |s.recoveries| || s.recoveries[k].next < |s.recoveries[k].steps| then s
      else
        var after := s.(recoveries := Without(s.recoveries, k));
        if written && s.row.Some? then after.(row := Some(SagaRow(Compensated, s.recoveries[k].steps))) else after
    case RecoveryCrash(k) => if k >= |s.recoveries| then s else s.(recoveries := Without(s.recoveries, k))
  }

  /** One event; an event that is not enabled changes nothing. */
  ghost function Do(p: Plan, s: State, e: Event, serial: bool): State {
    match e
    case Others(d) => OthersDo(p, s, d)
    case Coordinates(ce) => CoordinatorDoes(p, s, ce)
    case Recovers(re) => RecoveryDoes(s, re, serial)
  }

  /** UpdateStepsAndStatus with the coordinator's list of reserved steps. */
  function Write(p: Plan, s: State, written: bool, status: SagaStatus): State {
    if written && s.row.Some? then s.(row := Some(SagaRow(status, Recorded(p, s.c.reserved)))) else s
  }

  /** ReleaseByReservationID. */
  function Free(db: DB, rid: string): DB {
    db.(rows := Tables.Release(db.rows, OfReservation(rid)))
  }

  ghost function Run(p: Plan, s: State, es: seq<Event>, serial: bool): State
    decreases |es|
  {
    if es == [] then s else Run(p, Do(p, s, es[0], serial), es[1..], serial)
  }

  ghost predicate Init(p: Plan, s: State) {
    && FreshReservation(s.db.rows, p.rid) && s.row.None? && !s.cached
    && s.c == Coordinator(Create, 0, false, false, false)
    && s.missed == 0 && s.recoveries == [] && !s.recovered && !s.touched
  }

  // ---------------------------------------------------------------------------
  // The rows of a reservation id
  // ---------------------------------------------------------------------------

  lemma ReleaseByIdFreesAll(rows: seq<Row>, rid: string)
    ensures NoneActive(Tables.Release(rows, OfReservation(rid)), rid)
  {
    var after := Tables.Release(rows, OfReservation(rid));
    forall r | r in after && r.rid == rid ensures r.status == Status.Released {
      var i :| 0 <= i < |after| && after[i] == r;
      assert after[i] == ReleaseRow(OfReservation(rid), rows[i]);
    }
  }

  /** What a step of somebody else does to this saga's rows: nothing, unless it touches them. */
  lemma OthersKeepOwnRows(p: Plan, db: DB, d: DbRuns.Step)
    requires ByOthers(p, d)
    ensures var after := DbRuns.Apply(db, d);
      && WindowsOf(after.rows, p.rid) == WindowsOf(db.rows, p.rid)
      && (NoneActive(db.rows, p.rid) ==> NoneActive(after.rows, p.rid))
      && (AllActive(db.rows, p.rid) && !Touches(p, db.rows, d) ==> AllActive(after.rows, p.rid))
  {
    match d
    case ReserveTx(rid, jid, windows, vehicle, priority) =>
      var slots := SlotsNeeded(vehicle);
      var more := NewRows(rid, jid, windows, slots, priority);
      WindowsOfConcat(db.rows, more, p.rid);
      WindowsOfNewRows(rid, p.rid, jid, windows, slots, priority);
      assert forall r :: r in more ==> r.rid != p.rid;
    case ReleaseWhere(f) =>
      WindowsOfReleased(db.rows, f, p.rid);
      var after := Tables.Release(db.rows, f);
      forall r | r in after && r.rid == p.rid
        ensures NoneActive(db.rows, p.rid) ==> r.status == Status.Released
        ensures AllActive(db.rows, p.rid) && !Touches(p, db.rows, d) ==> r.status == Active
      {
        var i :| 0 <= i < |after| && after[i] == r;
        assert after[i] == ReleaseRow(f, db.rows[i]) && db.rows[i] in db.rows;
      }
    case _ =>
  }

  // ---------------------------------------------------------------------------
  // The invariant
  // ---------------------------------------------------------------------------

  /** How many regional transactions have committed, whatever the coordinator believes. */
  function CommittedRegions(c: Coordinator): nat {
    c.reserved + if c.errorCommitted then 1 else 0
  }

  ghost predicate RowsInv(p: Plan, s: State) {
    && CommittedRegions(s.c) <= |p.groups|
    && WindowsOf(s.db.rows, p.rid) == R.Flatten(p.groups[..CommittedRegions(s.c)])
    && (s.c.released || s.recovered ==> NoneActive(s.db.rows, p.rid))
    && (!s.c.released && !s.recovered && !s.touched ==> AllActive(s.db.rows, p.rid))
  }

  ghost predicate ControlInv(p: Plan, s: State) {
    var c := s.c;
    && (c.released ==> c.at.Release? || c.at.Cache? || c.at.Returned? || c.at.Crashed?)
    && (c.errorCommitted ==>
          Stopped(c) || ((c.at.Mark? || c.at.Release?) && c.at.reply == SystemError))
    && (s.recovered || s.missed > 0 || s.recoveries != [] ==> Stopped(c))
    && (c.at in {Mark(Committed, Accepted), Cache(Accepted), Returned(Accepted)} ==>
          c.reserved == |p.groups| && !c.released && !c.errorCommitted)
    && (c.at.Release? ==> c.at.reply != Accepted)
    && (c.at.Mark? ==> (c.at.reply == Accepted <==> c.at.status == Committed))
    && (c.at == Create ==> c.reserved == 0)
    && (s.cached ==> c.at.Returned?)
  }

  /** While attempts follow one another, a saga that is marked or cached is out of reach of any recovery. */
  ghost predicate AttemptsInv(s: State) {
    && s.missed + |s.recoveries| <= 1
    && (s.missed > 0 || s.recoveries != [] || s.recovered ==> !s.cached)
    && (s.row.Some? && s.row.value.status == Committed ==> s.recoveries == [] && !s.recovered)
    && (s.recoveries != [] ==>
          s.row.Some? && s.row.value.status == Pending && s.recoveries[0].steps == s.row.value.steps)
  }

  ghost predicate RowInv(p: Plan, s: State) {
    && (s.row.None? ==> s.c.reserved == 0 && !s.c.errorCommitted && (s.c.at == Create || Stopped(s.c)))
    && (s.row.Some? ==>
          var steps := s.row.value.steps;
          && s.c.at != Create
          && (forall i :: 0 <= i < |steps| ==> steps[i].rid == p.rid)
          && |steps| <= s.c.reserved
          && (!s.c.lostWrite ==> s.c.reserved <= |steps| + 1)
          && (!s.c.lostWrite && s.c.at != WriteStep && !s.c.at.Crashed? ==> s.c.reserved == |steps|)
          && (!s.c.lostWrite && s.c.errorCommitted ==> s.c.reserved == |steps|)
          && (s.row.value.status == Committed ==> s.c.reserved == |p.groups|))
  }

  ghost predicate Inv(p: Plan, s: State) {
    RowsInv(p, s) && ControlInv(p, s) && RowInv(p, s) && AttemptsInv(s)
  }

  lemma {:induction false} FlattenOneMore(groups: seq<seq<Window>>, i: nat)
    requires i < |groups|
    ensures R.Flatten(groups[..i + 1]) == R.Flatten(groups[..i]) + groups[i]
  {
    assert groups[..i + 1] == groups[..i] + [groups[i]];
    S.FlattenOfConcat(groups[..i], [groups[i]]);
    assert R.Flatten([groups[i]]) == groups[i] + R.Flatten([]);
  }

  lemma InsertGroupKeepsRows(p: Plan, db: DB, i: nat)
    requires i < |p.groups| && WindowsOf(db.rows, p.rid) == R.Flatten(p.groups[..i])
    ensures var after := InsertGroup(p, db, i);
      && WindowsOf(after.rows, p.rid) == R.Flatten(p.groups[..i + 1])
      && (AllActive(db.rows, p.rid) ==> AllActive(after.rows, p.rid))
  {
    var more := NewRows(p.rid, p.jid, p.groups[i], Slots(p), p.priority);
    WindowsOfConcat(db.rows, more, p.rid);
    WindowsOfNewRows(p.rid, p.rid, p.jid, p.groups[i], Slots(p), p.priority);
    FlattenOneMore(p.groups, i);
  }

  lemma OthersKeepInv(p: Plan, s: State, d: DbRuns.Step)
    requires Inv(p, s)
    ensures Inv(p, OthersDo(p, s, d))
  {
    if ByOthers(p, d) {
      OthersKeepOwnRows(p, s.db, d);
    }
  }

  lemma FreeKeepsRows(db: DB, rid: string)
    ensures WindowsOf(Free(db, rid).rows, rid) == WindowsOf(db.rows, rid)
    ensures NoneActive(Free(db, rid).rows, rid)
  {
    ReleaseByIdFreesAll(db.rows, rid);
    WindowsOfReleased(db.rows, OfReservation(rid), rid);
  }

  lemma RegionKeepsRows(p: Plan, s: State, e: CoordinatorEvent)
    requires RowsInv(p, s) && ControlInv(p, s) && s.c.at == Region && s.c.reserved < |p.groups|
    requires e.RegionTx? || e.RegionError?
    ensures RowsInv(p, CoordinatorDoes(p, s, e))
  {
    RowsAfterRegion(p, s, CoordinatorDoes(p, s, e));
  }

  /** The region is inserted and counted, or neither. */
  lemma RowsAfterRegion(p: Plan, s: State, t: State)
    requires RowsInv(p, s) && s.c.reserved < |p.groups| && !s.c.released && !s.recovered && !s.c.errorCommitted
    requires t.c.released == s.c.released && t.recovered == s.recovered && t.touched == s.touched
    requires
      || (t.db == s.db && CommittedRegions(t.c) == CommittedRegions(s.c))
      || (t.db == InsertGroup(p, s.db, s.c.reserved) && CommittedRegions(t.c) == s.c.reserved + 1)
    ensures RowsInv(p, t)
  {
    InsertGroupKeepsRows(p, s.db, s.c.reserved);
  }

  lemma CoordinatorKeepsRows(p: Plan, s: State, e: CoordinatorEvent)
    requires RowsInv(p, s) && ControlInv(p, s)
    ensures RowsInv(p, CoordinatorDoes(p, s, e))
  {
    match e
    case RegionTx =>
      if s.c.at == Region && s.c.reserved < |p.groups| {
        RegionKeepsRows(p, s, e);
      }
    case RegionError(committed) =>
      if s.c.at == Region && s.c.reserved < |p.groups| {
        RegionKeepsRows(p, s, e);
      }
    case ReleaseCall(ok) =>
      FreeKeepsRows(s.db, p.rid);
    case _ =>
  }

  lemma CoordinatorKeepsControl(p: Plan, s: State, e: CoordinatorEvent)
    requires ControlInv(p, s) && s.c.reserved <= |p.groups|
    ensures ControlInv(p, CoordinatorDoes(p, s, e))
  {
  }

  lemma CoordinatorKeepsRow(p: Plan, s: State, e: CoordinatorEvent)
    requires ControlInv(p, s) && RowInv(p, s) && AttemptsInv(s)
    ensures RowInv(p, CoordinatorDoes(p, s, e)) && AttemptsInv(CoordinatorDoes(p, s, e))
  {
    match e
    case CacheWrite(written) =>
    case CreateRow(ok) =>
    case RegionTx =>
    case RegionError(committed) =>
    case StepWrite(written) =>
    case StatusWrite(written) =>
    case ReleaseCall(ok) =>
    case Crash =>
  }

  /** What a recovery event can do to the tables. */
  lemma RecoveryTables(p: Plan, s: State, e: RecoveryEvent)
    requires RowInv(p, s) && AttemptsInv(s)
    ensures var t := RecoveryDoes(s, e, true);
      && t.c == s.c && t.touched == s.touched
      && ((t.db == s.db && t.recovered == s.recovered) || (t.db == Free(s.db, p.rid) && t.recovered))
  {
    if e.RecoveryRelease? && e.k < |s.recoveries| && s.recoveries[e.k].next < |s.recoveries[e.k].steps| {
      assert s.recoveries[e.k].steps[s.recoveries[e.k].next].rid == p.rid;
    }
  }

  lemma RecoveryKeepsControl(p: Plan, s: State, e: RecoveryEvent)
    requires ControlInv(p, s) && RowInv(p, s) && AttemptsInv(s)
    ensures var t := RecoveryDoes(s, e, true); ControlInv(p, t) && RowInv(p, t) && AttemptsInv(t)
  {
    match e
    case MissesCache =>
    case LeavesEarly =>
    case FindsSaga =>
    case RecoveryRelease(k, ok) =>
    case RecoveryMark(k, written) =>
    case RecoveryCrash(k) =>
  }

  lemma RecoveryKeepsInv(p: Plan, s: State, e: RecoveryEvent)
    requires Inv(p, s)
    ensures Inv(p, RecoveryDoes(s, e, true))
  {
    RecoveryKeepsControl(p, s, e);
    RecoveryTables(p, s, e);
    FreeKeepsRows(s.db, p.rid);
  }

  lemma {:induction false} RunKeepsInv(p: Plan, s: State, es: seq<Event>)
    requires Inv(p, s)
    ensures Inv(p, Run(p, s, es, true))
    decreases |es|
  {
    if es != [] {
      match es[0] {
        case Others(d) =>
          OthersKeepInv(p, s, d);
        case Coordinates(ce) =>
          CoordinatorKeepsRows(p, s, ce);
          CoordinatorKeepsControl(p, s, ce);
          CoordinatorKeepsRow(p, s, ce);
        case Recovers(re) =>
          RecoveryKeepsInv(p, s, re);
      }
      RunKeepsInv(p, Do(p, s, es[0], true), es[1..]);
    }
  }

  lemma InitHasInv(p: Plan, s: State)
    requires Init(p, s)
    ensures Inv(p, s)
  {
    NoWindowsNoRows(s.db.rows, p.rid);
    assert p.groups[..0] == [];
  }

  // ---------------------------------------------------------------------------
  // Atomicity
  // ---------------------------------------------------------------------------

  /**
   Accepted means complete. Whatever ran in between, the rows under the reservation id
   are one for each requested window, in order; and unless somebody else has released
   one, all are active exactly when no recovery has released any, and always once the saga is
   marked COMMITTED or its reply is cached.
   */
  lemma AcceptedIsComplete(p: Plan, init: State, es: seq<Event>)
    requires Init(p, init)
    ensures var s := Run(p, init, es, true);
      s.c.at == Returned(Accepted) ==>
        && WindowsOf(s.db.rows, p.rid) == R.Flatten(p.groups)
        && (!s.touched && (s.cached || (s.row.Some? && s.row.value.status == Committed))
            ==> AllActive(s.db.rows, p.rid))
        && (!s.touched && R.Flatten(p.groups) != [] ==> (AllActive(s.db.rows, p.rid) <==> !s.recovered))
  {
    InitHasInv(p, init);
    RunKeepsInv(p, init, es);
    assert p.groups[..|p.groups|] == p.groups;
    NoWindowsNoRows(Run(p, init, es, true).db.rows, p.rid);
  }

  /**
   Not accepted means nothing is left, exactly when a release call succeeded or no
   regional transaction had committed; this counts the one that reported an error.
   */
  lemma NotAcceptedLeavesNothing(p: Plan, init: State, es: seq<Event>)
    requires Init(p, init) && forall g :: g in p.groups ==> g != []
    ensures var s := Run(p, init, es, true);
      s.c.at.Returned? && s.c.at.reply != Accepted && !s.recovered ==>
        && (s.c.released || CommittedRegions(s.c) == 0 ==> NoneActive(s.db.rows, p.rid))
        && (!s.touched && NoneActive(s.db.rows, p.rid) ==> s.c.released || CommittedRegions(s.c) == 0)
  {
    InitHasInv(p, init);
    RunKeepsInv(p, init, es);
    var s := Run(p, init, es, true);
    var n := CommittedRegions(s.c);
    NoWindowsNoRows(s.db.rows, p.rid);
    if n == 0 {
      assert p.groups[..0] == [];
    } else {
      assert p.groups[0] in p.groups;
      assert p.groups[..n][0] == p.groups[0];
      assert R.Flatten(p.groups[..n]) != [];
    }
  }

  // ---------------------------------------------------------------------------
  // Unrecorded regions
  // ---------------------------------------------------------------------------

  /**
   What a recovery cannot see. If no step write was lost, at most one region beyond the
   recorded steps has committed; so with no step recorded all rows of the saga lie in
   the first region of the order.
   */
  lemma UnrecordedRowsLieInOneRegion(p: Plan, init: State, es: seq<Event>)
    requires Init(p, init)
    ensures var s := Run(p, init, es, true);
      && (s.row.None? ==> WindowsOf(s.db.rows, p.rid) == [])
      && (s.row.Some? && !s.c.lostWrite ==>
            exists n :: 0 <= n <= |s.row.value.steps| + 1 && n <= |p.groups|
                     && WindowsOf(s.db.rows, p.rid) == R.Flatten(p.groups[..n]))
      && (s.row.Some? && !s.c.lostWrite && s.row.value.steps == [] && p.groups != [] ==>
            WindowsOf(s.db.rows, p.rid) == [] || WindowsOf(s.db.rows, p.rid) == p.groups[0])
  {
    InitHasInv(p, init);
    RunKeepsInv(p, init, es);
    var s := Run(p, init, es, true);
    var n := CommittedRegions(s.c);
    assert WindowsOf(s.db.rows, p.rid) == R.Flatten(p.groups[..n]);
    assert p.groups[..0] == [];
    if p.groups != [] {
      FlattenOneMore(p.groups, 0);
      assert [] + p.groups[0] == p.groups[0];
    }
  }
}
