/**
 Whether a saga that was accepted keeps its slots: the exact condition, for any number of
 regions and whether or not attempts with its key overlap; and the runs that break it.
 */
module AcceptedSagas {
  import opened Tables
  import opened Admission
  import opened Wrappers
  import opened SagaRuns
  import opened OverlappingAttempts
  import DbRuns
  import R = Regions

  // ---------------------------------------------------------------------------
  // The exact condition
  // ---------------------------------------------------------------------------

  /**
   No recovery can release a row any more: those under way have made all their calls, and
   no attempt can still find steps of a PENDING saga, since there are none to find, or the
   reply is cached and no attempt has missed it before.
   */
  predicate OutOfReach(s: State) {
    && (forall r :: r in s.recoveries ==> r.next >= |r.steps|)
    && (s.row.None? || s.row.value.status != Pending || s.row.value.steps == [] || (s.cached && s.missed == 0))
  }

  /** Whatever happens later, all rows stay active unless somebody else releases one. */
  ghost predicate KeepsRows(p: Plan, s: State, serial: bool) {
    forall later :: !Run(p, s, later, serial).touched ==> AllActive(Run(p, s, later, serial).db.rows, p.rid)
  }

  lemma OutOfReachStays(p: Plan, s: State, e: Event, serial: bool)
    requires Stopped(s.c) && OutOfReach(s) && (s.touched || AllActive(s.db.rows, p.rid))
    ensures var t := Do(p, s, e, serial);
      Stopped(t.c) && OutOfReach(t) && (t.touched || AllActive(t.db.rows, p.rid))
  {
    match e
    case Others(d) =>
      if ByOthers(p, d) {
        OthersKeepOwnRows(p, s.db, d);
      }
    case Coordinates(ce) =>
    case Recovers(re) => RecoveryOutOfReach(s, re, serial);
  }

  lemma RecoveryOutOfReach(s: State, e: RecoveryEvent, serial: bool)
    requires OutOfReach(s)
    ensures var t := RecoveryDoes(s, e, serial); OutOfReach(t) && t.db == s.db
  {
    match e
    case MissesCache =>
    case LeavesEarly =>
    case FindsSaga =>
    case RecoveryRelease(k, ok) =>
      if k < |s.recoveries| {
        assert s.recoveries[k] in s.recoveries;
      }
    case RecoveryMark(k, written) =>
    case RecoveryCrash(k) =>
  }

  lemma {:induction false} OutOfReachForever(p: Plan, s: State, later: seq<Event>, serial: bool)
    requires Stopped(s.c) && OutOfReach(s) && (s.touched || AllActive(s.db.rows, p.rid))
    ensures var t := Run(p, s, later, serial); t.touched || AllActive(t.db.rows, p.rid)
    decreases |later|
  {
    if later != [] {
      OutOfReachStays(p, s, later[0], serial);
      OutOfReachForever(p, Do(p, s, later[0], serial), later[1..], serial);
    }
  }

  /** With attempts in sequence there is at most one besides the coordinator. */
  predicate Sparse(s: State) { s.missed + |s.recoveries| <= 1 }

  /** One more attempt misses the cache; it may have to wait until a spent recovery is gone. */
  lemma AnotherAttempt(p: Plan, s: State, serial: bool) returns (es: seq<Event>)
    requires Stopped(s.c) && (serial ==> Sparse(s)) && (s.missed > 0 || !s.cached)
    ensures var t := Run(p, s, es, serial);
      && t.missed > 0 && t.c == s.c && t.db == s.db && t.row == s.row && t.touched == s.touched
  {
    if s.missed > 0 {
      es := [];
    } else if serial && s.recoveries != [] {
      es := [Recovers(RecoveryCrash(0)), Recovers(MissesCache)];
      RunOfTwo(p, s, es[0], es[1], serial);
    } else {
      es := [Recovers(MissesCache)];
      assert Run(p, s, es, serial) == Do(p, s, es[0], serial) by {
        Unroll(p, s, es[0], [], serial);
        assert [es[0]] + [] == es;
      }
    }
  }

  /** An attempt that has missed the cache finds a recorded step, and one successful call frees every row. */
  lemma LookupFrees(p: Plan, s: State, serial: bool)
    requires s.missed > 0 && s.row.Some? && s.row.value.status == Pending && s.row.value.steps != []
    requires s.row.value.steps[0].rid == p.rid
    ensures Run(p, s, LookupAndRelease(|s.recoveries|), serial)
         == s.(missed := s.missed - 1, recoveries := s.recoveries + [Recovery(s.row.value.steps, 1)],
               db := Free(s.db, p.rid), recovered := true)
    ensures NoneActive(Free(s.db, p.rid).rows, p.rid)
    ensures WindowsOf(Free(s.db, p.rid).rows, p.rid) == WindowsOf(s.db.rows, p.rid)
  {
    var k := |s.recoveries|;
    RunOfTwo(p, s, Recovers(FindsSaga), Recovers(RecoveryRelease(k, true)), serial);
    FreeKeepsRows(s.db, p.rid);
  }

  function LookupAndRelease(k: nat): seq<Event> { [Recovers(FindsSaga), Recovers(RecoveryRelease(k, true))] }

  /** Within reach, one recovery with one successful call frees every row. */
  lemma WithinReachLoses(p: Plan, s: State, serial: bool) returns (later: seq<Event>)
    requires Progress(p, s) && Stopped(s.c) && !OutOfReach(s) && (serial ==> Sparse(s))
    ensures var t := Run(p, s, later, serial);
      && t.touched == s.touched && NoneActive(t.db.rows, p.rid)
      && WindowsOf(t.db.rows, p.rid) == WindowsOf(s.db.rows, p.rid)
  {
    if k :| 0 <= k < |s.recoveries| && s.recoveries[k].next < |s.recoveries[k].steps| {
      later := [Recovers(RecoveryRelease(k, true))];
      Unroll(p, s, later[0], [], serial);
      assert [later[0]] + [] == later && s.recoveries[k] in s.recoveries;
      FreeKeepsRows(s.db, p.rid);
    } else {
      var es := AnotherAttempt(p, s, serial);
      var t := Run(p, s, es, serial);
      LookupFrees(p, t, serial);
      later := es + LookupAndRelease(|t.recoveries|);
      RunOfConcat(p, s, es, LookupAndRelease(|t.recoveries|), serial);
    }
  }

  lemma {:induction false} RunOfConcat(p: Plan, s: State, a: seq<Event>, b: seq<Event>, serial: bool)
    ensures Run(p, s, a + b, serial) == Run(p, Run(p, s, a, serial), b, serial)
    decreases |a|
  {
    if a == [] {
      assert a + b == b;
    } else {
      assert (a + b)[1..] == a[1..] + b;
      RunOfConcat(p, Do(p, s, a[0], serial), a[1..], b, serial);
    }
  }

  lemma KeepsRowsExactly(p: Plan, s: State, serial: bool)
    requires Progress(p, s) && Stopped(s.c) && (serial ==> Sparse(s))
    requires !s.touched && AllActive(s.db.rows, p.rid) && WindowsOf(s.db.rows, p.rid) != []
    ensures KeepsRows(p, s, serial) <==> OutOfReach(s)
  {
    if OutOfReach(s) {
      forall later | !Run(p, s, later, serial).touched ensures AllActive(Run(p, s, later, serial).db.rows, p.rid) {
        OutOfReachForever(p, s, later, serial);
      }
    } else {
      var later := WithinReachLoses(p, s, serial);
      NoWindowsNoRows(Run(p, s, later, serial).db.rows, p.rid);
    }
  }

  lemma NonEmptyGroups(groups: seq<seq<Window>>)
    requires groups != [] && forall g :: g in groups ==> g != []
    ensures R.Flatten(groups) != []
  {
    assert groups[0] in groups;
  }

  /**
   An accepted saga keeps its slots, exactly. Any number of attempts with its key may overlap,
   and any number of regions may be involved: a saga that has answered 201 and holds all
   its rows keeps them in every continuation iff no recovery can reach it.
   */
  lemma AcceptedKeepsRowsExactly(p: Plan, init: State, es: seq<Event>, serial: bool)
    requires Init(p, init) && p.groups != [] && forall g :: g in p.groups ==> g != []
    requires var s := Run(p, init, es, serial);
      s.c.at == Returned(Accepted) && !s.touched && AllActive(s.db.rows, p.rid)
    ensures var s := Run(p, init, es, serial); KeepsRows(p, s, serial) <==> OutOfReach(s)
  {
    InitProgresses(p, init);
    RunProgresses(p, init, es, serial);
    assert p.groups[..|p.groups|] == p.groups;
    NonEmptyGroups(p.groups);
    if serial {
      InitHasInv(p, init);
      RunKeepsInv(p, init, es);
    }
    KeepsRowsExactly(p, Run(p, init, es, serial), serial);
  }

  /**
   When attempts follow one another, that means: its reply is cached, its row is no longer
   PENDING, or no step of it was ever recorded.
   */
  lemma SerialAcceptedKeepsRowsExactly(p: Plan, init: State, es: seq<Event>)
    requires Init(p, init) && p.groups != [] && forall g :: g in p.groups ==> g != []
    requires var s := Run(p, init, es, true); s.c.at == Returned(Accepted) && !s.touched && !s.recovered
    ensures var s := Run(p, init, es, true);
      s.row.Some? && (KeepsRows(p, s, true) <==> s.cached || s.row.value.status != Pending || s.row.value.steps == [])
  {
    InitHasInv(p, init);
    RunKeepsInv(p, init, es);
    AcceptedKeepsRowsExactly(p, init, es, true);
  }

  // ---------------------------------------------------------------------------
  // Runs that break it
  // ---------------------------------------------------------------------------

  lemma Unroll(p: Plan, s: State, e: Event, es: seq<Event>, serial: bool)
    ensures Run(p, s, [e] + es, serial) == Run(p, Do(p, s, e, serial), es, serial)
  {
    assert ([e] + es)[1..] == es;
  }

  lemma RunOfAppended(p: Plan, s: State, es: seq<Event>, e: Event, serial: bool)
    ensures Run(p, s, es + [e], serial) == Do(p, Run(p, s, es, serial), e, serial)
  {
    RunOfConcat(p, s, es, [e], serial);
    Unroll(p, Run(p, s, es, serial), e, [], serial);
    assert [e] + [] == [e];
  }

  /** The coordinator has yet to begin; other attempts may have missed the cache. */
  ghost predicate AtStart(p: Plan, s: State) {
    FreshReservation(s.db.rows, p.rid) && s.row.None? && s.c == Coordinator(Create, 0, false, false, false)
  }

  /** The tables with the first n groups inserted. */
  function InsertedUpTo(p: Plan, db: DB, n: nat): DB
    requires n <= |p.groups|
  {
    if n == 0 then db else InsertGroup(p, InsertedUpTo(p, db, n - 1), n - 1)
  }

  /** Every region has room for its group, the earlier groups inserted. */
  ghost predicate EveryRegionHasRoom(p: Plan, db: DB) {
    forall i :: 0 <= i < |p.groups| ==> GroupFailure(p, InsertedUpTo(p, db, i), i).None?
  }

  /** The creation of the saga, then n regional transactions with their step writes. */
  function Forward(n: nat): seq<Event> {
    if n == 0 then [Coordinates(CreateRow(true))]
    else Forward(n - 1) + [Coordinates(RegionTx)] + [Coordinates(StepWrite(true))]
  }

  lemma {:induction false} ForwardRun(p: Plan, init: State, n: nat, serial: bool)
    requires AtStart(p, init) && EveryRegionHasRoom(p, init.db) && n < |p.groups|
    ensures Run(p, init, Forward(n), serial)
         == init.(db := InsertedUpTo(p, init.db, n), row := Some(SagaRow(Pending, Recorded(p, n))),
                  c := Coordinator(Region, n, false, false, false))
    decreases n
  {
    if n == 0 {
      Unroll(p, init, Coordinates(CreateRow(true)), [], serial);
      assert [Coordinates(CreateRow(true))] + [] == Forward(0);
    } else {
      ForwardRun(p, init, n - 1, serial);
      var region, write := Coordinates(RegionTx), Coordinates(StepWrite(true));
      RunOfAppended(p, init, Forward(n - 1), region, serial);
      RunOfAppended(p, init, Forward(n - 1) + [region], write, serial);
    }
  }

  lemma {:induction false} InsertedWindows(p: Plan, db: DB, n: nat)
    requires FreshReservation(db.rows, p.rid) && n <= |p.groups|
    ensures WindowsOf(InsertedUpTo(p, db, n).rows, p.rid) == R.Flatten(p.groups[..n])
  {
    if n == 0 {
      NoWindowsNoRows(db.rows, p.rid);
      assert p.groups[..0] == [];
    } else {
      InsertedWindows(p, db, n - 1);
      InsertGroupKeepsRows(p, InsertedUpTo(p, db, n - 1), n - 1);
    }
  }

  /** All regional transactions of a saga in an otherwise quiet system, up to the last step write. */
  function AllRegions(p: Plan): seq<Event>
    requires p.groups != []
  {
    Forward(|p.groups| - 1) + [Coordinates(RegionTx)]
  }

  lemma AllRegionsCommit(p: Plan, init: State, serial: bool) returns (s: State)
    requires AtStart(p, init) && EveryRegionHasRoom(p, init.db) && p.groups != []
    ensures s == Run(p, init, AllRegions(p), serial)
    ensures s == init.(db := InsertedUpTo(p, init.db, |p.groups|),
                       row := Some(SagaRow(Pending, Recorded(p, |p.groups| - 1))),
                       c := Coordinator(WriteStep, |p.groups|, false, false, false))
    ensures WindowsOf(s.db.rows, p.rid) == R.Flatten(p.groups)
  {
    var n := |p.groups| - 1;
    ForwardRun(p, init, n, serial);
    RunOfAppended(p, init, Forward(n), Coordinates(RegionTx), serial);
    s := Run(p, init, AllRegions(p), serial);
    InsertedWindows(p, init.db, |p.groups|);
    assert p.groups[..|p.groups|] == p.groups;
  }

  /** The last step write, the mark COMMITTED and the cache entry; the last two may be lost. */
  function FinalWrites(marked: bool, cached: bool): seq<Event> {
    [Coordinates(StepWrite(true)), Coordinates(StatusWrite(marked)), Coordinates(CacheWrite(cached))]
  }

  lemma SagaReturns(p: Plan, s0: State, marked: bool, cached: bool, serial: bool) returns (s: State)
    requires s0.c == Coordinator(WriteStep, |p.groups|, false, false, false) && s0.row.Some?
    ensures s == Run(p, s0, FinalWrites(marked, cached), serial)
    ensures s == s0.(cached := s0.cached || cached, c := s0.c.(at := Returned(Accepted)),
                     row := Some(SagaRow(if marked then Committed else Pending, Recorded(p, |p.groups|))))
  {
    var write, mark := Coordinates(StepWrite(true)), Coordinates(StatusWrite(marked));
    var cache := Coordinates(CacheWrite(cached));
    Unroll(p, s0, write, [mark, cache], serial);
    var s1 := Do(p, s0, write, serial);
    Unroll(p, s1, mark, [cache], serial);
    var s2 := Do(p, s1, mark, serial);
    Unroll(p, s2, cache, [], serial);
    s := Do(p, s2, cache, serial);
    assert [write] + [mark, cache] == FinalWrites(marked, cached);
    assert [mark] + [cache] == [mark, cache] && [cache] + [] == [cache];
  }

  /** What another attempt does that misses the cache, finds a recorded step and frees the rows. */
  function WholeRecovery(k: nat): seq<Event> { [Recovers(MissesCache)] + LookupAndRelease(k) }

  lemma RecoveryFrees(p: Plan, s0: State, serial: bool) returns (s: State)
    requires s0.row.Some? && s0.row.value.status == Pending && s0.row.value.steps != [] && !s0.cached
    requires s0.row.value.steps[0].rid == p.rid && (serial ==> Quiet(s0))
    ensures s == Run(p, s0, WholeRecovery(|s0.recoveries|), serial)
    ensures s == s0.(db := Free(s0.db, p.rid), recovered := true,
                     recoveries := s0.recoveries + [Recovery(s0.row.value.steps, 1)])
    ensures NoneActive(s.db.rows, p.rid) && WindowsOf(s.db.rows, p.rid) == WindowsOf(s0.db.rows, p.rid)
  {
    Unroll(p, s0, Recovers(MissesCache), LookupAndRelease(|s0.recoveries|), serial);
    LookupFrees(p, s0.(missed := s0.missed + 1), serial);
    s := Run(p, s0, WholeRecovery(|s0.recoveries|), serial);
  }

  /**
   Attempts with one key must not overlap. For every saga of two or more regions with room, a
   recovery that runs while the coordinator is still at work, before its last step write, leaves
   a saga that is accepted, marked COMMITTED and cached, and that holds no slots at all.
   */
  lemma ConcurrentRecoveryUndoesAcceptedSaga(p: Plan, init: State) returns (s: State)
    requires Init(p, init) && EveryRegionHasRoom(p, init.db) && |p.groups| >= 2
    ensures var freed := Run(p, Run(p, init, AllRegions(p), false), WholeRecovery(0), false);
      s == Run(p, freed, FinalWrites(true, true), false)
    ensures s.c.at == Returned(Accepted) && s.cached && s.row.Some? && s.row.value.status == Committed && !s.touched
    ensures WindowsOf(s.db.rows, p.rid) == R.Flatten(p.groups) && NoneActive(s.db.rows, p.rid)
  {
    var s0 := AllRegionsCommit(p, init, false);
    var freed := RecoveryFrees(p, s0, false);
    s := SagaReturns(p, freed, true, true, false);
  }

  /**
   A cached reply does not protect the saga either: an attempt that has missed the cache before looks for the saga
   after the coordinator has answered 201, finds it PENDING since the mark was lost, and
   frees its rows.
   */
  lemma LateLookupUndoesAcceptedSaga(p: Plan, init: State) returns (s: State)
    requires Init(p, init) && EveryRegionHasRoom(p, init.db) && p.groups != []
    ensures var missed := Run(p, init, [Recovers(MissesCache)], false);
      var returned := Run(p, Run(p, missed, AllRegions(p), false), FinalWrites(false, true), false);
      s == Run(p, returned, LookupAndRelease(0), false)
    ensures s.c.at == Returned(Accepted) && s.cached && !s.touched
    ensures WindowsOf(s.db.rows, p.rid) == R.Flatten(p.groups) && NoneActive(s.db.rows, p.rid)
  {
    Unroll(p, init, Recovers(MissesCache), [], false);
    assert [Recovers(MissesCache)] + [] == [Recovers(MissesCache)];
    var s0 := AllRegionsCommit(p, init.(missed := 1), false);
    var returned := SagaReturns(p, s0, false, true, false);
    LookupFrees(p, returned, false);
    s := Run(p, returned, LookupAndRelease(0), false);
  }

  /**
   Both final writes may be lost, and the coordinator still answers 201; a later attempt,
   although it does not overlap, then takes the saga, however many regions it has, for a
   crashed one and frees its rows.
   */
  lemma LostMarksUndoAcceptedSaga(p: Plan, init: State) returns (s: State)
    requires Init(p, init) && EveryRegionHasRoom(p, init.db) && p.groups != []
    ensures var returned := Run(p, Run(p, init, AllRegions(p), true), FinalWrites(false, false), true);
      s == Run(p, returned, WholeRecovery(0), true)
    ensures s.c.at == Returned(Accepted) && !s.cached && !s.touched
    ensures WindowsOf(s.db.rows, p.rid) == R.Flatten(p.groups) && NoneActive(s.db.rows, p.rid)
  {
    var s0 := AllRegionsCommit(p, init, true);
    var returned := SagaReturns(p, s0, false, false, true);
    s := RecoveryFrees(p, returned, true);
  }

  // ---------------------------------------------------------------------------
  // Capacity
  // ---------------------------------------------------------------------------

  /** The exact condition of a bound on each regional transaction. */
  ghost predicate GroupsFit(bound: DbRuns.Bound, p: Plan) {
    forall g :: g in p.groups ==> DbRuns.RequestFits(bound, g, Slots(p), p.priority)
  }

  ghost predicate OthersFit(bound: DbRuns.Bound, p: Plan, s: State, es: seq<Event>, serial: bool)
    decreases |es|
  {
    es == [] || (
      && (es[0].Others? ==> DbRuns.Fits(bound, s.db, es[0].step))
      && OthersFit(bound, p, Do(p, s, es[0], serial), es[1..], serial))
  }

  /** A regional transaction is a reserve step of the table model, and a release call a release step. */
  lemma OwnStepsKeepBound(bound: DbRuns.Bound, p: Plan, db: DB, i: nat)
    requires DbRuns.Inv(bound, db) && GroupsFit(bound, p)
    ensures DbRuns.Inv(bound, Free(db, p.rid))
    ensures i < |p.groups| && GroupFailure(p, db, i).None? ==> DbRuns.Inv(bound, InsertGroup(p, db, i))
  {
    DbRuns.StepKeepsInv(bound, db, DbRuns.ReleaseWhere(OfReservation(p.rid)));
    if i < |p.groups| && GroupFailure(p, db, i).None? {
      assert p.groups[i] in p.groups;
      DbRuns.StepKeepsInv(bound, db, DbRuns.ReserveTx(p.rid, p.jid, p.groups[i], p.vehicle, p.priority));
    }
  }

  lemma StepKeepsBound(bound: DbRuns.Bound, p: Plan, s: State, e: Event, serial: bool)
    requires DbRuns.Inv(bound, s.db) && GroupsFit(bound, p) && Progress(p, s)
    requires e.Others? ==> DbRuns.Fits(bound, s.db, e.step)
    ensures DbRuns.Inv(bound, Do(p, s, e, serial).db)
  {
    OwnStepsKeepBound(bound, p, s.db, s.c.reserved);
    match e
    case Others(d) => DbRuns.StepKeepsInv(bound, s.db, d);
    case Coordinates(ce) => CoordinatorChanges(p, s, ce);
    case Recovers(re) => RecoveryChanges(p, s, re, serial);
  }

  /**
   In every run of a saga among others, with any faults, crashes and recoveries, the load stays within the bound if
   the own load of each of its regional transactions and of every other request fits.
   */
  lemma SagaKeepsBounds(bound: DbRuns.Bound, p: Plan, init: State, es: seq<Event>, serial: bool)
    requires Init(p, init) && DbRuns.Inv(bound, init.db) && GroupsFit(bound, p) && OthersFit(bound, p, init, es, serial)
    ensures DbRuns.Inv(bound, Run(p, init, es, serial).db)
  {
    InitProgresses(p, init);
    RunKeepsBound(bound, p, init, es, serial);
  }

  lemma {:induction false} RunKeepsBound(bound: DbRuns.Bound, p: Plan, s: State, es: seq<Event>, serial: bool)
    requires DbRuns.Inv(bound, s.db) && GroupsFit(bound, p) && Progress(p, s) && OthersFit(bound, p, s, es, serial)
    ensures DbRuns.Inv(bound, Run(p, s, es, serial).db)
    decreases |es|
  {
    if es != [] {
      StepKeepsBound(bound, p, s, es[0], serial);
      StepProgresses(p, s, es[0], serial);
      RunKeepsBound(bound, p, Do(p, s, es[0], serial), es[1..], serial);
    }
  }
}
