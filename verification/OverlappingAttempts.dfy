/**
 What holds of a saga even when attempts with its key overlap: its rows and those of other
 reservations, and what a recovery frees after a crash.
 */
module OverlappingAttempts {
  import opened Tables
  import opened Admission
  import opened Wrappers
  import opened SagaRuns
  import DbRuns
  import R = Regions

  // ---------------------------------------------------------------------------
  // Progress
  // ---------------------------------------------------------------------------

  /** The rows are those of the committed regions. */
  ghost predicate RowsProgress(p: Plan, s: State) {
    CommittedRegions(s.c) <= |p.groups| && WindowsOf(s.db.rows, p.rid) == R.Flatten(p.groups[..CommittedRegions(s.c)])
  }

  ghost predicate ControlProgress(p: Plan, c: Coordinator) {
    && (c.errorCommitted ==> Stopped(c) || ((c.at.Mark? || c.at.Release?) && c.at.reply == SystemError))
    && (Accepts(c.at) ==> c.reserved == |p.groups| && !c.errorCommitted)
    && (c.at.Release? ==> c.at.reply != Accepted)
    && (c.at.Mark? ==> (c.at.reply == Accepted <==> c.at.status == Committed))
  }

  /** The coordinator is about to answer 201, or has. */
  predicate Accepts(at: Label) {
    (at.Mark? || at.Cache? || at.Returned?) && at.reply == Accepted
  }

  ghost predicate StepsProgress(p: Plan, s: State) {
    && (s.row.Some? ==> OwnSteps(p, s.row.value.steps))
    && (forall r :: r in s.recoveries ==> OwnSteps(p, r.steps))
  }

  ghost predicate OwnSteps(p: Plan, steps: seq<RegionStep>) {
    forall i :: 0 <= i < |steps| ==> steps[i].rid == p.rid
  }

  /** The part of the invariant that does not depend on when recoveries run. */
  ghost predicate Progress(p: Plan, s: State) {
    RowsProgress(p, s) && ControlProgress(p, s.c) && StepsProgress(p, s) && (s.cached ==> s.c.at.Returned?)
  }

  lemma CoordinatorKeepsControlProgress(p: Plan, s: State, e: CoordinatorEvent)
    requires ControlProgress(p, s.c) && CommittedRegions(s.c) <= |p.groups|
    ensures ControlProgress(p, CoordinatorDoes(p, s, e).c)
  {
    match e
    case CreateRow(ok) =>
    case RegionTx =>
    case RegionError(committed) =>
    case StepWrite(written) =>
    case StatusWrite(written) =>
    case ReleaseCall(ok) =>
    case CacheWrite(written) =>
    case Crash =>
  }

  lemma CoordinatorKeepsStepsProgress(p: Plan, s: State, e: CoordinatorEvent)
    requires StepsProgress(p, s)
    ensures StepsProgress(p, CoordinatorDoes(p, s, e))
  {
  }

  lemma CoordinatorProgresses(p: Plan, s: State, e: CoordinatorEvent)
    requires Progress(p, s)
    ensures Progress(p, CoordinatorDoes(p, s, e))
  {
    CoordinatorKeepsControlProgress(p, s, e);
    CoordinatorKeepsStepsProgress(p, s, e);
    CoordinatorKeepsRowsProgress(p, s, e);
  }

  ghost predicate ReleasesOrInserts(p: Plan, s: State, t: State) {
    || (CommittedRegions(t.c) == CommittedRegions(s.c) && (t.db == s.db || t.db == Free(s.db, p.rid)))
    || (s.c.reserved < |p.groups| && GroupFailure(p, s.db, s.c.reserved).None?
        && t.db == InsertGroup(p, s.db, s.c.reserved)
        && CommittedRegions(s.c) == s.c.reserved && CommittedRegions(t.c) == s.c.reserved + 1)
  }

  /** What a coordinator event does to the tables and to the number of committed regions. */
  lemma CoordinatorChanges(p: Plan, s: State, e: CoordinatorEvent)
    requires ControlProgress(p, s.c)
    ensures ReleasesOrInserts(p, s, CoordinatorDoes(p, s, e))
  {
    match e
    case CreateRow(ok) =>
    case RegionTx =>
    case RegionError(committed) =>
    case StepWrite(written) =>
    case StatusWrite(written) =>
    case ReleaseCall(ok) =>
    case CacheWrite(written) =>
    case Crash =>
  }

  lemma CoordinatorKeepsRowsProgress(p: Plan, s: State, e: CoordinatorEvent)
    requires RowsProgress(p, s) && ControlProgress(p, s.c)
    ensures RowsProgress(p, CoordinatorDoes(p, s, e))
  {
    CoordinatorChanges(p, s, e);
    RowsProgressAfter(p, s, CoordinatorDoes(p, s, e));
  }

  lemma RowsProgressAfter(p: Plan, s: State, t: State)
    requires RowsProgress(p, s) && ReleasesOrInserts(p, s, t)
    ensures RowsProgress(p, t)
  {
    FreeKeepsRows(s.db, p.rid);
    if CommittedRegions(s.c) == s.c.reserved && s.c.reserved < |p.groups| {
      InsertGroupKeepsRows(p, s.db, s.c.reserved);
    }
  }

  lemma RecoveryChanges(p: Plan, s: State, e: RecoveryEvent, serial: bool)
    requires StepsProgress(p, s)
    ensures var t := RecoveryDoes(s, e, serial);
      && t.c == s.c && t.cached == s.cached && t.touched == s.touched
      && (t.db == s.db || t.db == Free(s.db, p.rid)) && StepsProgress(p, t)
  {
    match e
    case MissesCache =>
    case LeavesEarly =>
    case FindsSaga =>
    case RecoveryRelease(k, ok) =>
      if k < |s.recoveries| {
        assert s.recoveries[k] in s.recoveries;
      }
    case RecoveryMark(k, written) =>
      if k < |s.recoveries| {
        assert s.recoveries[k] in s.recoveries;
      }
    case RecoveryCrash(k) =>
  }

  lemma RecoveryProgresses(p: Plan, s: State, e: RecoveryEvent, serial: bool)
    requires Progress(p, s)
    ensures Progress(p, RecoveryDoes(s, e, serial))
  {
    RecoveryChanges(p, s, e, serial);
    FreeKeepsRows(s.db, p.rid);
  }

  lemma StepProgresses(p: Plan, s: State, e: Event, serial: bool)
    requires Progress(p, s)
    ensures Progress(p, Do(p, s, e, serial))
  {
    match e
    case Others(d) =>
      if ByOthers(p, d) {
        OthersKeepOwnRows(p, s.db, d);
      }
    case Coordinates(ce) => CoordinatorProgresses(p, s, ce);
    case Recovers(re) => RecoveryProgresses(p, s, re, serial);
  }

  lemma {:induction false} RunProgresses(p: Plan, s: State, es: seq<Event>, serial: bool)
    requires Progress(p, s)
    ensures Progress(p, Run(p, s, es, serial))
    decreases |es|
  {
    if es != [] {
      StepProgresses(p, s, es[0], serial);
      RunProgresses(p, Do(p, s, es[0], serial), es[1..], serial);
    }
  }

  lemma InitProgresses(p: Plan, s: State)
    requires Init(p, s)
    ensures Progress(p, s)
  {
    NoWindowsNoRows(s.db.rows, p.rid);
    assert p.groups[..0] == [];
  }

  // ---------------------------------------------------------------------------
  // Other reservations
  // ---------------------------------------------------------------------------

  /** Rows of other reservations are as before, and new rows belong to this one. */
  ghost predicate OnlyOwnRowsDiffer(rid: string, before: seq<Row>, after: seq<Row>) {
    && |before| <= |after|
    && (forall i :: 0 <= i < |before| && before[i].rid != rid ==> after[i] == before[i])
    && (forall i :: |before| <= i < |after| ==> after[i].rid == rid)
  }

  lemma OwnChangesOnly(p: Plan, s: State, t: State)
    requires t.db == s.db || t.db == Free(s.db, p.rid) || ReleasesOrInserts(p, s, t)
    ensures OnlyOwnRowsDiffer(p.rid, s.db.rows, t.db.rows)
  {
  }

  /** In no run does the coordinator or another attempt with the key change a row of another reservation. */
  lemma OtherReservationsAreUntouched(p: Plan, init: State, es: seq<Event>, e: Event, serial: bool)
    requires Init(p, init) && !e.Others?
    ensures var s := Run(p, init, es, serial);
      OnlyOwnRowsDiffer(p.rid, s.db.rows, Do(p, s, e, serial).db.rows)
  {
    InitProgresses(p, init);
    RunProgresses(p, init, es, serial);
    var s := Run(p, init, es, serial);
    match e {
      case Coordinates(ce) => CoordinatorChanges(p, s, ce);
      case Recovers(re) => RecoveryChanges(p, s, re, serial);
    }
    OwnChangesOnly(p, s, Do(p, s, e, serial));
  }

  // ---------------------------------------------------------------------------
  // Crash recovery
  // ---------------------------------------------------------------------------

  /** The release calls of a recovery, one per step it read, each with its outcome. */
  function ReleaseCalls(k: nat, oks: seq<bool>): (es: seq<Event>)
    ensures |es| == |oks| && forall i :: 0 <= i < |oks| ==> es[i] == Recovers(RecoveryRelease(k, oks[i]))
  {
    seq(|oks|, i requires 0 <= i < |oks| => Recovers(RecoveryRelease(k, oks[i])))
  }

  /** Once the coordinator has stopped, rows of the saga are only ever released. */
  lemma StepKeepsNoneActive(p: Plan, s: State, e: Event, serial: bool)
    requires Progress(p, s) && Stopped(s.c) && NoneActive(s.db.rows, p.rid)
    ensures Stopped(Do(p, s, e, serial).c) && NoneActive(Do(p, s, e, serial).db.rows, p.rid)
  {
    match e
    case Others(d) =>
      if ByOthers(p, d) {
        OthersKeepOwnRows(p, s.db, d);
      }
    case Coordinates(ce) =>
    case Recovers(re) =>
      RecoveryChanges(p, s, re, serial);
      FreeKeepsRows(s.db, p.rid);
  }

  lemma {:induction false} NoneActiveStays(p: Plan, s: State, es: seq<Event>, serial: bool)
    requires Progress(p, s) && Stopped(s.c) && NoneActive(s.db.rows, p.rid)
    ensures NoneActive(Run(p, s, es, serial).db.rows, p.rid)
    decreases |es|
  {
    if es != [] {
      StepProgresses(p, s, es[0], serial);
      StepKeepsNoneActive(p, s, es[0], serial);
      NoneActiveStays(p, Do(p, s, es[0], serial), es[1..], serial);
    }
  }

  lemma {:induction false} CallsFree(p: Plan, s: State, k: nat, oks: seq<bool>, serial: bool)
    requires Progress(p, s) && Stopped(s.c) && k < |s.recoveries|
    requires |oks| == |s.recoveries[k].steps| - s.recoveries[k].next && true in oks
    ensures NoneActive(Run(p, s, ReleaseCalls(k, oks), serial).db.rows, p.rid)
    decreases |oks|
  {
    var e, rest := ReleaseCalls(k, oks)[0], oks[1..];
    assert ReleaseCalls(k, oks)[1..] == ReleaseCalls(k, rest);
    StepProgresses(p, s, e, serial);
    if oks[0] {
      assert s.recoveries[k] in s.recoveries;
      FreeKeepsRows(s.db, p.rid);
      NoneActiveStays(p, Do(p, s, e, serial), ReleaseCalls(k, rest), serial);
    } else {
      CallsFree(p, Do(p, s, e, serial), k, rest, serial);
    }
  }

  lemma RunOfTwo(p: Plan, s: State, a: Event, b: Event, serial: bool)
    ensures Run(p, s, [a, b], serial) == Do(p, Do(p, s, a, serial), b, serial)
  {
    assert [a, b][1..] == [b] && [b][1..] == [];
    assert Run(p, Do(p, s, a, serial), [b], serial) == Do(p, Do(p, s, a, serial), b, serial);
  }

  /**
   Recovery after a crash anywhere, whatever other attempts are doing. With at least one recorded step and one
   release call that succeeds, no row of the saga stays active, not even in a region whose commit was
   never recorded; and none becomes active again in any later run.
   */
  lemma RecoveryFreesEverything(p: Plan, init: State, es: seq<Event>, oks: seq<bool>, later: seq<Event>)
    requires Init(p, init)
    requires var s := Run(p, init, es, false);
      && s.c.at == Crashed && s.row.Some? && s.row.value.status == Pending
      && |oks| == |s.row.value.steps| && true in oks
    ensures var s := Run(p, init, es, false);
      var found := Run(p, s, [Recovers(MissesCache), Recovers(FindsSaga)], false);
      var freed := Run(p, found, ReleaseCalls(|s.recoveries|, oks), false);
      && NoneActive(freed.db.rows, p.rid)
      && NoneActive(Run(p, freed, later, false).db.rows, p.rid)
  {
    InitProgresses(p, init);
    RunProgresses(p, init, es, false);
    var s := Run(p, init, es, false);
    var misses, finds := Recovers(MissesCache), Recovers(FindsSaga);
    RunOfTwo(p, s, misses, finds, false);
    RunProgresses(p, s, [misses, finds], false);
    var found := Run(p, s, [misses, finds], false);
    assert found == s.(recoveries := s.recoveries + [Recovery(s.row.value.steps, 0)]);
    CallsFree(p, found, |s.recoveries|, oks, false);
    RunProgresses(p, found, ReleaseCalls(|s.recoveries|, oks), false);
    CoordinatorStays(p, found, ReleaseCalls(|s.recoveries|, oks), false);
    NoneActiveStays(p, Run(p, found, ReleaseCalls(|s.recoveries|, oks), false), later, false);
  }

  lemma {:induction false} CoordinatorStays(p: Plan, s: State, es: seq<Event>, serial: bool)
    requires Stopped(s.c)
    ensures Run(p, s, es, serial).c == s.c
    decreases |es|
  {
    if es != [] {
      CoordinatorStays(p, Do(p, s, es[0], serial), es[1..], serial);
    }
  }
}
