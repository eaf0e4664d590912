/**
 The saga of the run model when its coordinator is left alone: it ends exactly as the saga
 without interference, and after a failure or an error it makes one release call for each
 region that it has reserved.
 */
module QuietSagas {
  import opened Tables
  import opened Admission
  import opened Wrappers
  import opened SagaRuns
  import opened OverlappingAttempts
  import opened AcceptedSagas
  import S = Saga

  /** An event of the coordinator that gets through. */
  predicate GetsThrough(e: Event) {
    e.Coordinates? && match e.ce
      case CreateRow(ok) => ok
      case RegionTx => true
      case StepWrite(written) => written
      case StatusWrite(written) => written
      case ReleaseCall(ok) => ok
      case CacheWrite(written) => written
      case RegionError(_) | Crash => false
  }

  lemma OneEvent(p: Plan, s: State, e: CoordinatorEvent, serial: bool)
    ensures Run(p, s, [Coordinates(e)], serial) == CoordinatorDoes(p, s, e)
  {
    Unroll(p, s, Coordinates(e), [], serial);
    assert [Coordinates(e)] + [] == [Coordinates(e)];
  }

  function Answer(failed: Option<FailedSegment>): Reply {
    if failed.Some? then Rejected(failed.value) else Accepted
  }

  /** One region that has room: its transaction and its step write. */
  lemma RegionGoesThrough(p: Plan, s: State, i: nat, serial: bool)
    requires i < |p.groups| && s.c == Coordinator(Region, i, false, false, false) && s.row.Some?
    requires GroupFailure(p, s.db, i).None?
    ensures var at := if i + 1 < |p.groups| then Region else Mark(Committed, Accepted);
      Run(p, s, [Coordinates(RegionTx)] + [Coordinates(StepWrite(true))], serial)
        == s.(db := InsertGroup(p, s.db, i), row := Some(SagaRow(Pending, Recorded(p, i + 1))),
              c := Coordinator(at, i + 1, false, false, false))
  {
    OneEvent(p, s, RegionTx, serial);
    var inserted := s.(db := InsertGroup(p, s.db, i), c := Coordinator(WriteStep, i + 1, false, false, false));
    assert CoordinatorDoes(p, s, RegionTx) == inserted;
    OneEvent(p, inserted, StepWrite(true), serial);
    RunOfConcat(p, s, [Coordinates(RegionTx)], [Coordinates(StepWrite(true))], serial);
  }

  /** The way forward: each regional transaction with its step write, up to the first failure. */
  lemma {:induction false} GoesForward(p: Plan, s: State, i: nat, serial: bool) returns (es: seq<Event>)
    requires i < |p.groups| && s.c == Coordinator(Region, i, false, false, false)
    requires s.row == Some(SagaRow(Pending, Recorded(p, i)))
    ensures var o := S.Forward(s.db, p.rid, p.jid, p.groups[i..], Slots(p), p.priority);
      var n := i + o.reserved;
      var at := Mark(if o.failed.Some? then Compensated else Committed, Answer(o.failed));
      n <= |p.groups| && Run(p, s, es, serial)
        == s.(db := o.db, row := Some(SagaRow(Pending, Recorded(p, n))), c := Coordinator(at, n, false, false, false))
    ensures forall e :: e in es ==> GetsThrough(e)
    decreases |p.groups| - i
  {
    var region, write := Coordinates(RegionTx), Coordinates(StepWrite(true));
    ForwardUnfolds(p, s.db, i);
    if GroupFailure(p, s.db, i).Some? {
      OneEvent(p, s, RegionTx, serial);
      es := [region];
    } else {
      RegionGoesThrough(p, s, i, serial);
      es := [region] + [write];
      if i + 1 < |p.groups| {
        var rest := GoesForward(p, Run(p, s, es, serial), i + 1, serial);
        RunOfConcat(p, s, es, rest, serial);
        es := es + rest;
      } else {
        assert p.groups[i + 1..] == [];
      }
    }
  }

  lemma ForwardUnfolds(p: Plan, db: DB, i: nat)
    requires i < |p.groups|
    ensures var o := S.Forward(db, p.rid, p.jid, p.groups[i..], Slots(p), p.priority);
      if GroupFailure(p, db, i).Some? then o == S.Outcome(db, 0, GroupFailure(p, db, i))
      else
        var rest := S.Forward(InsertGroup(p, db, i), p.rid, p.jid, p.groups[i + 1..], Slots(p), p.priority);
        o == rest.(reserved := rest.reserved + 1)
  {
    assert p.groups[i..][0] == p.groups[i] && p.groups[i..][1..] == p.groups[i + 1..];
  }

  function Calls(oks: seq<bool>): (es: seq<Event>)
    ensures |es| == |oks| && forall k :: 0 <= k < |oks| ==> es[k] == Coordinates(ReleaseCall(oks[k]))
  {
    seq(|oks|, k requires 0 <= k < |oks| => Coordinates(ReleaseCall(oks[k])))
  }

  lemma FreeTwice(db: DB, rid: string)
    ensures Free(Free(db, rid), rid) == Free(db, rid)
  {
    ReleasesAreIdempotentAndCommute(db.rows, OfReservation(rid), OfReservation(rid));
  }

  lemma OneCall(p: Plan, s: State, k: nat, reply: Reply, ok: bool)
    requires s.c.at == Release(k, reply)
    ensures CoordinatorDoes(p, s, ReleaseCall(ok))
         == s.(c := s.c.(at := NextRelease(s.c, k + 1, reply), released := s.c.released || ok),
               db := if ok then Free(s.db, p.rid) else s.db)
  {
  }

  /** After the last release call, and not before, a failure goes on to the cache; an error returns. */
  lemma {:induction false} MakesItsCalls(p: Plan, s: State, k: nat, reply: Reply, oks: seq<bool>, serial: bool)
    requires s.c.at == NextRelease(s.c, k, reply) && reply != Accepted && k + |oks| == s.c.reserved
    ensures Run(p, s, Calls(oks), serial)
         == s.(c := s.c.(at := if reply == SystemError then Returned(reply) else Cache(reply),
                         released := s.c.released || true in oks),
               db := if true in oks then Free(s.db, p.rid) else s.db)
    decreases |oks|
  {
    if oks != [] {
      var rest := oks[1..];
      assert s.c.at == Release(k, reply);
      assert Calls(oks) == [Coordinates(ReleaseCall(oks[0]))] + Calls(rest);
      Unroll(p, s, Coordinates(ReleaseCall(oks[0])), Calls(rest), serial);
      OneCall(p, s, k, reply, oks[0]);
      var next := CoordinatorDoes(p, s, ReleaseCall(oks[0]));
      MakesItsCalls(p, next, k + 1, reply, rest, serial);
      assert true in oks <==> oks[0] || true in rest;
      FreeTwice(s.db, p.rid);
    } else {
      assert Calls(oks) == [];
    }
  }

  /**
   A failure or an error is compensated: with the status written or not, the coordinator makes exactly
   one release call for each region it has reserved, and frees the rows iff one of them succeeds.
   */
  lemma EachRegionIsReleased(
    p: Plan, s: State, status: SagaStatus, reply: Reply, written: bool, oks: seq<bool>, serial: bool)
    requires s.c.at == Mark(status, reply) && reply != Accepted && |oks| == s.c.reserved
    ensures var t := Run(p, s, [Coordinates(StatusWrite(written))] + Calls(oks), serial);
      && t.c.at == (if reply == SystemError then Returned(reply) else Cache(reply))
      && t.c.released == (s.c.released || true in oks)
      && t.db == (if true in oks then Free(s.db, p.rid) else s.db)
      && t.row == (if written && s.row.Some? then Some(SagaRow(status, Recorded(p, s.c.reserved))) else s.row)
      && t.cached == s.cached
  {
    Unroll(p, s, Coordinates(StatusWrite(written)), Calls(oks), serial);
    MakesItsCalls(p, CoordinatorDoes(p, s, StatusWrite(written)), 0, reply, oks, serial);
  }

  /** A region whose transaction reports an error, committed or not, ends the saga as FAILED. */
  lemma ErrorEndsTheSaga(p: Plan, s: State, committed: bool)
    requires s.c.at == Region && s.c.reserved < |p.groups|
    ensures var t := CoordinatorDoes(p, s, RegionError(committed));
      && t.c.at == Mark(Failed, SystemError) && t.c.reserved == s.c.reserved && t.row == s.row
      && t.db == if committed && GroupFailure(p, s.db, s.c.reserved).None?
                 then InsertGroup(p, s.db, s.c.reserved) else s.db
  {
  }

  /** The record of the saga is created at most once by key; a crash stops the coordinator wherever it is. */
  lemma CreatesOrStops(p: Plan, s: State, ok: bool)
    ensures s.c.at == Create ==>
      var t := CoordinatorDoes(p, s, CreateRow(ok));
      if ok && s.row.None?
      then t == s.(row := Some(SagaRow(Pending, [])), c := s.c.(at := Region))
      else t == s.(c := s.c.(at := Returned(SystemError)))
    ensures !s.c.at.Returned? ==> CoordinatorDoes(p, s, Crash) == s.(c := s.c.(at := Crashed))
  {
  }

  function Trues(n: nat): (oks: seq<bool>)
    ensures |oks| == n && forall k :: 0 <= k < n ==> oks[k]
  {
    seq(n, k => true)
  }

  lemma MarksThenCalls(p: Plan, s: State, reply: Reply, oks: seq<bool>, serial: bool)
    requires s.c.at == Mark(Compensated, reply) && reply.Rejected? && s.row.Some? && !s.c.released
    requires |oks| == s.c.reserved
    ensures Run(p, s, [Coordinates(StatusWrite(true))] + Calls(oks), serial)
         == s.(c := s.c.(at := Cache(reply), released := true in oks),
               row := Some(SagaRow(Compensated, Recorded(p, s.c.reserved))),
               db := if true in oks then Free(s.db, p.rid) else s.db)
  {
    Unroll(p, s, Coordinates(StatusWrite(true)), Calls(oks), serial);
    MakesItsCalls(p, CoordinatorDoes(p, s, StatusWrite(true)), 0, reply, oks, serial);
  }

  lemma GoesBack(p: Plan, s: State, failed: FailedSegment, serial: bool) returns (es: seq<Event>)
    requires s.c.at == Mark(Compensated, Rejected(failed)) && s.row.Some? && !s.c.released
    ensures var freed := S.Compensate(s.db.rows, p.rid, s.c.reserved);
      Run(p, s, es, serial)
        == s.(db := s.db.(rows := freed), row := Some(SagaRow(Compensated, Recorded(p, s.c.reserved))), cached := true,
              c := s.c.(at := Returned(Rejected(failed)), released := s.c.reserved > 0))
    ensures forall e :: e in es ==> GetsThrough(e)
  {
    var mark, oks, cache := Coordinates(StatusWrite(true)), Trues(s.c.reserved), Coordinates(CacheWrite(true));
    es := ([mark] + Calls(oks)) + [cache];
    RunOfConcat(p, s, [mark] + Calls(oks), [cache], serial);
    MarksThenCalls(p, s, Rejected(failed), oks, serial);
    assert s.c.reserved > 0 ==> oks[0];
    assert true in oks <==> s.c.reserved > 0;
    S.CompensateIsOneRelease(s.db.rows, p.rid, s.c.reserved);
    OneEvent(p, Run(p, s, [mark] + Calls(oks), serial), CacheWrite(true), serial);
  }

  /** Whether the saga has a release call to make. */
  predicate Compensates(o: S.Outcome) { o.failed.Some? && o.reserved > 0 }

  /**
   The two models of the saga agree. Left alone and with all its writes and calls getting through,
   the coordinator of the run model ends with the tables, the answer and the recorded
   regions of the saga without interference, marked and cached.
   */
  lemma QuietSagaIsExecute(p: Plan, init: State, serial: bool) returns (es: seq<Event>)
    requires Init(p, init) && p.groups != []
    ensures forall e :: e in es ==> GetsThrough(e)
    ensures var o := S.Execute(init.db, p.rid, p.jid, p.groups, Slots(p), p.priority);
      var status := if o.failed.Some? then Compensated else Committed;
      Run(p, init, es, serial)
        == init.(db := o.db, cached := true, row := Some(SagaRow(status, Recorded(p, o.reserved))),
                 c := Coordinator(Returned(Answer(o.failed)), o.reserved, Compensates(o), false, false))
  {
    var create := Coordinates(CreateRow(true));
    OneEvent(p, init, CreateRow(true), serial);
    var created := CoordinatorDoes(p, init, CreateRow(true));
    assert Recorded(p, 0) == [] && p.groups[0..] == p.groups;
    var forward := GoesForward(p, created, 0, serial);
    RunOfConcat(p, init, [create], forward, serial);
    var s := Run(p, created, forward, serial);
    var o := S.Forward(init.db, p.rid, p.jid, p.groups, Slots(p), p.priority);
    var rest;
    if o.failed.Some? {
      rest := GoesBack(p, s, o.failed.value, serial);
    } else {
      rest := [Coordinates(StatusWrite(true))] + [Coordinates(CacheWrite(true))];
      RunOfConcat(p, s, [Coordinates(StatusWrite(true))], [Coordinates(CacheWrite(true))], serial);
      OneEvent(p, s, StatusWrite(true), serial);
      OneEvent(p, CoordinatorDoes(p, s, StatusWrite(true)), CacheWrite(true), serial);
    }
    es := [create] + forward + rest;
    RunOfConcat(p, init, [create] + forward, rest, serial);
  }

  // ---------------------------------------------------------------------------
  // A recovery left alone
  // ---------------------------------------------------------------------------

  lemma OneRecoveryCall(p: Plan, s: State, k: nat, ok: bool)
    requires k < |s.recoveries| && s.recoveries[k].next < |s.recoveries[k].steps| && OwnSteps(p, s.recoveries[k].steps)
    ensures var r := s.recoveries[k];
      RecoveryDoes(s, RecoveryRelease(k, ok), false)
        == s.(recoveries := s.recoveries[k := r.(next := r.next + 1)], recovered := s.recovered || ok,
              db := if ok then Free(s.db, p.rid) else s.db)
  {
  }

  lemma {:induction false} RecoveryMakesItsCalls(p: Plan, s: State, k: nat, oks: seq<bool>)
    requires k < |s.recoveries| && OwnSteps(p, s.recoveries[k].steps)
    requires s.recoveries[k].next + |oks| == |s.recoveries[k].steps|
    ensures var r := s.recoveries[k];
      Run(p, s, ReleaseCalls(k, oks), false)
        == s.(recoveries := s.recoveries[k := r.(next := |r.steps|)], recovered := s.recovered || true in oks,
              db := if true in oks then Free(s.db, p.rid) else s.db)
    decreases |oks|
  {
    if oks == [] {
      assert ReleaseCalls(k, oks) == [];
      assert s.recoveries[k := s.recoveries[k]] == s.recoveries;
    } else {
      var e, rest := Recovers(RecoveryRelease(k, oks[0])), oks[1..];
      assert ReleaseCalls(k, oks) == [e] + ReleaseCalls(k, rest);
      Unroll(p, s, e, ReleaseCalls(k, rest), false);
      OneRecoveryCall(p, s, k, oks[0]);
      var next := RecoveryDoes(s, RecoveryRelease(k, oks[0]), false);
      RecoveryMakesItsCalls(p, next, k, rest);
      assert true in oks <==> oks[0] || true in rest;
      FreeTwice(s.db, p.rid);
      assert next.recoveries[k := s.recoveries[k].(next := |s.recoveries[k].steps|)]
          == s.recoveries[k := s.recoveries[k].(next := |s.recoveries[k].steps|)];
    }
  }

  /**
   A recovery left alone: an attempt that finds the saga PENDING makes one release call for each recorded step,
   which frees the rows iff one succeeds, and marks the saga COMPENSATED if its write gets through.
   */
  lemma RecoveryRunsThrough(p: Plan, s: State, oks: seq<bool>, written: bool)
    requires s.missed > 0 && s.row.Some? && s.row.value.status == Pending && OwnSteps(p, s.row.value.steps)
    requires |oks| == |s.row.value.steps|
    ensures var k := |s.recoveries|;
      var t := Run(p, Do(p, s, Recovers(FindsSaga), false), ReleaseCalls(k, oks), false);
      Do(p, t, Recovers(RecoveryMark(k, written)), false)
        == s.(missed := s.missed - 1, recovered := s.recovered || true in oks,
              db := if true in oks then Free(s.db, p.rid) else s.db,
              row := if written then Some(SagaRow(Compensated, s.row.value.steps)) else s.row)
  {
    var k, steps := |s.recoveries|, s.row.value.steps;
    var found := s.(missed := s.missed - 1, recoveries := s.recoveries + [Recovery(steps, 0)]);
    assert Do(p, s, Recovers(FindsSaga), false) == found;
    RecoveryMakesItsCalls(p, found, k, oks);
    var t := Run(p, found, ReleaseCalls(k, oks), false);
    assert t.recoveries == s.recoveries + [Recovery(steps, |steps|)];
    assert Without(t.recoveries, k) == s.recoveries;
  }

  /** An attempt may leave before it looks for the saga, find nothing to recover, or crash in its recovery. */
  lemma AttemptsLeave(s: State, k: nat, serial: bool)
    ensures s.missed > 0 ==> RecoveryDoes(s, LeavesEarly, serial) == s.(missed := s.missed - 1)
    ensures s.missed > 0 && (s.row.Some? ==> s.row.value.status != Pending) ==>
      RecoveryDoes(s, FindsSaga, serial) == s.(missed := s.missed - 1)
    ensures k < |s.recoveries| ==>
      RecoveryDoes(s, RecoveryCrash(k), serial).recoveries == s.recoveries[..k] + s.recoveries[k + 1..]
  {
  }
}
