/**
 Every interleaving of the statements and transactions that change the capacity
 service's tables, each taken as one atomic step.
 */
module DbRuns {
  import opened Tables
  import opened Admission
  import opened Wrappers

  datatype Step =
    | ReserveTx(rid: string, jid: string, windows: seq<Window>, vehicle: VehicleType, priority: Priority)
    | ReleaseWhere(f: Filter)
    | CreateClosure(id: string, seg: string, now: int, durationMinutes: int, reason: string)
    | RegisterSegments(ids: seq<string>, defaultCapacity: real)
    | UpdateMaxCapacity(seg: string, maxCapacity: real)

  const MINUTE := 60_000_000_000
  const MAX_CLOSURE_MINUTES := 7 * 24 * 60

  /** The transaction of CreateClosure; the input checks precede it. */
  function ApplyClosure(db: DB, id: string, seg: string, now: int, durationMinutes: int, reason: string): DB {
    var end := now + durationMinutes * MINUTE;
    if seg == "" || reason == "" || durationMinutes <= 0 || durationMinutes > MAX_CLOSURE_MINUTES then db
    else if seg !in db.segments then db
    else if FindActiveOverlap(db.closures, seg, now, end).Some? then db
    else db.(closures := db.closures + [Closure(id, seg, now, end, reason, true)])
  }

  /** ON CONFLICT (segment_id) DO NOTHING: a segment that exists keeps its capacity. */
  function Register(segments: map<string, real>, ids: seq<string>, defaultCapacity: real): (after: map<string, real>)
    ensures forall seg :: seg in after <==> seg in segments || seg in ids
    ensures forall seg :: seg in segments ==> after[seg] == segments[seg]
    ensures forall seg :: seg in ids && seg !in segments ==> after[seg] == defaultCapacity
    decreases |ids|
  {
    if ids == [] then segments
    else
      var first := if ids[0] in segments then segments else segments[ids[0] := defaultCapacity];
      Register(first, ids[1..], defaultCapacity)
  }

  function Apply(db: DB, step: Step): DB {
    match step
    case ReserveTx(rid, jid, windows, vehicle, priority) =>
      Reserve(db, rid, jid, windows, SlotsNeeded(vehicle), priority)
    case ReleaseWhere(f) => db.(rows := Release(db.rows, f))
    case CreateClosure(id, seg, now, duration, reason) => ApplyClosure(db, id, seg, now, duration, reason)
    case RegisterSegments(ids, cap) =>
      if ids == [] || "" in ids || cap <= 0.0 then db
      else db.(segments := Register(db.segments, ids, cap))
    case UpdateMaxCapacity(seg, cap) =>
      if seg == "" || cap <= 0.0 || seg !in db.segments then db else db.(segments := db.segments[seg := cap])
  }

  function Run(db: DB, steps: seq<Step>): DB
    decreases |steps|
  {
    if steps == [] then db else Run(Apply(db, steps[0]), steps[1..])
  }

  // ---------------------------------------------------------------------------
  // Capacity, the emergency buffer and the closures over whole runs
  // ---------------------------------------------------------------------------

  /** The two bounds on the load: a segment's maximum, and the slot kept for emergency vehicles. */
  datatype Bound = Maximum | EmergencyBuffer

  ghost predicate Holds(bound: Bound, db: DB) {
    match bound
    case Maximum => WithinCapacity(db)
    case EmergencyBuffer => BufferKept(db)
  }

  /** The rows that a bound counts on a segment at an instant. */
  function Counted(bound: Bound, seg: string, t: int): Filter {
    match bound
    case Maximum => Covering(seg, t)
    case EmergencyBuffer => NormalCovering(seg, t)
  }

  /** What a bound allows on a segment of the given capacity. */
  function Limit(bound: Bound, cap: real): real {
    match bound
    case Maximum => cap
    case EmergencyBuffer => BeyondBuffer(cap)
  }

  /** The exact condition of a bound on a request. */
  ghost predicate RequestFits(bound: Bound, windows: seq<Window>, slots: real, priority: Priority) {
    match bound
    case Maximum => OwnLoadFits(windows, slots, Headroom(priority))
    case EmergencyBuffer => priority == Normal ==> OwnLoadFits(windows, slots, 0.0)
  }

  /** The exact condition of a bound on a new capacity: what is booked when an active window starts fits into it. */
  predicate StartsFit(bound: Bound, rows: seq<Row>, seg: string, cap: real) {
    forall r :: r in rows && Matches(Counted(bound, seg, r.window.lo), r)
      ==> SumSlots(rows, Counted(bound, seg, r.window.lo)) <= Limit(bound, cap)
  }

  /** The hypotheses on a step. */
  ghost predicate Fits(bound: Bound, db: DB, step: Step) {
    match step
    case ReserveTx(_, _, windows, vehicle, priority) => RequestFits(bound, windows, SlotsNeeded(vehicle), priority)
    case UpdateMaxCapacity(seg, cap) => seg in db.segments && cap > 0.0 ==> StartsFit(bound, db.rows, seg, cap)
    case _ => true
  }

  ghost predicate AllFit(bound: Bound, db: DB, steps: seq<Step>)
    decreases |steps|
  {
    steps == [] || (Fits(bound, db, steps[0]) && AllFit(bound, Apply(db, steps[0]), steps[1..]))
  }

  ghost predicate ClosuresDisjoint(db: DB) {
    forall i, j, seg, t :: 0 <= i < j < |db.closures|
      ==> !(ClosedAt(db.closures[i], seg, t) && ClosedAt(db.closures[j], seg, t))
  }

  ghost predicate Inv(bound: Bound, db: DB) {
    WellFormed(db) && Holds(bound, db) && ClosuresDisjoint(db)
  }

  lemma NewRowsAreWellFormed(db: DB, rid: string, jid: string, ws: seq<Window>, slots: real, priority: Priority)
    requires slots > 0.0 && FirstFailure(db, ws, slots, priority).None?
    ensures forall r :: r in NewRows(rid, jid, ws, slots, priority) ==>
      r.slots > 0.0 && r.window.seg in db.segments && r.window.lo < r.window.hi
  {
    var more := NewRows(rid, jid, ws, slots, priority);
    forall r | r in more ensures r.slots > 0.0 && r.window.seg in db.segments && r.window.lo < r.window.hi {
      var i :| 0 <= i < |more| && more[i] == r;
      assert ws[i] in ws && CheckWindow(db, ws[i], slots, priority).None?;
    }
  }

  lemma RowsStayWellFormed(db: DB, step: Step)
    requires WellFormed(db)
    ensures WellFormed(Apply(db, step))
    ensures RowsKept(db.rows, Apply(db, step).rows)
  {
    match step
    case ReserveTx(rid, jid, windows, vehicle, priority) =>
      var slots := SlotsNeeded(vehicle);
      if FirstFailure(db, windows, slots, priority).None? {
        NewRowsAreWellFormed(db, rid, jid, windows, slots, priority);
      }
    case ReleaseWhere(f) =>
      forall r | r in Release(db.rows, f)
        ensures r.slots > 0.0 && r.window.seg in db.segments && r.window.lo < r.window.hi
      {
        var i :| 0 <= i < |db.rows| && Release(db.rows, f)[i] == r;
        assert db.rows[i] in db.rows;
      }
    case _ =>
  }

  /** Of the rows counted at an instant, one starts last. */
  lemma {:induction false} LatestStart(bound: Bound, rows: seq<Row>, seg: string, t: int) returns (latest: Row)
    requires exists r :: r in rows && Matches(Counted(bound, seg, t), r)
    ensures latest in rows && Matches(Counted(bound, seg, t), latest)
    ensures forall r :: r in rows && Matches(Counted(bound, seg, t), r) ==> r.window.lo <= latest.window.lo
  {
    if exists r :: r in rows[1..] && Matches(Counted(bound, seg, t), r) {
      latest := LatestStart(bound, rows[1..], seg, t);
      if Matches(Counted(bound, seg, t), rows[0]) && rows[0].window.lo > latest.window.lo {
        latest := rows[0];
      }
    } else {
      latest := rows[0];
    }
  }

  lemma {:induction false} NothingCounted(rows: seq<Row>, f: Filter)
    requires forall r :: r in rows ==> !Matches(f, r)
    ensures SumSlots(rows, f) == 0.0
  {
    if rows != [] {
      assert rows[0] in rows && forall r :: r in rows[1..] ==> r in rows;
      NothingCounted(rows[1..], f);
    }
  }

  /** The load peaks when a window starts: all rows of an instant are still there when the last of them starts. */
  lemma LoadPeaksAtStarts(bound: Bound, rows: seq<Row>, seg: string, cap: real, t: int)
    requires Positive(rows) && cap > 0.0 && StartsFit(bound, rows, seg, cap)
    ensures SumSlots(rows, Counted(bound, seg, t)) <= Limit(bound, cap)
  {
    if exists r :: r in rows && Matches(Counted(bound, seg, t), r) {
      var latest := LatestStart(bound, rows, seg, t);
      SumIsMonotone(rows, Counted(bound, seg, t), Counted(bound, seg, latest.window.lo));
    } else {
      NothingCounted(rows, Counted(bound, seg, t));
    }
  }

  lemma HoldsEverywhere(bound: Bound, db: DB)
    requires forall seg, t :: seg in db.segments ==>
      SumSlots(db.rows, Counted(bound, seg, t)) <= Limit(bound, db.segments[seg])
    ensures Holds(bound, db)
  {
    forall seg, t | seg in db.segments
      ensures bound == Maximum ==> SumSlots(db.rows, Covering(seg, t)) <= db.segments[seg]
      ensures bound == EmergencyBuffer ==> SumSlots(db.rows, NormalCovering(seg, t)) <= BeyondBuffer(db.segments[seg])
    {
      var counted := Counted(bound, seg, t);
      assert SumSlots(db.rows, counted) <= Limit(bound, db.segments[seg]);
    }
  }

  /**
   A change of capacity. It keeps the maximum, respectively the emergency slot, at every
   instant exactly when what is booked at the start of each active window fits into it.
   */
  lemma UpdateKeepsBoundExactly(bound: Bound, db: DB, seg: string, cap: real)
    requires WellFormed(db) && Holds(bound, db) && seg in db.segments && seg != "" && cap > 0.0
    ensures Holds(bound, Apply(db, UpdateMaxCapacity(seg, cap))) <==> StartsFit(bound, db.rows, seg, cap)
  {
    var after := Apply(db, UpdateMaxCapacity(seg, cap));
    assert seg in after.segments && after.segments[seg] == cap;
    if StartsFit(bound, db.rows, seg, cap) {
      forall t ensures SumSlots(db.rows, Counted(bound, seg, t)) <= Limit(bound, cap) {
        LoadPeaksAtStarts(bound, db.rows, seg, cap, t);
      }
      HoldsEverywhere(bound, after);
    }
  }

  /** A closure is created iff the input is in order, the segment known and no instant of it closed already. */
  lemma ClosureIsCreatedExactly(db: DB, id: string, seg: string, now: int, durationMinutes: int, reason: string)
    requires WellFormed(db)
    ensures var w := Window(seg, now, now + durationMinutes * 60_000_000_000);
      var accepted := seg != "" && reason != "" && 1 <= durationMinutes <= 10_080 && seg in db.segments && Open(db, w);
      ApplyClosure(db, id, seg, now, durationMinutes, reason)
        == if accepted then db.(closures := db.closures + [Closure(id, seg, w.lo, w.hi, reason, true)]) else db
  {
    if durationMinutes >= 1 {
      ClosureCheckMeansOpen(db, Window(seg, now, now + durationMinutes * MINUTE));
    }
  }

  lemma ClosuresStayDisjoint(db: DB, id: string, seg: string, now: int, durationMinutes: int, reason: string)
    requires WellFormed(db) && ClosuresDisjoint(db)
    ensures ClosuresDisjoint(ApplyClosure(db, id, seg, now, durationMinutes, reason))
  {
    var w := Window(seg, now, now + durationMinutes * MINUTE);
    var after := ApplyClosure(db, id, seg, now, durationMinutes, reason);
    ClosureIsCreatedExactly(db, id, seg, now, durationMinutes, reason);
    forall i, j, s, t | 0 <= i < j < |after.closures|
      ensures !(ClosedAt(after.closures[i], s, t) && ClosedAt(after.closures[j], s, t))
    {
      if j == |db.closures| {
        assert db.closures[i] in db.closures && !ClosedWithin(db.closures[i], w.seg, w.lo, w.hi);
      }
    }
  }

  lemma StepKeepsInv(bound: Bound, db: DB, step: Step)
    requires Inv(bound, db) && Fits(bound, db, step)
    ensures Inv(bound, Apply(db, step))
  {
    RowsStayWellFormed(db, step);
    var after := Apply(db, step);
    match step
    case ReserveTx(rid, jid, windows, vehicle, priority) =>
      if bound == Maximum {
        ReserveKeepsCapacity(db, rid, jid, windows, SlotsNeeded(vehicle), priority);
      } else {
        ReserveKeepsBuffer(db, rid, jid, windows, SlotsNeeded(vehicle), priority);
      }
    case ReleaseWhere(f) =>
      forall seg, t | seg in db.segments
        ensures SumSlots(after.rows, Covering(seg, t)) <= SumSlots(db.rows, Covering(seg, t))
        ensures SumSlots(after.rows, NormalCovering(seg, t)) <= SumSlots(db.rows, NormalCovering(seg, t))
      {
        ReleaseLowersSums(db.rows, f, Covering(seg, t));
        ReleaseLowersSums(db.rows, f, NormalCovering(seg, t));
      }
    case CreateClosure(id, seg, now, duration, reason) => ClosuresStayDisjoint(db, id, seg, now, duration, reason);
    case RegisterSegments(ids, cap) =>
      forall seg, t | seg in after.segments && seg !in db.segments
        ensures SumSlots(after.rows, Covering(seg, t)) == 0.0 && SumSlots(after.rows, NormalCovering(seg, t)) == 0.0
      {
        UnknownSegmentIsEmpty(db.rows, seg, t, db.segments.Keys);
      }
    case UpdateMaxCapacity(seg, cap) =>
      if after != db {
        UpdateKeepsBoundExactly(bound, db, seg, cap);
      }
  }

  lemma {:induction false} UnknownSegmentIsEmpty(rows: seq<Row>, seg: string, t: int, known: set<string>)
    requires forall r :: r in rows ==> r.window.seg in known
    requires seg !in known
    ensures SumSlots(rows, Covering(seg, t)) == 0.0 && SumSlots(rows, NormalCovering(seg, t)) == 0.0
  {
    if rows != [] {
      assert rows[0] in rows && forall r :: r in rows[1..] ==> r in rows;
      UnknownSegmentIsEmpty(rows[1..], seg, t, known);
    }
  }

  /**
   Pointwise capacity and the emergency buffer. In every run of fitting steps the load on
   any segment at any instant stays within its maximum, respectively the normal-priority
   load leaves the emergency slot free; and the active closures of a segment stay
   pairwise disjoint.
   */
  lemma {:induction false} BoundHoldsInEveryRun(bound: Bound, db: DB, steps: seq<Step>)
    requires Inv(bound, db) && AllFit(bound, db, steps)
    ensures Inv(bound, Run(db, steps))
    decreases |steps|
  {
    if steps != [] {
      StepKeepsInv(bound, db, steps[0]);
      BoundHoldsInEveryRun(bound, Apply(db, steps[0]), steps[1..]);
    }
  }

  /** A registration adds its unknown ids with the default capacity, or nothing if the input is out of order. */
  lemma RegistrationAddsExactly(db: DB, ids: seq<string>, cap: real)
    ensures var after := Apply(db, RegisterSegments(ids, cap));
      && after == db.(segments := after.segments)
      && (forall seg :: seg in after.segments <==>
            seg in db.segments || (seg in ids && "" !in ids && cap > 0.0))
      && (forall seg :: seg in after.segments ==>
            after.segments[seg] == if seg in db.segments then db.segments[seg] else cap)
  {
  }

  /** An update sets the capacity of a known segment to a positive value, or nothing. */
  lemma UpdateSetsExactly(db: DB, seg: string, cap: real)
    ensures Apply(db, UpdateMaxCapacity(seg, cap))
         == if |seg| > 0 && seg in db.segments && 0.0 < cap then db.(segments := db.segments[seg := cap]) else db
  {
  }

  // ---------------------------------------------------------------------------
  // Conservation: rows, closures and released slots
  // ---------------------------------------------------------------------------

  lemma {:induction false} RowsAreNeverLost(db: DB, steps: seq<Step>)
    requires WellFormed(db)
    ensures WellFormed(Run(db, steps)) && RowsKept(db.rows, Run(db, steps).rows)
    decreases |steps|
  {
    if steps != [] {
      RowsStayWellFormed(db, steps[0]);
      RowsAreNeverLost(Apply(db, steps[0]), steps[1..]);
    }
  }

  /** The slots that the admitted reservations of a run insert. */
  function Inserted(db: DB, steps: seq<Step>): real
    decreases |steps|
  {
    if steps == [] then 0.0 else InsertedBy(db, steps[0]) + Inserted(Apply(db, steps[0]), steps[1..])
  }

  function InsertedBy(db: DB, step: Step): real {
    if !step.ReserveTx? || FirstFailure(db, step.windows, SlotsNeeded(step.vehicle), step.priority).Some? then 0.0
    else AllSlots(NewRows(step.rid, step.jid, step.windows, SlotsNeeded(step.vehicle), step.priority))
  }

  /** Conservation: what was there and what was ever inserted is either active or released. */
  lemma {:induction false} SlotsAreConserved(db: DB, steps: seq<Step>)
    ensures var rows := Run(db, steps).rows;
      SumSlots(rows, AnyActive) + ReleasedSlots(rows) == AllSlots(db.rows) + Inserted(db, steps)
    decreases |steps|
  {
    if steps == [] {
      AllIsActiveAndReleased(db.rows);
    } else {
      StepConserves(db, steps[0]);
      SlotsAreConserved(Apply(db, steps[0]), steps[1..]);
    }
  }

  lemma StepConserves(db: DB, step: Step)
    ensures AllSlots(Apply(db, step).rows) == AllSlots(db.rows) + InsertedBy(db, step)
  {
    match step
    case ReserveTx(rid, jid, windows, vehicle, priority) =>
      AllSlotsOfConcat(db.rows, NewRows(rid, jid, windows, SlotsNeeded(vehicle), priority));
    case ReleaseWhere(f) => ReleaseConserves(db.rows, f);
    case _ =>
  }

  lemma StepAvoidsClosures(db: DB, step: Step, c: Closure, k: nat)
    requires c in db.closures && c.active && |db.rows| <= k < |Apply(db, step).rows|
    ensures var w := Apply(db, step).rows[k].window; !ClosedWithin(c, w.seg, w.lo, w.hi)
  {
    assert step.ReserveTx?;
    var w := step.windows[k - |db.rows|];
    assert w in step.windows && Apply(db, step).rows[k].window == w;
    assert CheckWindow(db, w, SlotsNeeded(step.vehicle), step.priority).None?;
    ClosesAtSomeInstant(c, w.seg, w.lo, w.hi);
  }

  /** No instant of a row inserted after a closure has committed lies in the closure, whatever ran in between. */
  lemma {:induction false} NoRowOverlapsAnEarlierClosure(db: DB, steps: seq<Step>, c: Closure, k: nat)
    requires WellFormed(db) && c in db.closures && c.active
    requires |db.rows| <= k < |Run(db, steps).rows|
    ensures forall t :: !(ClosedAt(c, c.seg, t) && Covers(Run(db, steps).rows[k].window, c.seg, t))
    decreases |steps|
  {
    var first := Apply(db, steps[0]);
    RowsStayWellFormed(db, steps[0]);
    RowsAreNeverLost(first, steps[1..]);
    if k < |first.rows| {
      StepAvoidsClosures(db, steps[0], c, k);
      var w := first.rows[k].window;
      assert Run(db, steps).rows[k].window == w;
      forall t ensures !(ClosedAt(c, c.seg, t) && Covers(w, c.seg, t)) {
        assert !ClosedWithin(c, w.seg, w.lo, w.hi);
      }
    } else {
      NoRowOverlapsAnEarlierClosure(first, steps[1..], c, k);
    }
  }

  /**
   The bounded leak. Whatever left rows behind, right after an orphan pass at time now no
   active row has a window that ended before now - threshold; younger rows are untouched.
   */
  lemma OrphanPassBoundsLeaks(db: DB, now: int, threshold: int)
    ensures var after := Apply(db, ReleaseWhere(EndedBefore(now - threshold)));
      && (forall r :: r in after.rows && r.status == Active ==> r.window.hi >= now - threshold)
      && (forall r :: r in db.rows && r.window.hi >= now - threshold ==> r in after.rows)
  {
    var after := Release(db.rows, EndedBefore(now - threshold));
    forall r | r in db.rows && r.window.hi >= now - threshold ensures r in after {
      var i :| 0 <= i < |db.rows| && db.rows[i] == r;
      assert after[i] == r;
    }
  }
}
