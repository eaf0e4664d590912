/**
 One reservation transaction: what it checks, when it admits, and when admission
 keeps every segment within its capacity.
 */
module Admission {
  import opened Tables
  import opened Wrappers

  datatype VehicleType = Car | Van | Motorcycle | Truck

  function SlotsNeeded(v: VehicleType): (slots: real)
    ensures slots > 0.0
  {
    match v
    case Car => 1.0
    case Van => 1.5
    case Motorcycle => 0.5
    case Truck => 3.0
  }

  /** A car takes one slot; two motorcycles take a car's, a truck two vans' and three cars'. */
  lemma WeightsOfVehicles()
    ensures SlotsNeeded(Car) == 1.0 && SlotsNeeded(Car) == SlotsNeeded(Motorcycle) + SlotsNeeded(Motorcycle)
    ensures SlotsNeeded(Truck) == SlotsNeeded(Van) + SlotsNeeded(Van) == 3.0
  {
  }

  datatype Request = Request(jid: string, key: string, vehicle: VehicleType, priority: Priority, windows: seq<Window>)

  datatype Reason = InvalidTimeWindow | UnknownSegment | SegmentClosed(closure: Closure) | AtCapacity(available: real)

  datatype FailedSegment = FailedSegment(window: Window, reason: Reason, requested: real)

  const EMERGENCY_BUFFER := 1.0

  /** What one whole slot kept free leaves of a capacity. */
  function BeyondBuffer(maxCapacity: real): real {
    if maxCapacity <= 1.0 then 0.0 else maxCapacity - 1.0
  }

  function EffectiveCapacity(maxCapacity: real, priority: Priority): (effective: real)
    ensures priority == Max ==> effective == maxCapacity
    ensures priority == Normal && maxCapacity > 0.0 ==> effective == BeyondBuffer(maxCapacity)
  {
    if priority == Max then maxCapacity
    else
      var buffer := if EMERGENCY_BUFFER > maxCapacity then maxCapacity else EMERGENCY_BUFFER;
      var effective := maxCapacity - buffer;
      if effective < 0.0 then 0.0 else effective
  }

  /** ORDER BY start_time ASC LIMIT 1 over the active closures that overlap the window. */
  function FindActiveOverlap(closures: seq<Closure>, seg: string, lo: int, hi: int): (c: Option<Closure>)
    ensures c.None? <==> forall x :: x in closures ==> !Closes(x, seg, lo, hi)
    ensures c.Some? ==> c.value in closures && Closes(c.value, seg, lo, hi)
    ensures c.Some? ==> forall x :: x in closures && Closes(x, seg, lo, hi) ==> c.value.start <= x.start
  {
    if closures == [] then None
    else
      var later := FindActiveOverlap(closures[1..], seg, lo, hi);
      if !Closes(closures[0], seg, lo, hi) then later
      else if later.Some? && later.value.start < closures[0].start then later
      else Some(closures[0])
  }

  /** start_time < hi AND end_time > lo. */
  predicate Closes(c: Closure, seg: string, lo: int, hi: int) {
    c.active && c.seg == seg && c.start < hi && c.end > lo
  }

  ghost predicate ClosedWithin(c: Closure, seg: string, lo: int, hi: int) {
    exists t :: lo <= t < hi && ClosedAt(c, seg, t)
  }

  /** The clause of the closure check means that the closure is in force at some instant of the window. */
  lemma ClosesAtSomeInstant(c: Closure, seg: string, lo: int, hi: int)
    ensures ClosedWithin(c, seg, lo, hi) ==> Closes(c, seg, lo, hi)
    ensures lo < hi && c.start < c.end ==> (Closes(c, seg, lo, hi) <==> ClosedWithin(c, seg, lo, hi))
  {
    if lo < hi && c.start < c.end && Closes(c, seg, lo, hi) {
      assert ClosedAt(c, seg, if c.start < lo then lo else c.start);
    }
  }

  /** The checks on one requested window, in the order the transaction makes them. */
  function CheckWindow(db: DB, w: Window, slots: real, priority: Priority): Option<FailedSegment> {
    if w.hi <= w.lo then Some(FailedSegment(w, InvalidTimeWindow, slots))
    else if w.seg !in db.segments then Some(FailedSegment(w, UnknownSegment, slots))
    else
      var closure := FindActiveOverlap(db.closures, w.seg, w.lo, w.hi);
      if closure.Some? then Some(FailedSegment(w, SegmentClosed(closure.value), slots))
      else
        var used := SumSlots(db.rows, Overlapping(w.seg, w.lo, w.hi));
        var available := EffectiveCapacity(db.segments[w.seg], priority) - used;
        if available < slots then Some(FailedSegment(w, AtCapacity(if available < 0.0 then 0.0 else available), slots))
        else None
  }

  /** The failure the transaction reports: that of the first window that fails. */
  function FirstFailure(db: DB, ws: seq<Window>, slots: real, priority: Priority): (f: Option<FailedSegment>)
    ensures f.None? <==> forall w :: w in ws ==> CheckWindow(db, w, slots, priority).None?
  {
    if ws == [] then None
    else
      var f := CheckWindow(db, ws[0], slots, priority);
      if f.Some? then f else FirstFailure(db, ws[1..], slots, priority)
  }

  /** What a reservation may use of a capacity. */
  function Usable(maxCapacity: real, priority: Priority): real {
    if priority == Max then maxCapacity else if maxCapacity > 1.0 then maxCapacity - 1.0 else 0.0
  }

  /** No instant of the window is closed. */
  ghost predicate Open(db: DB, w: Window) {
    forall c :: c in db.closures ==> !ClosedWithin(c, w.seg, w.lo, w.hi)
  }

  /** What a reported failure means, instant by instant. */
  ghost predicate Explains(db: DB, f: FailedSegment, slots: real, priority: Priority) {
    var w := f.window;
    && f.requested == slots
    && match f.reason
       case InvalidTimeWindow => w.hi <= w.lo
       case UnknownSegment => w.lo < w.hi && w.seg !in db.segments
       case SegmentClosed(c) =>
         && w.lo < w.hi && w.seg in db.segments && c in db.closures && ClosedWithin(c, w.seg, w.lo, w.hi)
         && forall x :: x in db.closures && ClosedWithin(x, w.seg, w.lo, w.hi) ==> c.start <= x.start
       case AtCapacity(available) =>
         && w.lo < w.hi && w.seg in db.segments && Open(db, w)
         && var taken, usable := SlotsSharing(db.rows, w), Usable(db.segments[w.seg], priority);
            && 0.0 <= available < slots && taken + slots > usable
            && (if available > 0.0 then taken + available == usable else taken >= usable)
  }

  /** What the transaction asks of a window, instant by instant. */
  ghost predicate Admissible(db: DB, w: Window, slots: real, priority: Priority) {
    && w.lo < w.hi && w.seg in db.segments && Open(db, w)
    && SlotsSharing(db.rows, w) + slots <= Usable(db.segments[w.seg], priority)
  }

  lemma ClosureCheckMeansOpen(db: DB, w: Window)
    requires WellFormed(db) && w.lo < w.hi
    ensures var c := FindActiveOverlap(db.closures, w.seg, w.lo, w.hi);
      && (c.None? <==> Open(db, w))
      && (c.Some? ==> c.value in db.closures && ClosedWithin(c.value, w.seg, w.lo, w.hi))
      && (c.Some? ==>
            forall x :: x in db.closures && ClosedWithin(x, w.seg, w.lo, w.hi) ==> c.value.start <= x.start)
  {
    forall c | c in db.closures ensures Closes(c, w.seg, w.lo, w.hi) <==> ClosedWithin(c, w.seg, w.lo, w.hi) {
      ClosesAtSomeInstant(c, w.seg, w.lo, w.hi);
    }
  }

  lemma CheckIsTrue(db: DB, w: Window, slots: real, priority: Priority)
    requires WellFormed(db) && slots > 0.0
    ensures var f := CheckWindow(db, w, slots, priority);
      && (f.None? <==> Admissible(db, w, slots, priority))
      && (f.Some? ==> f.value.window == w && Explains(db, f.value, slots, priority))
  {
    if w.lo < w.hi {
      ClosureCheckMeansOpen(db, w);
      OverlapSumIsOfSharers(db.rows, w);
    }
  }

  /** A request is admitted iff each window is open and has room beside the rows that share an instant with it. */
  lemma AdmittedExactly(db: DB, ws: seq<Window>, slots: real, priority: Priority)
    requires WellFormed(db) && slots > 0.0
    ensures FirstFailure(db, ws, slots, priority).None? <==> forall w :: w in ws ==> Admissible(db, w, slots, priority)
  {
    forall w | w in ws ensures CheckWindow(db, w, slots, priority).None? <==> Admissible(db, w, slots, priority) {
      CheckIsTrue(db, w, slots, priority);
    }
  }

  /** Where nobody shares an instant with the windows, only a vehicle that is too heavy is refused for capacity. */
  lemma AloneIsAdmitted(db: DB, ws: seq<Window>, slots: real, priority: Priority)
    requires WellFormed(db) && slots > 0.0
    requires forall w :: w in ws ==> w.lo < w.hi && w.seg in db.segments && Open(db, w)
    requires forall w, r :: w in ws && r in db.rows && r.status == Active ==> !Share(r.window, w)
    ensures FirstFailure(db, ws, slots, priority).None?
        <==> forall w :: w in ws ==> slots <= Usable(db.segments[w.seg], priority)
  {
    AdmittedExactly(db, ws, slots, priority);
    forall w | w in ws ensures SlotsSharing(db.rows, w) == 0.0 {
      NobodyShares(db.rows, w);
    }
  }

  /** The reported failure is that of the earliest window that fails, and its reason is true. */
  lemma {:induction false} FailureIsEarliestAndTrue(
    db: DB, ws: seq<Window>, slots: real, priority: Priority) returns (i: nat)
    requires FirstFailure(db, ws, slots, priority).Some?
    requires WellFormed(db) && slots > 0.0
    ensures var f := FirstFailure(db, ws, slots, priority).value;
      && i < |ws| && ws[i] == f.window && Explains(db, f, slots, priority)
      && forall k :: 0 <= k < i ==> Admissible(db, ws[k], slots, priority)
    decreases |ws|
  {
    CheckIsTrue(db, ws[0], slots, priority);
    if CheckWindow(db, ws[0], slots, priority).Some? {
      i := 0;
    } else {
      var j := FailureIsEarliestAndTrue(db, ws[1..], slots, priority);
      i := j + 1;
      forall k | 0 <= k < i ensures Admissible(db, ws[k], slots, priority) {
        assert k > 0 ==> ws[1..][k - 1] == ws[k];
      }
    }
  }

  /** The rows an admitted transaction inserts. */
  function NewRows(rid: string, jid: string, ws: seq<Window>, slots: real, priority: Priority): (rows: seq<Row>)
    ensures |rows| == |ws|
    ensures forall i :: 0 <= i < |ws| ==> rows[i] == Row(rid, jid, ws[i], slots, priority, Active)
  {
    seq(|ws|, i requires 0 <= i < |ws| => Row(rid, jid, ws[i], slots, priority, Active))
  }

  /** One serialisable transaction over one list of windows. */
  function Reserve(db: DB, rid: string, jid: string, ws: seq<Window>, slots: real, priority: Priority): DB {
    if FirstFailure(db, ws, slots, priority).Some? then db
    else db.(rows := db.rows + NewRows(rid, jid, ws, slots, priority))
  }

  // ---------------------------------------------------------------------------
  // Capacity
  // ---------------------------------------------------------------------------

  /** The slots a request itself puts on a segment at an instant, once per covering window. */
  function OwnLoad(ws: seq<Window>, slots: real, seg: string, t: int): real {
    if ws == [] then 0.0
    else (if Covers(ws[0], seg, t) then slots else 0.0) + OwnLoad(ws[1..], slots, seg, t)
  }

  /** The constraints that the schema declares. */
  ghost predicate WellFormed(db: DB) {
    && Positive(db.rows)
    && (forall r :: r in db.rows ==> r.window.seg in db.segments && r.window.lo < r.window.hi)
    && (forall c :: c in db.closures ==> c.start < c.end)
    && (forall seg :: seg in db.segments ==> db.segments[seg] > 0.0)
  }

  /** At no instant do the active slots on a segment exceed its maximum. */
  ghost predicate WithinCapacity(db: DB) {
    forall seg, t :: seg in db.segments ==> SumSlots(db.rows, Covering(seg, t)) <= db.segments[seg]
  }

  /** At no instant do normal-priority reservations use the slot kept for emergency vehicles. */
  ghost predicate BufferKept(db: DB) {
    forall seg, t :: seg in db.segments ==> SumSlots(db.rows, NormalCovering(seg, t)) <= BeyondBuffer(db.segments[seg])
  }

  predicate WindowsValid(ws: seq<Window>) {
    forall w :: w in ws ==> w.lo < w.hi
  }

  /**
   A condition on the request alone: nowhere do its own windows pile up beyond one
   vehicle's weight plus the headroom that the check leaves for its priority.
   */
  ghost predicate OwnLoadFits(ws: seq<Window>, slots: real, headroom: real) {
    forall seg, t :: OwnLoad(ws, slots, seg, t) <= slots + headroom
  }

  function Headroom(priority: Priority): real {
    if priority == Max then 0.0 else EMERGENCY_BUFFER
  }

  lemma {:induction false} OwnLoadIsSum(
    rid: string, jid: string, ws: seq<Window>, slots: real, priority: Priority, seg: string, t: int)
    requires slots > 0.0
    ensures var rows := NewRows(rid, jid, ws, slots, priority);
      && SumSlots(rows, Covering(seg, t)) == OwnLoad(ws, slots, seg, t)
      && SumSlots(rows, NormalCovering(seg, t)) == if priority == Normal then OwnLoad(ws, slots, seg, t) else 0.0
  {
    if ws != [] {
      assert NewRows(rid, jid, ws, slots, priority)[1..] == NewRows(rid, jid, ws[1..], slots, priority);
      OwnLoadIsSum(rid, jid, ws[1..], slots, priority, seg, t);
    }
  }

  lemma {:induction false} OwnLoadHasCoveringWindow(ws: seq<Window>, slots: real, seg: string, t: int)
    requires slots > 0.0
    ensures OwnLoad(ws, slots, seg, t) >= 0.0
    ensures OwnLoad(ws, slots, seg, t) > 0.0 ==> exists w :: w in ws && Covers(w, seg, t)
  {
    if ws != [] {
      OwnLoadHasCoveringWindow(ws[1..], slots, seg, t);
      if Covers(ws[0], seg, t) {
        assert ws[0] in ws;
      }
    }
  }

  /**
   The admission bound. After an admitted request whose windows cover an instant k
   times, the load there is at most the effective capacity plus (k-1) times its weight.
   */
  lemma AdmissionBound(
    db: DB, rid: string, jid: string, ws: seq<Window>, slots: real, priority: Priority, seg: string, t: int)
    requires WellFormed(db) && slots > 0.0
    requires FirstFailure(db, ws, slots, priority).None? && OwnLoad(ws, slots, seg, t) > 0.0
    ensures var after := Reserve(db, rid, jid, ws, slots, priority);
      && seg in db.segments
      && SumSlots(after.rows, Covering(seg, t))
           <= EffectiveCapacity(db.segments[seg], priority) + (OwnLoad(ws, slots, seg, t) - slots)
      && SumSlots(after.rows, NormalCovering(seg, t))
           <= EffectiveCapacity(db.segments[seg], priority) + (OwnLoad(ws, slots, seg, t) - slots)
  {
    OwnLoadHasCoveringWindow(ws, slots, seg, t);
    var w :| w in ws && Covers(w, seg, t);
    assert CheckWindow(db, w, slots, priority).None?;
    OverlapSumDominatesLoad(db.rows, seg, w.lo, w.hi, t);
    var more := NewRows(rid, jid, ws, slots, priority);
    OwnLoadIsSum(rid, jid, ws, slots, priority, seg, t);
    SumOfAppended(db.rows, more, Covering(seg, t));
    SumOfAppended(db.rows, more, NormalCovering(seg, t));
  }

  lemma ReserveKeepsCapacity(db: DB, rid: string, jid: string, ws: seq<Window>, slots: real, priority: Priority)
    requires WellFormed(db) && slots > 0.0 && WithinCapacity(db)
    requires OwnLoadFits(ws, slots, Headroom(priority))
    ensures WithinCapacity(Reserve(db, rid, jid, ws, slots, priority))
  {
    var after := Reserve(db, rid, jid, ws, slots, priority);
    if FirstFailure(db, ws, slots, priority).None? {
      forall seg, t | seg in after.segments ensures SumSlots(after.rows, Covering(seg, t)) <= after.segments[seg] {
        OwnLoadHasCoveringWindow(ws, slots, seg, t);
        if OwnLoad(ws, slots, seg, t) > 0.0 {
          AdmissionBound(db, rid, jid, ws, slots, priority, seg, t);
          NormalNeedsCapacity(db, ws, slots, priority, seg, t);
        } else {
          OwnLoadIsSum(rid, jid, ws, slots, priority, seg, t);
          SumOfAppended(db.rows, NewRows(rid, jid, ws, slots, priority), Covering(seg, t));
        }
      }
    }
  }

  /** A normal request is admitted only where the buffer is a full slot. */
  lemma NormalNeedsCapacity(db: DB, ws: seq<Window>, slots: real, priority: Priority, seg: string, t: int)
    requires WellFormed(db) && slots > 0.0 && FirstFailure(db, ws, slots, priority).None?
    requires OwnLoad(ws, slots, seg, t) > 0.0
    ensures seg in db.segments && EffectiveCapacity(db.segments[seg], priority) == db.segments[seg] - Headroom(priority)
  {
    OwnLoadHasCoveringWindow(ws, slots, seg, t);
    var w :| w in ws && Covers(w, seg, t);
    assert CheckWindow(db, w, slots, priority).None?;
    OverlapSumDominatesLoad(db.rows, seg, w.lo, w.hi, t);
  }

  lemma ReserveKeepsBuffer(db: DB, rid: string, jid: string, ws: seq<Window>, slots: real, priority: Priority)
    requires WellFormed(db) && slots > 0.0 && BufferKept(db)
    requires priority == Normal ==> OwnLoadFits(ws, slots, 0.0)
    ensures BufferKept(Reserve(db, rid, jid, ws, slots, priority))
  {
    var after := Reserve(db, rid, jid, ws, slots, priority);
    if FirstFailure(db, ws, slots, priority).None? {
      forall seg, t | seg in after.segments
        ensures SumSlots(after.rows, NormalCovering(seg, t)) <= BeyondBuffer(after.segments[seg])
      {
        OwnLoadHasCoveringWindow(ws, slots, seg, t);
        if OwnLoad(ws, slots, seg, t) > 0.0 && priority == Normal {
          AdmissionBound(db, rid, jid, ws, slots, priority, seg, t);
        } else {
          OwnLoadIsSum(rid, jid, ws, slots, priority, seg, t);
          SumOfAppended(db.rows, NewRows(rid, jid, ws, slots, priority), NormalCovering(seg, t));
        }
      }
    }
  }

  // ---------------------------------------------------------------------------
  // The conditions are exact
  // ---------------------------------------------------------------------------

  /** An empty network on which every segment just fits one vehicle of this priority. */
  function TightNetwork(ws: seq<Window>, slots: real, priority: Priority): DB {
    DB(map w | w in ws :: w.seg := slots + Headroom(priority), [], [])
  }

  lemma TightNetworkAdmits(ws: seq<Window>, slots: real, priority: Priority)
    requires slots > 0.0 && WindowsValid(ws)
    ensures var db := TightNetwork(ws, slots, priority);
      && WellFormed(db) && WithinCapacity(db) && BufferKept(db)
      && FirstFailure(db, ws, slots, priority).None?
  {
  }

  ghost predicate AlwaysKeepsCapacity(ws: seq<Window>, slots: real, priority: Priority) {
    forall db: DB, rid, jid :: WellFormed(db) && WithinCapacity(db)
      ==> WithinCapacity(Reserve(db, rid, jid, ws, slots, priority))
  }

  ghost predicate AlwaysKeepsBuffer(ws: seq<Window>, slots: real, priority: Priority) {
    forall db: DB, rid, jid :: WellFormed(db) && BufferKept(db)
      ==> BufferKept(Reserve(db, rid, jid, ws, slots, priority))
  }

  lemma InvalidWindowIsRejected(db: DB, ws: seq<Window>, slots: real, priority: Priority)
    requires !WindowsValid(ws)
    ensures FirstFailure(db, ws, slots, priority).Some?
  {
    var w :| w in ws && w.hi <= w.lo;
    assert CheckWindow(db, w, slots, priority).Some?;
  }

  /**
   The check does not count the request's own windows, so it does not protect capacity
   from every request. It does, on every network, exactly for the requests whose
   windows are not all valid or whose own load nowhere exceeds one vehicle's weight
   plus the headroom of its priority.
   */
  lemma CapacityIsKeptExactly(ws: seq<Window>, slots: real, priority: Priority)
    requires slots > 0.0
    ensures AlwaysKeepsCapacity(ws, slots, priority)
        <==> !WindowsValid(ws) || OwnLoadFits(ws, slots, Headroom(priority))
  {
    if !WindowsValid(ws) {
      forall db: DB, rid, jid | WellFormed(db) && WithinCapacity(db)
        ensures WithinCapacity(Reserve(db, rid, jid, ws, slots, priority))
      {
        InvalidWindowIsRejected(db, ws, slots, priority);
      }
    } else if OwnLoadFits(ws, slots, Headroom(priority)) {
      forall db: DB, rid, jid | WellFormed(db) && WithinCapacity(db)
        ensures WithinCapacity(Reserve(db, rid, jid, ws, slots, priority))
      {
        ReserveKeepsCapacity(db, rid, jid, ws, slots, priority);
      }
    } else {
      var seg, t :| OwnLoad(ws, slots, seg, t) > slots + Headroom(priority);
      var db := TightNetwork(ws, slots, priority);
      TightNetworkAdmits(ws, slots, priority);
      OwnLoadHasCoveringWindow(ws, slots, seg, t);
      OwnLoadIsSum("", "", ws, slots, priority, seg, t);
      var after := Reserve(db, "", "", ws, slots, priority);
      assert after.rows == NewRows("", "", ws, slots, priority);
      assert !WithinCapacity(after);
    }
  }

  /** Likewise for the emergency buffer: only a normal request can use it up. */
  lemma BufferIsKeptExactly(ws: seq<Window>, slots: real, priority: Priority)
    requires slots > 0.0
    ensures AlwaysKeepsBuffer(ws, slots, priority)
        <==> priority == Max || !WindowsValid(ws) || OwnLoadFits(ws, slots, 0.0)
  {
    if !WindowsValid(ws) {
      forall db: DB, rid, jid | WellFormed(db) && BufferKept(db)
        ensures BufferKept(Reserve(db, rid, jid, ws, slots, priority))
      {
        InvalidWindowIsRejected(db, ws, slots, priority);
      }
    } else if priority == Max || OwnLoadFits(ws, slots, 0.0) {
      forall db: DB, rid, jid | WellFormed(db) && BufferKept(db)
        ensures BufferKept(Reserve(db, rid, jid, ws, slots, priority))
      {
        ReserveKeepsBuffer(db, rid, jid, ws, slots, priority);
      }
    } else {
      var seg, t :| OwnLoad(ws, slots, seg, t) > slots;
      var db := TightNetwork(ws, slots, priority);
      TightNetworkAdmits(ws, slots, priority);
      OwnLoadHasCoveringWindow(ws, slots, seg, t);
      OwnLoadIsSum("", "", ws, slots, priority, seg, t);
      var after := Reserve(db, "", "", ws, slots, priority);
      assert after.rows == NewRows("", "", ws, slots, priority);
      assert !BufferKept(after);
    }
  }

  /** Windows that are disjoint on each segment, as a route without repeats yields. */
  ghost predicate DisjointPerSegment(ws: seq<Window>) {
    forall i, j :: 0 <= i < j < |ws| ==> !Overlaps(ws[i], ws[j].seg, ws[j].lo, ws[j].hi)
  }

  lemma {:induction false} DisjointWindowsFit(ws: seq<Window>, slots: real, seg: string, t: int)
    requires slots > 0.0 && DisjointPerSegment(ws)
    ensures OwnLoad(ws, slots, seg, t) <= slots
  {
    if ws != [] {
      DisjointWindowsFit(ws[1..], slots, seg, t);
      OwnLoadHasCoveringWindow(ws[1..], slots, seg, t);
      assert forall j :: 0 <= j < |ws[1..]| ==> ws[1..][j] == ws[j + 1];
    }
  }

  lemma {:induction false} EachCoveringWindowCounts(ws: seq<Window>, slots: real, seg: string, t: int, i: nat)
    requires slots > 0.0 && i < |ws| && Covers(ws[i], seg, t)
    ensures OwnLoad(ws, slots, seg, t) == slots + OwnLoad(ws[..i] + ws[i + 1..], slots, seg, t)
  {
    if i == 0 {
      assert ws[..0] + ws[1..] == ws[1..];
    } else {
      EachCoveringWindowCounts(ws[1..], slots, seg, t, i - 1);
      var rest := ws[..i] + ws[i + 1..];
      assert rest[1..] == ws[1..][..i - 1] + ws[1..][i..];
    }
  }

  /** For valid windows, fitting without headroom is the same as being disjoint per segment. */
  lemma FitsExactlyWhenDisjoint(ws: seq<Window>, slots: real)
    requires slots > 0.0 && WindowsValid(ws)
    ensures OwnLoadFits(ws, slots, 0.0) <==> DisjointPerSegment(ws)
  {
    if DisjointPerSegment(ws) {
      forall seg, t ensures OwnLoad(ws, slots, seg, t) <= slots {
        DisjointWindowsFit(ws, slots, seg, t);
      }
    } else {
      var i, j :| 0 <= i < j < |ws| && Overlaps(ws[i], ws[j].seg, ws[j].lo, ws[j].hi);
      assert ws[i] in ws && ws[j] in ws;
      var seg, t := ws[i].seg, if ws[i].lo < ws[j].lo then ws[j].lo else ws[i].lo;
      EachCoveringWindowCounts(ws, slots, seg, t, j);
      var others := ws[..j] + ws[j + 1..];
      assert others[i] == ws[i];
      EachCoveringWindowCounts(others, slots, seg, t, i);
      OwnLoadHasCoveringWindow(others[..i] + others[i + 1..], slots, seg, t);
      assert OwnLoad(ws, slots, seg, t) > slots;
    }
  }

  lemma {:induction false} WindowsOfNewRows(
    rid: string, own: string, jid: string, ws: seq<Window>, slots: real, priority: Priority)
    ensures WindowsOf(NewRows(rid, jid, ws, slots, priority), own) == if rid == own then ws else []
  {
    if ws != [] {
      assert NewRows(rid, jid, ws, slots, priority)[1..] == NewRows(rid, jid, ws[1..], slots, priority);
      WindowsOfNewRows(rid, own, jid, ws[1..], slots, priority);
    }
  }
}
