/**
 The time windows of a route: how the journey service computes them, what the capacity
 service makes of them, and when the stored ones authorise the planned traversal.
 */
module TimeWindows {
  import opened Tables
  import Admission
  import DbRuns

  /** The parts of a route segment that matter here. Traversal times come in whole minutes. */
  datatype MapSegment = MapSegment(id: string, minutes: int)

  const BUFFER := 5 * DbRuns.MINUTE

  function Duration(seg: MapSegment): int { seg.minutes * DbRuns.MINUTE }

  /** The planned time from departure to the start of segment n. */
  function Elapsed(route: seq<MapSegment>, n: nat): int
    requires n <= |route|
  {
    if n == 0 then 0 else Elapsed(route, n - 1) + Duration(route[n - 1])
  }

  function Start(departure: int, route: seq<MapSegment>, i: nat): int
    requires i <= |route|
  {
    departure + Elapsed(route, i)
  }

  function WindowAt(departure: int, route: seq<MapSegment>, i: nat): Window
    requires i < |route|
  {
    Window(route[i].id, Start(departure, route, i) - BUFFER, Start(departure, route, i + 1) + BUFFER)
  }

  function Windows(departure: int, route: seq<MapSegment>): (ws: seq<Window>)
    ensures |ws| == |route|
    ensures forall i :: 0 <= i < |route| ==> ws[i] == WindowAt(departure, route, i)
  {
    seq(|route|, i requires 0 <= i < |route| => WindowAt(departure, route, i))
  }

  function TotalMinutes(route: seq<MapSegment>): int {
    if route == [] then 0 else route[0].minutes + TotalMinutes(route[1..])
  }

  lemma {:induction false} ElapsedOfTail(route: seq<MapSegment>, n: nat)
    requires 0 < n <= |route|
    ensures Elapsed(route, n) == Duration(route[0]) + Elapsed(route[1..], n - 1)
  {
    if n > 1 {
      ElapsedOfTail(route, n - 1);
    }
  }

  lemma {:induction false} ElapsedIsMinutes(route: seq<MapSegment>)
    ensures Elapsed(route, |route|) == TotalMinutes(route) * 60_000_000_000
  {
    if route != [] {
      ElapsedOfTail(route, |route|);
      ElapsedIsMinutes(route[1..]);
    }
  }

  predicate Forward(route: seq<MapSegment>) {
    forall seg :: seg in route ==> seg.minutes >= 0
  }

  /** The loop of ComputeTimeWindows. */
  method ComputeTimeWindows(departure: int, route: seq<MapSegment>) returns (result: seq<Window>, arrival: int)
    ensures result == Windows(departure, route)
    ensures |route| > 0 ==> result[0].lo == departure - 300_000_000_000
    ensures forall i :: 0 <= i < |route| ==>
      result[i].seg == route[i].id && result[i].hi - result[i].lo == (route[i].minutes + 10) * 60_000_000_000
    ensures arrival == departure + TotalMinutes(route) * 60_000_000_000
  {
    ElapsedIsMinutes(route);
    var cursor := departure;
    result := [];
    for i := 0 to |route|
      invariant cursor == Start(departure, route, i)
      invariant |result| == i && forall k :: 0 <= k < i ==> result[k] == WindowAt(departure, route, k)
    {
      var plannedStart := cursor;
      var plannedEnd := cursor + Duration(route[i]);
      result := result + [Window(route[i].id, plannedStart - BUFFER, plannedEnd + BUFFER)];
      cursor := plannedEnd;
    }
    arrival := cursor;
  }

  // ---------------------------------------------------------------------------
  // The windows as a cover of the trip
  // ---------------------------------------------------------------------------

  lemma {:induction false} TimeGoesForward(route: seq<MapSegment>, i: nat, j: nat)
    requires Forward(route) && i <= j <= |route|
    ensures Elapsed(route, i) <= Elapsed(route, j)
    decreases j
  {
    if i < j {
      TimeGoesForward(route, i, j - 1);
      assert route[j - 1] in route;
      NonNegativeDuration(route[j - 1]);
    }
  }

  lemma NonNegativeDuration(seg: MapSegment)
    requires seg.minutes >= 0
    ensures Duration(seg) >= 0
  {
  }

  /** Neighbouring windows share exactly ten minutes, whatever the traversal times. */
  lemma NeighboursOverlapTenMinutes(departure: int, route: seq<MapSegment>, i: nat)
    requires i + 1 < |route|
    ensures var ws := Windows(departure, route); ws[i].hi - ws[i + 1].lo == 10 * DbRuns.MINUTE
  {
  }

  /** A window passes the check of the reserve call exactly when its traversal takes more than -10 minutes. */
  lemma WindowValidExactly(departure: int, route: seq<MapSegment>, i: nat)
    requires i < |route|
    ensures var w := Windows(departure, route)[i]; w.lo < w.hi <==> route[i].minutes > -10
  {
    assert WindowAt(departure, route, i).hi - WindowAt(departure, route, i).lo == Duration(route[i]) + 2 * BUFFER;
  }

  lemma {:induction false} SegmentAt(departure: int, route: seq<MapSegment>, n: nat, t: int) returns (i: nat)
    requires 0 < n <= |route| && departure - BUFFER <= t < Start(departure, route, n) + BUFFER
    ensures i < n && WindowAt(departure, route, i).lo <= t < WindowAt(departure, route, i).hi
    decreases n
  {
    i := n - 1;
    if t < WindowAt(departure, route, i).lo {
      i := SegmentAt(departure, route, n - 1, t);
    }
  }

  /** Together the windows cover the trip with five minutes before and after, and nothing else. */
  lemma WindowsCoverTheTrip(departure: int, route: seq<MapSegment>, t: int)
    requires Forward(route)
    ensures (exists w :: w in Windows(departure, route) && w.lo <= t < w.hi)
        <==> route != [] && departure - BUFFER <= t < Start(departure, route, |route|) + BUFFER
  {
    var ws := Windows(departure, route);
    if w :| w in ws && w.lo <= t < w.hi {
      var i :| 0 <= i < |ws| && ws[i] == w;
      TimeGoesForward(route, 0, i);
      TimeGoesForward(route, i + 1, |route|);
    }
    if route != [] && departure - BUFFER <= t < Start(departure, route, |route|) + BUFFER {
      var i := SegmentAt(departure, route, |route|, t);
      assert ws[i] in ws;
    }
  }

  // ---------------------------------------------------------------------------
  // The windows as a reservation request
  // ---------------------------------------------------------------------------

  /** Between leaving a segment and entering it again, at least ten minutes pass. */
  ghost predicate RepeatsAreFar(route: seq<MapSegment>) {
    forall i, j :: 0 <= i < j < |route| && route[i].id == route[j].id
      ==> Elapsed(route, j) - Elapsed(route, i + 1) >= 2 * BUFFER
  }

  lemma TwoWindowsOverlap(departure: int, route: seq<MapSegment>, i: nat, j: nat)
    requires Forward(route) && i < j < |route| && route[i].id == route[j].id
    ensures var ws := Windows(departure, route);
      Overlaps(ws[i], ws[j].seg, ws[j].lo, ws[j].hi) <==> Elapsed(route, j) - Elapsed(route, i + 1) < 2 * BUFFER
  {
    TimeGoesForward(route, i, j + 1);
  }

  lemma RouteIsDisjointExactly(departure: int, route: seq<MapSegment>)
    requires Forward(route)
    ensures Admission.DisjointPerSegment(Windows(departure, route)) <==> RepeatsAreFar(route)
  {
    var ws := Windows(departure, route);
    forall i, j | 0 <= i < j < |route|
      ensures Overlaps(ws[i], ws[j].seg, ws[j].lo, ws[j].hi)
          <==> route[i].id == route[j].id && Elapsed(route, j) - Elapsed(route, i + 1) < 2 * BUFFER
    {
      if route[i].id == route[j].id {
        TwoWindowsOverlap(departure, route, i, j);
      }
    }
  }

  /**
   Which routes can be booked safely. The reservation request made from a route keeps the
   bound of its priority in every state of the network - the segment's maximum for an
   emergency vehicle, the emergency buffer for any other - exactly when the route
   re-enters no segment within ten minutes.
   */
  lemma RouteKeepsBoundExactly(departure: int, route: seq<MapSegment>, vehicle: Admission.VehicleType)
    requires Forward(route)
    ensures var ws, slots := Windows(departure, route), Admission.SlotsNeeded(vehicle);
      && (Admission.AlwaysKeepsCapacity(ws, slots, Max) <==> RepeatsAreFar(route))
      && (Admission.AlwaysKeepsBuffer(ws, slots, Normal) <==> RepeatsAreFar(route))
  {
    var ws, slots := Windows(departure, route), Admission.SlotsNeeded(vehicle);
    forall w | w in ws ensures w.lo < w.hi {
      var i :| 0 <= i < |ws| && ws[i] == w;
      assert route[i] in route;
      WindowValidExactly(departure, route, i);
    }
    RouteIsDisjointExactly(departure, route);
    Admission.FitsExactlyWhenDisjoint(ws, slots);
    Admission.CapacityIsKeptExactly(ws, slots, Max);
    Admission.BufferIsKeptExactly(ws, slots, Normal);
  }

  // ---------------------------------------------------------------------------
  // The windows as stored for enforcement
  // ---------------------------------------------------------------------------

  /** INSERT ... ON CONFLICT (journey_id, segment_id) DO NOTHING, window by window. */
  function StoreSegments(ws: seq<Window>): (stored: seq<Window>)
    ensures forall w :: w in stored ==> w in ws
  {
    if ws == [] then []
    else
      var before, last := StoreSegments(ws[..|ws| - 1]), ws[|ws| - 1];
      if HasSegment(before, last.seg) then before else before + [last]
  }

  predicate HasSegment(ws: seq<Window>, seg: string) {
    exists w :: w in ws && w.seg == seg
  }

  /**
   FindActiveJourneyForSegment finds something among the stored windows of all ACTIVE journeys,
   here of one journey and of the others; both ends of a window count.
   */
  predicate Authorised(stored: seq<Window>, others: seq<Window>, seg: string, t: int) {
    exists w :: w in stored + others && w.seg == seg && w.lo <= t <= w.hi
  }

  predicate FirstVisit(ws: seq<Window>, i: nat)
    requires i < |ws|
  {
    forall k :: 0 <= k < i ==> ws[k].seg != ws[i].seg
  }

  lemma {:induction false} EarliestVisit(ws: seq<Window>, n: nat, seg: string) returns (i: nat)
    requires exists k :: 0 <= k < n <= |ws| && ws[k].seg == seg
    ensures i < n && ws[i].seg == seg && FirstVisit(ws, i)
    decreases n
  {
    if exists k :: 0 <= k < n - 1 && ws[k].seg == seg {
      i := EarliestVisit(ws, n - 1, seg);
    } else {
      i := n - 1;
    }
  }

  /** The stored windows are those of the first visits. */
  lemma {:induction false} StoredAreFirstVisits(ws: seq<Window>, w: Window)
    ensures w in StoreSegments(ws) <==> exists i :: 0 <= i < |ws| && ws[i] == w && FirstVisit(ws, i)
    decreases |ws|, 1
  {
    if ws != [] {
      var n := |ws| - 1;
      StoredAreFirstVisits(ws[..n], w);
      KeptExactlyIfNew(ws);
      FirstVisitsOfPrefix(ws, n, w);
    }
  }

  lemma FirstVisitsOfPrefix(ws: seq<Window>, n: nat, w: Window)
    requires n <= |ws|
    ensures (exists i :: 0 <= i < n && ws[..n][i] == w && FirstVisit(ws[..n], i))
       <==> (exists i :: 0 <= i < n && ws[i] == w && FirstVisit(ws, i))
  {
    if i :| 0 <= i < n && ws[..n][i] == w && FirstVisit(ws[..n], i) {
      assert ws[i] == w && FirstVisit(ws, i);
    }
    if i :| 0 <= i < n && ws[i] == w && FirstVisit(ws, i) {
      assert ws[..n][i] == w && FirstVisit(ws[..n], i);
    }
  }

  lemma KeptExactlyIfNew(ws: seq<Window>)
    requires ws != []
    ensures FirstVisit(ws, |ws| - 1) <==> !HasSegment(StoreSegments(ws[..|ws| - 1]), ws[|ws| - 1].seg)
    decreases |ws|, 0
  {
    var n := |ws| - 1;
    if !FirstVisit(ws, n) {
      var i := EarliestVisit(ws, n, ws[n].seg);
      StoredAreFirstVisits(ws[..n], ws[i]);
      assert ws[..n][i] == ws[i] && FirstVisit(ws[..n], i);
    }
  }

  lemma FirstVisitIsStored(ws: seq<Window>, i: nat)
    requires i < |ws| && FirstVisit(ws, i)
    ensures ws[i] in StoreSegments(ws)
  {
    StoredAreFirstVisits(ws, ws[i]);
  }

  lemma OnlyFirstVisitIsStored(ws: seq<Window>, i: nat, w: Window)
    requires i < |ws| && FirstVisit(ws, i) && w in StoreSegments(ws) && w.seg == ws[i].seg
    ensures w == ws[i]
  {
    StoredAreFirstVisits(ws, w);
    var k :| 0 <= k < |ws| && ws[k] == w && FirstVisit(ws, k);
  }

  /**
   Whatever other journeys are ACTIVE, an ACTIVE journey is authorised on each of its
   segments throughout the planned traversal.
   */
  ghost predicate AuthorisedThroughout(departure: int, route: seq<MapSegment>) {
    forall others, j, t :: 0 <= j < |route| && Start(departure, route, j) <= t <= Start(departure, route, j + 1)
      ==> Authorised(StoreSegments(Windows(departure, route)), others, route[j].id, t)
  }

  /** Each later visit of a segment ends within five minutes of the end of the first. */
  ghost predicate RepeatsAreNear(route: seq<MapSegment>) {
    forall i, j :: 0 <= i < j < |route| && route[i].id == route[j].id
        && (forall k :: 0 <= k < i ==> route[k].id != route[i].id)
      ==> Elapsed(route, j + 1) - Elapsed(route, i + 1) <= BUFFER
  }

  lemma WithinFirstWindow(departure: int, route: seq<MapSegment>, i: nat, j: nat, t: int)
    requires Forward(route) && i <= j < |route| && Start(departure, route, j) <= t <= Start(departure, route, j + 1)
    requires i < j ==> Elapsed(route, j + 1) - Elapsed(route, i + 1) <= BUFFER
    ensures WindowAt(departure, route, i).lo <= t <= WindowAt(departure, route, i).hi
  {
    TimeGoesForward(route, i, j);
  }

  lemma NearRepeatsAuthorise(departure: int, route: seq<MapSegment>, others: seq<Window>, j: nat, t: int)
    requires Forward(route) && RepeatsAreNear(route)
    requires j < |route| && Start(departure, route, j) <= t <= Start(departure, route, j + 1)
    ensures Authorised(StoreSegments(Windows(departure, route)), others, route[j].id, t)
  {
    var ws := Windows(departure, route);
    assert ws[j].seg == route[j].id;
    var i := EarliestVisit(ws, j + 1, route[j].id);
    FirstVisitIsStored(ws, i);
    FirstVisitOfRoute(departure, route, i);
    WithinFirstWindow(departure, route, i, j, t);
  }

  lemma FirstVisitOfRoute(departure: int, route: seq<MapSegment>, i: nat)
    requires i < |route|
    ensures FirstVisit(Windows(departure, route), i) <==> forall k :: 0 <= k < i ==> route[k].id != route[i].id
  {
    var ws := Windows(departure, route);
    assert forall k :: 0 <= k <= i ==> ws[k].seg == route[k].id;
    if forall k :: 0 <= k < i ==> route[k].id != route[i].id {
      forall k | 0 <= k < i ensures ws[k].seg != ws[i].seg {
        assert route[k].id != route[i].id;
      }
    }
    if FirstVisit(ws, i) {
      forall k | 0 <= k < i ensures route[k].id != route[i].id {
        assert ws[k].seg != ws[i].seg;
      }
    }
  }

  lemma {:induction false} AuthorisationNeedsNearRepeats(departure: int, route: seq<MapSegment>, i: nat, j: nat)
    requires i < j < |route| && route[i].id == route[j].id && forall k :: 0 <= k < i ==> route[k].id != route[i].id
    requires Authorised(StoreSegments(Windows(departure, route)), [], route[j].id, Start(departure, route, j + 1))
    ensures Elapsed(route, j + 1) - Elapsed(route, i + 1) <= BUFFER
  {
    var ws := Windows(departure, route);
    FirstVisitOfRoute(departure, route, i);
    forall w | w in StoreSegments(ws) && w.seg == route[j].id ensures w == WindowAt(departure, route, i) {
      OnlyFirstVisitIsStored(ws, i, w);
    }
  }

  /**
   Enforcement. Because only the first window of a repeated segment is stored, the planned
   traversal is authorised throughout in every network exactly when no later visit outlasts
   that window; otherwise it depends on the other ACTIVE journeys.
   */
  lemma AuthorisedExactly(departure: int, route: seq<MapSegment>)
    requires Forward(route)
    ensures AuthorisedThroughout(departure, route) <==> RepeatsAreNear(route)
  {
    if RepeatsAreNear(route) {
      forall others, j, t | 0 <= j < |route| && Start(departure, route, j) <= t <= Start(departure, route, j + 1)
        ensures Authorised(StoreSegments(Windows(departure, route)), others, route[j].id, t)
      {
        NearRepeatsAuthorise(departure, route, others, j, t);
      }
    }
    if AuthorisedThroughout(departure, route) {
      forall i, j | 0 <= i < j < |route| && route[i].id == route[j].id
          && (forall k :: 0 <= k < i ==> route[k].id != route[i].id)
        ensures Elapsed(route, j + 1) - Elapsed(route, i + 1) <= BUFFER
      {
        TimeGoesForward(route, j, j + 1);
        assert Authorised(StoreSegments(Windows(departure, route)), [], route[j].id, Start(departure, route, j + 1));
        AuthorisationNeedsNearRepeats(departure, route, i, j);
      }
    }
  }

  /** With distinct segments both concerns vanish. */
  lemma DistinctSegmentsAreSafe(departure: int, route: seq<MapSegment>, vehicle: Admission.VehicleType)
    requires Forward(route) && forall i, j :: 0 <= i < j < |route| ==> route[i].id != route[j].id
    ensures AuthorisedThroughout(departure, route)
    ensures Admission.AlwaysKeepsCapacity(Windows(departure, route), Admission.SlotsNeeded(vehicle), Max)
    ensures Admission.AlwaysKeepsBuffer(Windows(departure, route), Admission.SlotsNeeded(vehicle), Normal)
  {
    AuthorisedExactly(departure, route);
    RouteKeepsBoundExactly(departure, route, vehicle);
  }
}
