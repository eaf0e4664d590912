/**
 The tables of the capacity service: segments, closures and reservation rows, the
 WHERE clauses its statements use, and what those statements compute.
 */
module Tables {
  import opened Collections

  datatype Status = Active | Released

  datatype Priority = Normal | Max

  /** One segment and a half-open time window [lo, hi), as a request names it. */
  datatype Window = Window(seg: string, lo: int, hi: int)

  /**
   A row of capacity.reservations. The priority is not a column: it is kept here so that
   properties can speak of it, and no statement reads it.
   */
  datatype Row = Row(rid: string, jid: string, window: Window, slots: real, priority: Priority, status: Status)

  datatype Closure = Closure(id: string, seg: string, start: int, end: int, reason: string, active: bool)

  datatype DB = DB(segments: map<string, real>, closures: seq<Closure>, rows: seq<Row>)

  /** The WHERE clauses over reservation rows; every one asks for status = 'active'. */
  datatype Filter =
    | Overlapping(seg: string, lo: int, hi: int)
    | Covering(seg: string, t: int)
    | NormalCovering(seg: string, t: int)
    | OfJourney(jid: string)
    | OfReservation(rid: string)
    | EndedBefore(t: int)
    | AnyActive

  predicate Covers(w: Window, seg: string, t: int) {
    w.seg == seg && w.lo <= t < w.hi
  }

  /** The two windows have an instant on one segment in common. */
  ghost predicate Share(a: Window, b: Window) {
    exists t :: Covers(a, b.seg, t) && Covers(b, b.seg, t)
  }

  /** time_window_start < hi AND time_window_end > lo. */
  predicate Overlaps(w: Window, seg: string, lo: int, hi: int) {
    w.seg == seg && w.lo < hi && w.hi > lo
  }

  predicate Matches(f: Filter, r: Row) {
    && r.status == Active
    && match f {
         case Overlapping(seg, lo, hi) => Overlaps(r.window, seg, lo, hi)
         case Covering(seg, t) => Covers(r.window, seg, t)
         case NormalCovering(seg, t) => Covers(r.window, seg, t) && r.priority == Normal
         case OfJourney(jid) => r.jid == jid
         case OfReservation(rid) => r.rid == rid
         case EndedBefore(t) => r.window.hi < t
         case AnyActive => true
       }
  }

  /** SELECT COALESCE(SUM(slots_used), 0) ... WHERE f. */
  function SumSlots(rows: seq<Row>, f: Filter): real {
    if rows == [] then 0.0
    else (if Matches(f, rows[0]) then rows[0].slots else 0.0) + SumSlots(rows[1..], f)
  }

  function ReleaseRow(f: Filter, r: Row): Row {
    if Matches(f, r) then r.(status := Released) else r
  }

  /** UPDATE ... SET status = 'released' WHERE f. */
  function Release(rows: seq<Row>, f: Filter): (after: seq<Row>)
    ensures |after| == |rows|
    ensures forall i :: 0 <= i < |rows| ==> after[i] == ReleaseRow(f, rows[i])
  {
    if rows == [] then [] else [ReleaseRow(f, rows[0])] + Release(rows[1..], f)
  }

  /** The rows a statement's WHERE clause selects, in table order. */
  function Select(rows: seq<Row>, f: Filter): (selected: seq<Row>)
    ensures forall r :: r in selected <==> r in rows && Matches(f, r)
  {
    if rows == [] then []
    else (if Matches(f, rows[0]) then [rows[0]] else []) + Select(rows[1..], f)
  }

  /** Slots are never negative: the weights of the vehicle types are positive. */
  ghost predicate Positive(rows: seq<Row>) {
    forall r :: r in rows ==> r.slots > 0.0
  }

  lemma {:induction false} SumOfAppended(rows: seq<Row>, more: seq<Row>, f: Filter)
    ensures SumSlots(rows + more, f) == SumSlots(rows, f) + SumSlots(more, f)
  {
    if rows == [] {
      assert rows + more == more;
    } else {
      assert (rows + more)[1..] == rows[1..] + more;
      SumOfAppended(rows[1..], more, f);
    }
  }

  /** A weaker WHERE clause sums at least as many slots. */
  lemma {:induction false} SumIsMonotone(rows: seq<Row>, f: Filter, g: Filter)
    requires Positive(rows)
    requires forall r :: r in rows && Matches(f, r) ==> Matches(g, r)
    ensures 0.0 <= SumSlots(rows, f) <= SumSlots(rows, g)
  {
    if rows != [] {
      SumIsMonotone(rows[1..], f, g);
      assert rows[0] in rows && forall r :: r in rows[1..] ==> r in rows;
    }
  }

  /**
   What the admission check sums for a window dominates the load at every instant of
   that window: every row covering the instant overlaps the window.
   */
  lemma OverlapSumDominatesLoad(rows: seq<Row>, seg: string, lo: int, hi: int, t: int)
    requires Positive(rows) && lo <= t < hi
    ensures SumSlots(rows, Covering(seg, t)) <= SumSlots(rows, Overlapping(seg, lo, hi))
    ensures 0.0 <= SumSlots(rows, NormalCovering(seg, t)) <= SumSlots(rows, Covering(seg, t))
  {
    SumIsMonotone(rows, Covering(seg, t), Overlapping(seg, lo, hi));
    SumIsMonotone(rows, NormalCovering(seg, t), Covering(seg, t));
  }

  /** The clause of the admission check means a common instant; the schema excludes empty windows. */
  lemma OverlapMeansSharing(a: Window, b: Window)
    requires a.lo < a.hi && b.lo < b.hi
    ensures Overlaps(a, b.seg, b.lo, b.hi) <==> Share(a, b)
  {
    if Overlaps(a, b.seg, b.lo, b.hi) {
      var t := if a.lo < b.lo then b.lo else a.lo;
      assert Covers(a, b.seg, t) && Covers(b, b.seg, t);
    }
  }

  /** The slots of the active rows that share an instant with a window. */
  ghost function SlotsSharing(rows: seq<Row>, w: Window): real {
    if rows == [] then 0.0
    else
      (if rows[0].status == Active && Share(rows[0].window, w) then rows[0].slots else 0.0)
      + SlotsSharing(rows[1..], w)
  }

  lemma {:induction false} OverlapSumIsOfSharers(rows: seq<Row>, w: Window)
    requires w.lo < w.hi && forall r :: r in rows ==> r.window.lo < r.window.hi
    ensures SumSlots(rows, Overlapping(w.seg, w.lo, w.hi)) == SlotsSharing(rows, w)
  {
    if rows != [] {
      assert rows[0] in rows && forall r :: r in rows[1..] ==> r in rows;
      OverlapMeansSharing(rows[0].window, w);
      OverlapSumIsOfSharers(rows[1..], w);
    }
  }

  lemma {:induction false} NobodyShares(rows: seq<Row>, w: Window)
    requires forall r :: r in rows && r.status == Active ==> !Share(r.window, w)
    ensures SlotsSharing(rows, w) == 0.0
  {
    if rows != [] {
      assert rows[0] in rows && forall r :: r in rows[1..] ==> r in rows;
      NobodyShares(rows[1..], w);
    }
  }

  /** The closure is in force at an instant. */
  predicate ClosedAt(c: Closure, seg: string, t: int) {
    c.active && c.seg == seg && c.start <= t < c.end
  }

  /** A release lowers every sum; none is raised. */
  lemma {:induction false} ReleaseLowersSums(rows: seq<Row>, f: Filter, g: Filter)
    requires Positive(rows)
    ensures Positive(Release(rows, f))
    ensures 0.0 <= SumSlots(Release(rows, f), g) <= SumSlots(rows, g)
  {
    if rows != [] {
      var rest := rows[1..];
      assert rows[0] in rows && forall r :: r in rest ==> r in rows;
      ReleaseLowersSums(rest, f, g);
      var after := Release(rows, f);
      assert after[1..] == Release(rest, f);
      forall r | r in after ensures r.slots > 0.0 {
        var i :| 0 <= i < |after| && after[i] == r;
        assert rows[i] in rows;
      }
    }
  }

  lemma {:induction false} SumWithout(rows: seq<Row>, k: nat, f: Filter)
    requires k < |rows|
    ensures SumSlots(rows, f) == SumSlots([rows[k]], f) + SumSlots(rows[..k] + rows[k + 1..], f)
  {
    if k == 0 {
      assert rows[..0] + rows[1..] == rows[1..];
    } else {
      SumWithout(rows[1..], k - 1, f);
      var rest := rows[..k] + rows[k + 1..];
      assert rest[1..] == rows[1..][..k - 1] + rows[1..][k..];
    }
  }

  lemma {:induction false} SumOfPermutation(a: seq<Row>, b: seq<Row>, f: Filter)
    requires multiset(a) == multiset(b)
    ensures SumSlots(a, f) == SumSlots(b, f)
    decreases |a|
  {
    if a == [] {
      assert |multiset(b)| == 0;
    } else {
      var k := WithoutFirst(a, b);
      SumOfPermutation(a[1..], b[..k] + b[k + 1..], f);
      SumWithout(b, k, f);
    }
  }

  lemma {:induction false} SumOfActive(rows: seq<Row>, f: Filter)
    ensures SumSlots(rows, f) == SumSlots(Select(rows, AnyActive), f)
  {
    if rows != [] {
      SumOfActive(rows[1..], f);
      var first := if Matches(AnyActive, rows[0]) then [rows[0]] else [];
      SumOfAppended(first, Select(rows[1..], AnyActive), f);
    }
  }

  /** Every sum depends on the active rows only, and not on their order. */
  lemma SumDependsOnActiveRows(a: seq<Row>, b: seq<Row>, f: Filter)
    requires multiset(Select(a, AnyActive)) == multiset(Select(b, AnyActive))
    ensures SumSlots(a, f) == SumSlots(b, f)
  {
    SumOfActive(a, f);
    SumOfActive(b, f);
    SumOfPermutation(Select(a, AnyActive), Select(b, AnyActive), f);
  }

  /** Releasing twice with one clause is releasing once, and the order of two releases does not matter. */
  lemma ReleasesAreIdempotentAndCommute(rows: seq<Row>, f: Filter, g: Filter)
    ensures Release(Release(rows, f), f) == Release(rows, f)
    ensures Release(Release(rows, f), g) == Release(Release(rows, g), f)
  {
  }

  /** The slots of all rows, and those of the released ones. */
  function AllSlots(rows: seq<Row>): real {
    if rows == [] then 0.0 else rows[0].slots + AllSlots(rows[1..])
  }

  function ReleasedSlots(rows: seq<Row>): real {
    if rows == [] then 0.0
    else (if rows[0].status == Released then rows[0].slots else 0.0) + ReleasedSlots(rows[1..])
  }

  lemma {:induction false} AllIsActiveAndReleased(rows: seq<Row>)
    ensures AllSlots(rows) == SumSlots(rows, AnyActive) + ReleasedSlots(rows)
  {
    if rows != [] {
      AllIsActiveAndReleased(rows[1..]);
    }
  }

  lemma {:induction false} AllSlotsOfConcat(rows: seq<Row>, more: seq<Row>)
    ensures AllSlots(rows + more) == AllSlots(rows) + AllSlots(more)
  {
    if rows == [] {
      assert rows + more == more;
    } else {
      TailOfConcat(rows, more);
      AllSlotsOfConcat(rows[1..], more);
    }
  }

  lemma {:induction false} ReleaseConserves(rows: seq<Row>, f: Filter)
    ensures AllSlots(Release(rows, f)) == AllSlots(rows)
  {
    if rows != [] {
      assert Release(rows, f)[1..] == Release(rows[1..], f);
      ReleaseConserves(rows[1..], f);
    }
  }

  /** A row never changes but for its one move from active to released, and none is lost. */
  ghost predicate RowsKept(before: seq<Row>, after: seq<Row>) {
    && |before| <= |after|
    && forall i :: 0 <= i < |before| ==> after[i] == before[i] || after[i] == before[i].(status := Released)
  }

  // ---------------------------------------------------------------------------
  // The rows of one reservation id
  // ---------------------------------------------------------------------------

  ghost predicate FreshReservation(rows: seq<Row>, rid: string) {
    forall r :: r in rows ==> r.rid != rid
  }

  ghost predicate NoneActive(rows: seq<Row>, rid: string) {
    forall r :: r in rows && r.rid == rid ==> r.status == Released
  }

  ghost predicate AllActive(rows: seq<Row>, rid: string) {
    forall r :: r in rows && r.rid == rid ==> r.status == Active
  }

  /** The windows of the rows, of any status, that carry the id. */
  function WindowsOf(rows: seq<Row>, rid: string): seq<Window> {
    if rows == [] then []
    else (if rows[0].rid == rid then [rows[0].window] else []) + WindowsOf(rows[1..], rid)
  }

  lemma {:induction false} WindowsOfConcat(rows: seq<Row>, more: seq<Row>, rid: string)
    ensures WindowsOf(rows + more, rid) == WindowsOf(rows, rid) + WindowsOf(more, rid)
  {
    if rows == [] {
      assert rows + more == more;
    } else {
      TailOfConcat(rows, more);
      WindowsOfConcat(rows[1..], more, rid);
      Associative(if rows[0].rid == rid then [rows[0].window] else [], WindowsOf(rows[1..], rid), WindowsOf(more, rid));
    }
  }

  lemma {:induction false} WindowsOfReleased(rows: seq<Row>, f: Filter, rid: string)
    ensures WindowsOf(Release(rows, f), rid) == WindowsOf(rows, rid)
  {
    if rows != [] {
      assert Release(rows, f)[1..] == Release(rows[1..], f);
      WindowsOfReleased(rows[1..], f, rid);
    }
  }

  lemma {:induction false} NoWindowsNoRows(rows: seq<Row>, rid: string)
    ensures WindowsOf(rows, rid) == [] <==> FreshReservation(rows, rid)
  {
    if rows != [] {
      NoWindowsNoRows(rows[1..], rid);
      assert rows[0] in rows && forall r :: r in rows[1..] ==> r in rows;
    }
  }
}
