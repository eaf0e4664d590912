/**
 The cross-region saga without interference or faults: one transaction per region,
 compensated by releasing the shared reservation id; and the theorem that it refines
 a single transaction over all segments.
 */
module Saga {
  import opened Tables
  import opened Admission
  import opened Collections
  import opened Regions
  import opened Wrappers

  datatype Outcome = Outcome(db: DB, reserved: nat, failed: Option<FailedSegment>)

  /** The regional transactions, in order, up to the first that fails. */
  function Forward(db: DB, rid: string, jid: string, groups: seq<seq<Window>>, slots: real, priority: Priority): Outcome
    decreases |groups|
  {
    if groups == [] then Outcome(db, 0, None)
    else
      var failed := FirstFailure(db, groups[0], slots, priority);
      if failed.Some? then Outcome(db, 0, failed)
      else
        var after := Admission.Reserve(db, rid, jid, groups[0], slots, priority);
        var rest := Forward(after, rid, jid, groups[1..], slots, priority);
        rest.(reserved := rest.reserved + 1)
  }

  /** One release of the shared reservation id per recorded step. */
  function Compensate(rows: seq<Row>, rid: string, steps: nat): seq<Row>
    decreases steps
  {
    if steps == 0 then rows else Compensate(Release(rows, OfReservation(rid)), rid, steps - 1)
  }

  /** The whole saga: its effect on the tables and the failure it reports. */
  function Execute(
    db: DB, rid: string, jid: string, groups: seq<seq<Window>>, slots: real, priority: Priority): Outcome
  {
    var o := Forward(db, rid, jid, groups, slots, priority);
    if o.failed.None? then o else o.(db := o.db.(rows := Compensate(o.db.rows, rid, o.reserved)))
  }

  lemma {:induction false} CompensateIsOneRelease(rows: seq<Row>, rid: string, steps: nat)
    ensures Compensate(rows, rid, steps) == if steps == 0 then rows else Release(rows, OfReservation(rid))
    decreases steps
  {
    if steps > 0 {
      var once := Release(rows, OfReservation(rid));
      CompensateIsOneRelease(once, rid, steps - 1);
      ReleasesAreIdempotentAndCommute(rows, OfReservation(rid), OfReservation(rid));
    }
  }

  // ---------------------------------------------------------------------------
  // Refinement of the single transaction
  // ---------------------------------------------------------------------------

  /** No two groups name the same segment; grouping by any function of the id gives this. */
  ghost predicate Separate(groups: seq<seq<Window>>) {
    forall i, j, w, x :: 0 <= i < j < |groups| && w in groups[i] && x in groups[j] ==> w.seg != x.seg
  }

  lemma {:induction false} FirstFailureOfConcat(db: DB, a: seq<Window>, b: seq<Window>, slots: real, priority: Priority)
    ensures FirstFailure(db, a + b, slots, priority)
         == if FirstFailure(db, a, slots, priority).Some? then FirstFailure(db, a, slots, priority)
            else FirstFailure(db, b, slots, priority)
  {
    if a == [] {
      assert a + b == b;
    } else {
      assert (a + b)[1..] == a[1..] + b;
      FirstFailureOfConcat(db, a[1..], b, slots, priority);
    }
  }

  /** Rows on other segments do not change what the checks find. */
  lemma {:induction false} OtherSegmentsDoNotMatter(
    db: DB, more: seq<Row>, ws: seq<Window>, slots: real, priority: Priority)
    requires forall w, r :: w in ws && r in more ==> w.seg != r.window.seg
    ensures FirstFailure(db.(rows := db.rows + more), ws, slots, priority) == FirstFailure(db, ws, slots, priority)
  {
    if ws != [] {
      CheckIgnoresOtherSegments(db, more, ws[0], slots, priority);
      OtherSegmentsDoNotMatter(db, more, ws[1..], slots, priority);
    }
  }

  lemma CheckIgnoresOtherSegments(db: DB, more: seq<Row>, w: Window, slots: real, priority: Priority)
    requires forall r :: r in more ==> w.seg != r.window.seg
    ensures CheckWindow(db.(rows := db.rows + more), w, slots, priority) == CheckWindow(db, w, slots, priority)
  {
    SumOfAppended(db.rows, more, Overlapping(w.seg, w.lo, w.hi));
    NothingOverlaps(more, w);
  }

  lemma {:induction false} NothingOverlaps(rows: seq<Row>, w: Window)
    requires forall r :: r in rows ==> w.seg != r.window.seg
    ensures SumSlots(rows, Overlapping(w.seg, w.lo, w.hi)) == 0.0
  {
    if rows != [] {
      assert rows[0] in rows && forall r :: r in rows[1..] ==> r in rows;
      NothingOverlaps(rows[1..], w);
    }
  }

  lemma {:induction false} InFlatten(groups: seq<seq<Window>>, w: Window)
    ensures w in Flatten(groups) <==> exists i :: 0 <= i < |groups| && w in groups[i]
  {
    if groups != [] {
      InFlatten(groups[1..], w);
      if w in Flatten(groups[1..]) {
        var i :| 0 <= i < |groups[1..]| && w in groups[1..][i];
        assert w in groups[i + 1];
      }
      if i :| 0 < i < |groups| && w in groups[i] {
        assert w in groups[1..][i - 1];
      }
    }
  }

  /**
   The regional transactions report exactly what one pass over all their segments in
   order would report, and insert the same rows in the same order.
   */
  lemma {:induction false} ForwardIsOnePass(
    db: DB, rid: string, jid: string, groups: seq<seq<Window>>, slots: real, priority: Priority)
    requires Separate(groups)
    ensures var o := Forward(db, rid, jid, groups, slots, priority);
      && o.failed == FirstFailure(db, Flatten(groups), slots, priority)
      && (o.failed.None? ==> o.db == db.(rows := db.rows + NewRows(rid, jid, Flatten(groups), slots, priority)))
    decreases |groups|
  {
    if groups == [] {
      assert db.rows + NewRows(rid, jid, [], slots, priority) == db.rows;
    } else {
      var first, rest := groups[0], groups[1..];
      FirstFailureOfConcat(db, first, Flatten(rest), slots, priority);
      if FirstFailure(db, first, slots, priority).None? {
        var more := NewRows(rid, jid, first, slots, priority);
        ForwardIsOnePass(db.(rows := db.rows + more), rid, jid, rest, slots, priority);
        LaterGroupsAreElsewhere(groups, rid, jid, slots, priority);
        OtherSegmentsDoNotMatter(db, more, Flatten(rest), slots, priority);
        NewRowsOfConcat(db.rows, rid, jid, first, Flatten(rest), slots, priority);
      }
    }
  }

  lemma LaterGroupsAreElsewhere(groups: seq<seq<Window>>, rid: string, jid: string, slots: real, priority: Priority)
    requires groups != [] && Separate(groups)
    ensures forall w, r :: w in Flatten(groups[1..]) && r in NewRows(rid, jid, groups[0], slots, priority) ==>
      w.seg != r.window.seg
    ensures Separate(groups[1..])
  {
    forall w, r | w in Flatten(groups[1..]) && r in NewRows(rid, jid, groups[0], slots, priority)
      ensures w.seg != r.window.seg
    {
      InFlatten(groups[1..], w);
      var j :| 0 <= j < |groups[1..]| && w in groups[1..][j];
      var i :| 0 <= i < |groups[0]| && NewRows(rid, jid, groups[0], slots, priority)[i] == r;
      assert groups[j + 1] == groups[1..][j] && groups[0][i] in groups[0];
    }
    assert forall i :: 0 <= i < |groups[1..]| ==> groups[1..][i] == groups[i + 1];
  }

  lemma NewRowsOfConcat(
    rows: seq<Row>, rid: string, jid: string, a: seq<Window>, b: seq<Window>, slots: real, priority: Priority)
    ensures rows + NewRows(rid, jid, a, slots, priority) + NewRows(rid, jid, b, slots, priority)
         == rows + NewRows(rid, jid, a + b, slots, priority)
  {
  }

  /** On failure the tables differ from before at most by released rows of this reservation. */
  lemma {:induction false} ForwardAppends(
    db: DB, rid: string, jid: string, groups: seq<seq<Window>>, slots: real, priority: Priority)
    ensures var o := Forward(db, rid, jid, groups, slots, priority);
      && o.db == db.(rows := o.db.rows) && db.rows <= o.db.rows && o.reserved <= |groups|
      && (forall i :: |db.rows| <= i < |o.db.rows| ==> o.db.rows[i].rid == rid)
      && (o.reserved == 0 ==> o.db == db)
    decreases |groups|
  {
    if groups != [] && FirstFailure(db, groups[0], slots, priority).None? {
      var after := Admission.Reserve(db, rid, jid, groups[0], slots, priority);
      ForwardAppends(after, rid, jid, groups[1..], slots, priority);
    }
  }

  lemma {:induction false} ReleasedTailIsInactive(rows: seq<Row>, more: seq<Row>, rid: string)
    requires FreshReservation(rows, rid) && forall r :: r in more ==> r.rid == rid
    ensures Select(Release(rows + more, OfReservation(rid)), AnyActive) == Select(rows, AnyActive)
  {
    var f := OfReservation(rid);
    if rows != [] {
      assert rows[0] in rows && forall r :: r in rows[1..] ==> r in rows;
      assert (rows + more)[1..] == rows[1..] + more;
      ReleasedTailIsInactive(rows[1..], more, rid);
      assert Release(rows + more, f)[1..] == Release(rows[1..] + more, f);
    } else {
      assert rows + more == more;
      forall r | r in Release(more, f) ensures !Matches(AnyActive, r) {
        var i :| 0 <= i < |more| && Release(more, f)[i] == r;
        assert more[i] in more;
      }
      SelectNothing(Release(more, f), AnyActive);
    }
  }

  lemma {:induction false} SelectNothing(rows: seq<Row>, f: Filter)
    requires forall r :: r in rows ==> !Matches(f, r)
    ensures Select(rows, f) == []
  {
    if rows != [] {
      assert rows[0] in rows && forall r :: r in rows[1..] ==> r in rows;
      SelectNothing(rows[1..], f);
    }
  }

  lemma {:induction false} SelectOfConcat(rows: seq<Row>, more: seq<Row>, f: Filter)
    ensures Select(rows + more, f) == Select(rows, f) + Select(more, f)
  {
    if rows == [] {
      assert rows + more == more;
    } else {
      assert (rows + more)[1..] == rows[1..] + more;
      SelectOfConcat(rows[1..], more, f);
    }
  }

  lemma CountOfCons<T>(s: seq<T>, tail: seq<T>, x: T)
    requires s != [] && s[1..] == tail
    ensures multiset(s)[x] == multiset(tail)[x] + if s[0] == x then 1 else 0
  {
    assert s == [s[0]] + tail;
  }

  /** A row occurs among the new rows as often as its window occurs in the request. */
  lemma {:induction false} CountOfNewRows(
    rid: string, jid: string, ws: seq<Window>, slots: real, priority: Priority, r: Row)
    ensures multiset(NewRows(rid, jid, ws, slots, priority))[r]
         == if r == Row(rid, jid, r.window, slots, priority, Active) then multiset(ws)[r.window] else 0
  {
    if ws != [] {
      CountOfNewRows(rid, jid, ws[1..], slots, priority, r);
      var rows := NewRows(rid, jid, ws, slots, priority);
      CountOfCons(rows, NewRows(rid, jid, ws[1..], slots, priority), r);
      CountOfCons(ws, ws[1..], r.window);
    }
  }

  lemma NewRowsOfPermutation(rid: string, jid: string, a: seq<Window>, b: seq<Window>, slots: real, priority: Priority)
    requires multiset(a) == multiset(b)
    ensures multiset(NewRows(rid, jid, a, slots, priority)) == multiset(NewRows(rid, jid, b, slots, priority))
  {
    forall r: Row
      ensures multiset(NewRows(rid, jid, a, slots, priority))[r] == multiset(NewRows(rid, jid, b, slots, priority))[r]
    {
      CountOfNewRows(rid, jid, a, slots, priority, r);
      CountOfNewRows(rid, jid, b, slots, priority, r);
    }
  }

  lemma {:induction false} NewRowsAreActive(rid: string, jid: string, ws: seq<Window>, slots: real, priority: Priority)
    ensures Select(NewRows(rid, jid, ws, slots, priority), AnyActive) == NewRows(rid, jid, ws, slots, priority)
  {
    if ws != [] {
      NewRowsAreActive(rid, jid, ws[1..], slots, priority);
      assert NewRows(rid, jid, ws, slots, priority)[1..] == NewRows(rid, jid, ws[1..], slots, priority);
    }
  }

  /** The active rows after an accepted request depend on its windows only as a multiset. */
  lemma ActiveAfterInsert(
    rows: seq<Row>, rid: string, jid: string, a: seq<Window>, b: seq<Window>, slots: real, priority: Priority)
    requires multiset(a) == multiset(b)
    ensures multiset(Select(rows + NewRows(rid, jid, a, slots, priority), AnyActive))
         == multiset(Select(rows + NewRows(rid, jid, b, slots, priority), AnyActive))
  {
    NewRowsOfPermutation(rid, jid, a, b, slots, priority);
    NewRowsAreActive(rid, jid, a, slots, priority);
    NewRowsAreActive(rid, jid, b, slots, priority);
    SelectOfConcat(rows, NewRows(rid, jid, a, slots, priority), AnyActive);
    SelectOfConcat(rows, NewRows(rid, jid, b, slots, priority), AnyActive);
  }

  lemma RejectedSagaLeavesNothingActive(
    db: DB, rid: string, jid: string, groups: seq<seq<Window>>, slots: real, priority: Priority)
    requires FreshReservation(db.rows, rid)
    ensures var o := Execute(db, rid, jid, groups, slots, priority);
      && (o.failed.Some? ==> Select(o.db.rows, AnyActive) == Select(db.rows, AnyActive))
      && o.db.segments == db.segments && o.db.closures == db.closures
  {
    var o := Forward(db, rid, jid, groups, slots, priority);
    ForwardAppends(db, rid, jid, groups, slots, priority);
    CompensateIsOneRelease(o.db.rows, rid, o.reserved);
    if o.failed.Some? && o.reserved > 0 {
      ReleaseUndoes(db.rows, o.db.rows, rid);
    }
  }

  /** Releasing a fresh id undoes what was appended under it, as far as active rows go. */
  lemma ReleaseUndoes(before: seq<Row>, after: seq<Row>, rid: string)
    requires FreshReservation(before, rid) && before <= after
    requires forall i :: |before| <= i < |after| ==> after[i].rid == rid
    ensures Select(Release(after, OfReservation(rid)), AnyActive) == Select(before, AnyActive)
  {
    var more := after[|before|..];
    assert after == before + more;
    forall r | r in more ensures r.rid == rid {
      var i :| 0 <= i < |more| && more[i] == r;
      assert after[|before| + i] == r;
    }
    ReleasedTailIsInactive(before, more, rid);
  }

  lemma FailureDependsOnWindowsOnly(db: DB, a: seq<Window>, b: seq<Window>, slots: real, priority: Priority)
    requires multiset(a) == multiset(b)
    ensures FirstFailure(db, a, slots, priority).None? <==> FirstFailure(db, b, slots, priority).None?
  {
    assert forall w :: w in a <==> w in multiset(a);
    assert forall w :: w in b <==> w in multiset(b);
  }

  /**
   The saga refines the single transaction. For groups that partition the request by
   segment, in any order within and among them: it accepts exactly when one transaction
   over all windows would; then it leaves the same multiset of active rows; and when it
   rejects, the active rows are what they were before.
   */
  lemma SagaRefinesTransaction(
    db: DB, rid: string, jid: string, ws: seq<Window>, groups: seq<seq<Window>>, slots: real, priority: Priority)
    requires Separate(groups) && multiset(Flatten(groups)) == multiset(ws) && FreshReservation(db.rows, rid)
    ensures var o := Execute(db, rid, jid, groups, slots, priority);
      var single := Admission.Reserve(db, rid, jid, ws, slots, priority);
      && (o.failed.None? <==> FirstFailure(db, ws, slots, priority).None?)
      && multiset(Select(o.db.rows, AnyActive)) == multiset(Select(single.rows, AnyActive))
      && (o.failed.Some? ==> Select(o.db.rows, AnyActive) == Select(db.rows, AnyActive))
      && o.db.segments == db.segments && o.db.closures == db.closures
  {
    ForwardIsOnePass(db, rid, jid, groups, slots, priority);
    FailureDependsOnWindowsOnly(db, Flatten(groups), ws, slots, priority);
    RejectedSagaLeavesNothingActive(db, rid, jid, groups, slots, priority);
    if FirstFailure(db, ws, slots, priority).None? {
      ActiveAfterInsert(db.rows, rid, jid, Flatten(groups), ws, slots, priority);
    }
  }

  // ---------------------------------------------------------------------------
  // The groups the coordinator makes
  // ---------------------------------------------------------------------------

  /** The windows of one region, sorted by segment id. */
  function SortedGroup(f: string -> Region, ws: seq<Window>, r: Region): (g: seq<Window>)
    ensures forall w :: w in g <==> w in ws && f(w.seg) == r
  {
    var g := SortBySegment(GroupOf(f, ws, r));
    assert forall w :: w in g <==> w in multiset(GroupOf(f, ws, r));
    g
  }

  function NonEmpty(g: seq<Window>): seq<seq<Window>> { if g == [] then [] else [g] }

  /** The regional groups in region order; a region that the request does not touch has none. */
  function RegionalGroups(f: string -> Region, ws: seq<Window>): seq<seq<Window>> {
    NonEmpty(SortedGroup(f, ws, Apac)) + NonEmpty(SortedGroup(f, ws, Eu)) + NonEmpty(SortedGroup(f, ws, Us))
  }

  lemma {:induction false} FlattenOfConcat(a: seq<seq<Window>>, b: seq<seq<Window>>)
    ensures Flatten(a + b) == Flatten(a) + Flatten(b)
  {
    if a == [] {
      assert a + b == b;
    } else {
      assert (a + b)[1..] == a[1..] + b;
      FlattenOfConcat(a[1..], b);
    }
  }

  lemma FlattenOfNonEmpty(g: seq<Window>)
    ensures Flatten(NonEmpty(g)) == g
  {
    if g != [] {
      assert Flatten([g]) == g + Flatten([]);
    }
  }

  /** Whatever function assigns the regions, the groups partition the request by segment. */
  lemma GroupsPartitionTheRequest(f: string -> Region, ws: seq<Window>)
    ensures var groups := RegionalGroups(f, ws);
      && Separate(groups)
      && Flatten(groups) == SortedGroup(f, ws, Apac) + SortedGroup(f, ws, Eu) + SortedGroup(f, ws, Us)
      && multiset(Flatten(groups)) == multiset(ws)
  {
    var a, e, u := SortedGroup(f, ws, Apac), SortedGroup(f, ws, Eu), SortedGroup(f, ws, Us);
    FlattenOfConcat(NonEmpty(a) + NonEmpty(e), NonEmpty(u));
    FlattenOfConcat(NonEmpty(a), NonEmpty(e));
    FlattenOfNonEmpty(a);
    FlattenOfNonEmpty(e);
    FlattenOfNonEmpty(u);
    GroupsPartition(f, ws);
    GroupsAreSeparate(f, ws, a, e, u);
  }

  lemma GroupsAreSeparate(f: string -> Region, ws: seq<Window>, a: seq<Window>, e: seq<Window>, u: seq<Window>)
    requires forall w :: w in a ==> f(w.seg) == Apac
    requires forall w :: w in e ==> f(w.seg) == Eu
    requires forall w :: w in u ==> f(w.seg) == Us
    ensures Separate(NonEmpty(a) + NonEmpty(e) + NonEmpty(u))
  {
  }

  /** The saga as the coordinator runs it refines the transaction over the sorted request. */
  lemma CoordinatorRefinesTransaction(
    db: DB, rid: string, jid: string, ws: seq<Window>, slots: real, priority: Priority)
    requires FreshReservation(db.rows, rid)
    ensures var o := Execute(db, rid, jid, RegionalGroups(SegmentRegion, ws), slots, priority);
      var single := Admission.Reserve(db, rid, jid, ws, slots, priority);
      && (o.failed.None? <==> FirstFailure(db, ws, slots, priority).None?)
      && multiset(Select(o.db.rows, AnyActive)) == multiset(Select(single.rows, AnyActive))
      && (o.failed.Some? ==> Select(o.db.rows, AnyActive) == Select(db.rows, AnyActive))
  {
    GroupsPartitionTheRequest(SegmentRegion, ws);
    SagaRefinesTransaction(db, rid, jid, ws, RegionalGroups(SegmentRegion, ws), slots, priority);
  }

  // ---------------------------------------------------------------------------
  // The failed segment that is reported
  // ---------------------------------------------------------------------------

  ghost predicate StrictlySorted(ws: seq<Window>) {
    forall i, j :: 0 <= i < j < |ws| ==> Less(ws[i].seg, ws[j].seg)
  }

  /** Ids as the map service makes them: "ap_...", "eu_..." or "us_...". */
  predicate CoordinatePrefix(id: string) {
    Starts(id, 'a', 'p', '_') || Starts(id, 'e', 'u', '_') || Starts(id, 'u', 's', '_')
  }

  lemma StrictHeadsAgree(a: seq<Window>, b: seq<Window>)
    requires a != [] && b != [] && StrictlySorted(a) && StrictlySorted(b) && multiset(a) == multiset(b)
    ensures a[0] == b[0]
  {
    assert a[0] in multiset(b) && b[0] in multiset(a);
    var i :| 0 <= i < |a| && a[i] == b[0];
    var j :| 0 <= j < |b| && b[j] == a[0];
    LessIsTotal(a[0].seg, b[0].seg);
  }

  lemma TailsAgree(a: seq<Window>, b: seq<Window>)
    requires a != [] && b != [] && a[0] == b[0] && multiset(a) == multiset(b)
    ensures multiset(a[1..]) == multiset(b[1..])
    ensures a[1..] == b[1..] ==> a == b
  {
    assert a == [a[0]] + a[1..] && b == [b[0]] + b[1..];
    RemoveAt(a, 0);
    RemoveAt(b, 0);
    assert a[..0] + a[1..] == a[1..] && b[..0] + b[1..] == b[1..];
  }

  lemma TailIsStrict(a: seq<Window>)
    requires a != [] && StrictlySorted(a)
    ensures StrictlySorted(a[1..])
  {
  }

  /** A strictly sorted list is determined by its elements. */
  lemma {:induction false} StrictSortIsUnique(a: seq<Window>, b: seq<Window>)
    requires StrictlySorted(a) && StrictlySorted(b) && multiset(a) == multiset(b)
    ensures a == b
  {
    assert |multiset(a)| == |multiset(b)|;
    if a != [] {
      StrictHeadsAgree(a, b);
      TailsAgree(a, b);
      TailIsStrict(a);
      TailIsStrict(b);
      StrictSortIsUnique(a[1..], b[1..]);
    }
  }

  ghost predicate DistinctSegments(ws: seq<Window>) {
    forall i, j :: 0 <= i < j < |ws| ==> ws[i].seg != ws[j].seg
  }

  lemma PrefixesAreOrdered(x: string, y: string)
    requires CoordinatePrefix(x) && CoordinatePrefix(y)
    requires SegmentRegion(x) != SegmentRegion(y)
    requires SegmentRegion(x) == Apac || SegmentRegion(y) == Us
    ensures Less(x, y)
  {
  }

  lemma GroupIsStrictlySorted(ws: seq<Window>, r: Region)
    requires StrictlySorted(ws)
    ensures StrictlySorted(SortedGroup(SegmentRegion, ws, r))
  {
    var g := GroupOf(SegmentRegion, ws, r);
    GroupKeepsOrder(SegmentRegion, ws, r);
    SortBySegmentSorts(g);
    var s := SortBySegment(g);
    StrictIsDistinct(g);
    SortedPermutationIsStrict(g, s);
  }

  lemma {:induction false} GroupKeepsOrder(f: string -> Region, ws: seq<Window>, r: Region)
    requires StrictlySorted(ws)
    ensures StrictlySorted(GroupOf(f, ws, r))
  {
    if ws != [] {
      GroupKeepsOrder(f, ws[1..], r);
      var rest := GroupOf(f, ws[1..], r);
      forall j | 0 <= j < |rest| ensures Less(ws[0].seg, rest[j].seg) {
        assert rest[j] in ws[1..];
      }
    }
  }

  /** Sorting a list with distinct ids sorts it strictly. */
  lemma SortedPermutationIsStrict(g: seq<Window>, s: seq<Window>)
    requires DistinctSegments(g) && Sorted(s) && multiset(g) == multiset(s)
    ensures StrictlySorted(s)
  {
    forall i, j | 0 <= i < j < |s| ensures Less(s[i].seg, s[j].seg) {
      LessIsTotal(s[i].seg, s[j].seg);
      if s[i].seg == s[j].seg {
        assert s[i] in multiset(g) && s[j] in multiset(g);
        var k :| 0 <= k < |g| && g[k] == s[i];
        var l :| 0 <= l < |g| && g[l] == s[j];
        assert k == l;
        DistinctHasNoDuplicates(g, k);
        TwoPositionsCountTwice(s, i, j);
      }
    }
  }

  lemma StrictIsDistinct(g: seq<Window>)
    requires StrictlySorted(g)
    ensures DistinctSegments(g)
  {
    forall i, j | 0 <= i < j < |g| ensures g[i].seg != g[j].seg {
      LessIsTotal(g[i].seg, g[j].seg);
    }
  }

  lemma DistinctHasNoDuplicates(g: seq<Window>, k: nat)
    requires DistinctSegments(g) && k < |g|
    ensures multiset(g)[g[k]] == 1
  {
    assert g == g[..k] + [g[k]] + g[k + 1..];
    assert g[k] !in g[..k] && g[k] !in g[k + 1..];
  }

  lemma TwoPositionsCountTwice(s: seq<Window>, i: nat, j: nat)
    requires i < j < |s| && s[i] == s[j]
    ensures multiset(s)[s[i]] >= 2
  {
    assert s == s[..i] + [s[i]] + s[i + 1..j] + [s[j]] + s[j + 1..];
  }

  function Rank(r: Region): nat {
    match r
    case Apac => 0
    case Eu => 1
    case Us => 2
  }

  /** The list never returns to a region that comes earlier in the coordinator's order. */
  predicate RegionsAscend(ws: seq<Window>) {
    forall i, j :: 0 <= i < j < |ws| ==> Rank(SegmentRegion(ws[i].seg)) <= Rank(SegmentRegion(ws[j].seg))
  }

  lemma GroupsInOrder(ws: seq<Window>, r: Region, q: Region)
    requires StrictlySorted(ws) && RegionsAscend(ws) && Rank(r) < Rank(q)
    ensures forall x, y :: x in SortedGroup(SegmentRegion, ws, r) && y in SortedGroup(SegmentRegion, ws, q)
              ==> Less(x.seg, y.seg)
  {
    forall x, y | x in SortedGroup(SegmentRegion, ws, r) && y in SortedGroup(SegmentRegion, ws, q)
      ensures Less(x.seg, y.seg)
    {
      EarlierRegionIsLess(ws, x, y);
    }
  }

  lemma EarlierRegionIsLess(ws: seq<Window>, x: Window, y: Window)
    requires StrictlySorted(ws) && RegionsAscend(ws) && x in ws && y in ws
    requires Rank(SegmentRegion(x.seg)) < Rank(SegmentRegion(y.seg))
    ensures Less(x.seg, y.seg)
  {
    var i :| 0 <= i < |ws| && ws[i] == x;
    var j :| 0 <= j < |ws| && ws[j] == y;
    assert i < j;
  }

  lemma AscendingRegionsKeepOrder(ws: seq<Window>)
    requires StrictlySorted(ws) && RegionsAscend(ws)
    ensures Flatten(RegionalGroups(SegmentRegion, ws)) == ws
  {
    GroupsPartitionTheRequest(SegmentRegion, ws);
    var a, e := SortedGroup(SegmentRegion, ws, Apac), SortedGroup(SegmentRegion, ws, Eu);
    var u := SortedGroup(SegmentRegion, ws, Us);
    GroupIsStrictlySorted(ws, Apac);
    GroupIsStrictlySorted(ws, Eu);
    GroupIsStrictlySorted(ws, Us);
    GroupsInOrder(ws, Apac, Eu);
    GroupsInOrder(ws, Apac, Us);
    GroupsInOrder(ws, Eu, Us);
    ConcatIsStrict(a, e);
    ConcatIsStrict(a + e, u);
    StrictSortIsUnique(a + e + u, ws);
  }

  lemma GroupsAscend(a: seq<Window>, e: seq<Window>, u: seq<Window>)
    requires forall w :: w in a ==> SegmentRegion(w.seg) == Apac
    requires forall w :: w in e ==> SegmentRegion(w.seg) == Eu
    requires forall w :: w in u ==> SegmentRegion(w.seg) == Us
    ensures RegionsAscend(a + e + u)
  {
    var all := a + e + u;
    forall i | 0 <= i < |all|
      ensures Rank(SegmentRegion(all[i].seg)) == if i < |a| then 0 else if i < |a| + |e| then 1 else 2
    {
      assert i < |a| ==> all[i] in a;
      assert |a| <= i < |a| + |e| ==> all[i] in e;
      assert |a| + |e| <= i ==> all[i] in u;
    }
  }

  /** The regional order of a strictly sorted request is its own order iff its regions ascend. */
  lemma OrderIsKeptExactly(ws: seq<Window>)
    requires StrictlySorted(ws)
    ensures Flatten(RegionalGroups(SegmentRegion, ws)) == ws <==> RegionsAscend(ws)
  {
    if RegionsAscend(ws) {
      AscendingRegionsKeepOrder(ws);
    }
    GroupsPartitionTheRequest(SegmentRegion, ws);
    GroupsAscend(
      SortedGroup(SegmentRegion, ws, Apac), SortedGroup(SegmentRegion, ws, Eu), SortedGroup(SegmentRegion, ws, Us));
  }

  /** On every network the saga reports what the single transaction reports. */
  ghost predicate ReportsTheSame(ws: seq<Window>, slots: real, priority: Priority) {
    forall db: DB, rid, jid ::
      Execute(db, rid, jid, RegionalGroups(SegmentRegion, ws), slots, priority).failed
        == FirstFailure(db, ws, slots, priority)
  }

  /** An empty network with room on each segment of the request, but for two that it does not know. */
  function NetworkWithout(ws: seq<Window>, x: string, y: string, slots: real): DB {
    DB(map w | w in ws && w.seg != x && w.seg != y :: w.seg := slots + EMERGENCY_BUFFER, [], [])
  }

  lemma KnownWindowPasses(ws: seq<Window>, x: string, y: string, w: Window, slots: real, priority: Priority)
    requires slots > 0.0 && w in ws && w.seg != x && w.seg != y && w.lo < w.hi
    ensures CheckWindow(NetworkWithout(ws, x, y, slots), w, slots, priority).None?
  {
  }

  /** On such a network the first of the unknown segments is reported. */
  lemma {:induction false} FirstUnknownIsReported(
    ws: seq<Window>, list: seq<Window>, x: string, y: string, k: nat, slots: real, priority: Priority)
    requires slots > 0.0 && k < |list| && (list[k].seg == x || list[k].seg == y)
    requires forall w :: w in list ==> w in ws && w.lo < w.hi
    requires forall i :: 0 <= i < k ==> list[i].seg != x && list[i].seg != y
    ensures FirstFailure(NetworkWithout(ws, x, y, slots), list, slots, priority)
        == Some(FailedSegment(list[k], UnknownSegment, slots))
    decreases k
  {
    var db := NetworkWithout(ws, x, y, slots);
    if k == 0 {
      assert list[0] in list;
      assert CheckWindow(db, list[0], slots, priority) == Some(FailedSegment(list[0], UnknownSegment, slots));
    } else {
      assert list[0] in list;
      KnownWindowPasses(ws, x, y, list[0], slots, priority);
      FirstUnknownIsReported(ws, list[1..], x, y, k - 1, slots, priority);
    }
  }

  /** Two different lists of the same windows differ first at windows on two different segments, new to both. */
  lemma FirstDifference(a: seq<Window>, b: seq<Window>) returns (k: nat)
    requires StrictlySorted(a) && multiset(a) == multiset(b) && a != b
    ensures k < |a| && k < |b| && a[..k] == b[..k] && a[k].seg != b[k].seg
    ensures forall i :: 0 <= i < k ==> a[i].seg != a[k].seg && a[i].seg != b[k].seg
  {
    assert |a| == |multiset(a)| == |multiset(b)| == |b|;
    assert a[..|a|] == a && b[..|b|] == b;
    k := 0;
    while k < |a| && a[k] == b[k]
      invariant k <= |a| && a[..k] == b[..k]
    {
      assert a[..k + 1] == a[..k] + [a[k]] && b[..k + 1] == b[..k] + [b[k]];
      k := k + 1;
    }
    DifferenceIsNew(a, b, k);
  }

  lemma DifferenceIsNew(a: seq<Window>, b: seq<Window>, k: nat)
    requires StrictlySorted(a) && multiset(a) == multiset(b) && k < |a| && k < |b| && a[..k] == b[..k] && a[k] != b[k]
    ensures a[k].seg != b[k].seg
    ensures forall i :: 0 <= i < k ==> a[i].seg != a[k].seg && a[i].seg != b[k].seg
  {
    StrictIsDistinct(a);
    assert b[k] in multiset(a);
    var j :| 0 <= j < |a| && a[j] == b[k];
    if j < k {
      assert b[..k][j] == a[j];
      DistinctHasNoDuplicates(a, j);
      TwoPositionsCountTwice(b, j, k);
      assert false;
    }
  }

  /** Two different orders of the same windows report different failures on the network they differ at. */
  lemma DifferentOrdersReportDifferently(ws: seq<Window>, other: seq<Window>, slots: real, priority: Priority)
    returns (db: DB)
    requires StrictlySorted(ws) && slots > 0.0 && WindowsValid(ws) && multiset(other) == multiset(ws) && other != ws
    ensures FirstFailure(db, other, slots, priority) != FirstFailure(db, ws, slots, priority)
  {
    var k := FirstDifference(ws, other);
    var x, y := ws[k].seg, other[k].seg;
    db := NetworkWithout(ws, x, y, slots);
    SameWindows(ws, other);
    forall i | 0 <= i < k ensures other[i].seg != x && other[i].seg != y {
      assert other[i] == other[..k][i] == ws[..k][i] == ws[i];
    }
    FirstUnknownIsReported(ws, ws, x, y, k, slots, priority);
    FirstUnknownIsReported(ws, other, x, y, k, slots, priority);
  }

  lemma SameWindows(ws: seq<Window>, other: seq<Window>)
    requires WindowsValid(ws) && multiset(other) == multiset(ws)
    ensures forall w :: w in other ==> w in ws && w.lo < w.hi
  {
    forall w | w in other ensures w in ws && w.lo < w.hi {
      assert w in multiset(ws);
    }
  }

  /**
   When the reports agree. For a sorted request with distinct ids and valid windows, the saga
   reports on every network the very failure that the single transaction reports iff the
   sorted list never returns to an earlier region.
   */
  lemma ReportsAgreeExactly(ws: seq<Window>, slots: real, priority: Priority)
    requires StrictlySorted(ws) && slots > 0.0 && WindowsValid(ws)
    ensures ReportsTheSame(ws, slots, priority) <==> RegionsAscend(ws)
  {
    OrderIsKeptExactly(ws);
    if RegionsAscend(ws) {
      forall db: DB, rid, jid
        ensures Execute(db, rid, jid, RegionalGroups(SegmentRegion, ws), slots, priority).failed
            == FirstFailure(db, ws, slots, priority)
      {
        ReportIsFirstFailure(db, rid, jid, ws, slots, priority);
      }
    } else {
      GroupsPartitionTheRequest(SegmentRegion, ws);
      var db := DifferentOrdersReportDifferently(ws, Flatten(RegionalGroups(SegmentRegion, ws)), slots, priority);
      ReportIsFirstFailure(db, "", "", ws, slots, priority);
    }
  }

  lemma PrefixedRegionsAscend(ws: seq<Window>)
    requires StrictlySorted(ws) && forall w :: w in ws ==> CoordinatePrefix(w.seg)
    ensures RegionsAscend(ws)
  {
    forall i, j | 0 <= i < j < |ws| ensures Rank(SegmentRegion(ws[i].seg)) <= Rank(SegmentRegion(ws[j].seg)) {
      assert ws[i] in ws && ws[j] in ws;
      var x, y := ws[j].seg, ws[i].seg;
      if Rank(SegmentRegion(x)) < Rank(SegmentRegion(y)) {
        PrefixesAreOrdered(x, y);
        LessIsTotal(x, y);
        assert false;
      }
    }
  }

  /**
   With ids that all carry a coordinate prefix and are distinct, the regional order is
   the sorted order, so the saga reports the very failure the single transaction reports.
   */
  lemma SameFailedSegment(db: DB, rid: string, jid: string, ws: seq<Window>, slots: real, priority: Priority)
    requires DistinctSegments(ws)
    requires forall w :: w in ws ==> |w.seg| >= 3 && w.seg[..3] in {"ap_", "eu_", "us_"}
    ensures var sorted := SortBySegment(ws);
      var groups := RegionalGroups(SegmentRegion, sorted);
      Execute(db, rid, jid, groups, slots, priority).failed == FirstFailure(db, sorted, slots, priority)
  {
    var sorted := SortBySegment(ws);
    SortBySegmentSorts(ws);
    SortedPermutationIsStrict(ws, sorted);
    forall w | w in sorted ensures CoordinatePrefix(w.seg) {
      assert w in multiset(ws) && w.seg[..3] == [w.seg[0], w.seg[1], w.seg[2]];
    }
    PrefixedRegionsAscend(sorted);
    AscendingRegionsKeepOrder(sorted);
    ReportIsFirstFailure(db, rid, jid, sorted, slots, priority);
  }

  lemma ConcatIsStrict(a: seq<Window>, b: seq<Window>)
    requires StrictlySorted(a) && StrictlySorted(b) && forall x, y :: x in a && y in b ==> Less(x.seg, y.seg)
    ensures StrictlySorted(a + b)
  {
  }

  /**
   Without the prefixes the reports can differ: next to an "eu_" id, every legacy "US-"
   id comes first in the sorted list but last in the saga.
   */
  lemma LegacyIdsReportAnotherSegment(x: Window, y: Window, rid: string, jid: string, slots: real, priority: Priority)
    requires Starts(x.seg, 'U', 'S', '-') && Starts(y.seg, 'e', 'u', '_') && x.lo < x.hi && y.lo < y.hi
    ensures var ws, db := [x, y], DB(map[], [], []);
      && StrictlySorted(ws)
      && FirstFailure(db, ws, slots, priority) == Some(FailedSegment(x, UnknownSegment, slots))
      && Execute(db, rid, jid, RegionalGroups(SegmentRegion, ws), slots, priority).failed
          == Some(FailedSegment(y, UnknownSegment, slots))
  {
    var ws := [x, y];
    assert Less(x.seg, y.seg);
    FirstOfTwo(ws, x, y);
    ReportIsFirstFailure(DB(map[], [], []), rid, jid, ws, slots, priority);
    EmptyNetworkRejects(ws, slots, priority);
    EmptyNetworkRejects(Flatten(RegionalGroups(SegmentRegion, ws)), slots, priority);
  }

  lemma ReportIsFirstFailure(db: DB, rid: string, jid: string, ws: seq<Window>, slots: real, priority: Priority)
    ensures var groups := RegionalGroups(SegmentRegion, ws);
      Execute(db, rid, jid, groups, slots, priority).failed == FirstFailure(db, Flatten(groups), slots, priority)
  {
    GroupsPartitionTheRequest(SegmentRegion, ws);
    ForwardIsOnePass(db, rid, jid, RegionalGroups(SegmentRegion, ws), slots, priority);
  }

  lemma EmptyNetworkRejects(ws: seq<Window>, slots: real, priority: Priority)
    requires ws != [] && ws[0].lo < ws[0].hi
    ensures FirstFailure(DB(map[], [], []), ws, slots, priority) == Some(FailedSegment(ws[0], UnknownSegment, slots))
  {
  }

  lemma FirstOfTwo(ws: seq<Window>, x: Window, y: Window)
    requires ws == [x, y] && SegmentRegion(x.seg) == Us && SegmentRegion(y.seg) == Eu
    ensures Flatten(RegionalGroups(SegmentRegion, ws)) != [] && Flatten(RegionalGroups(SegmentRegion, ws))[0] == y
  {
    GroupsPartitionTheRequest(SegmentRegion, ws);
    var a, e := SortedGroup(SegmentRegion, ws, Apac), SortedGroup(SegmentRegion, ws, Eu);
    assert y in e && e[0] in e && e[0] in ws && a == [];
  }
}
