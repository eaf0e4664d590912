/**
 Which journeys free the slots that were reserved for them. Consumers release by journey id
 alone, and the journey service makes a new journey id for every call: slots whose call
 was not booked have no journey to free them, not even one booked on a replayed answer.
 */
module StrandedSlots {
  import opened Tables
  import opened Admission
  import opened Wrappers
  import opened Bookings
  import DbRuns

  // ---------------------------------------------------------------------------
  // Whose rows they are
  // ---------------------------------------------------------------------------

  /** The rows under a reservation id carry the journey id that it was generated for. */
  ghost predicate OwnRows(s: State) {
    forall i :: 0 <= i < |s.db.rows| && s.db.rows[i].rid in s.issued
      ==> s.db.rows[i].jid == s.issued[s.db.rows[i].rid].jid
  }

  ghost predicate BookedInv(s: State) {
    forall k :: k in s.booked ==> k < |s.told|
  }

  lemma TableKeepsOwnRows(s: State, step: DbRuns.Step)
    requires OwnRows(s) && StepAllowed(s, step)
    ensures OwnRows(s.(db := DbRuns.Apply(s.db, step)))
  {
    match step
    case ReserveTx(rid, jid, windows, vehicle, priority) =>
    case ReleaseWhere(f) =>
    case _ =>
  }

  lemma CommitKeepsOwnRows(s: State, r: Request, rid: string)
    requires OwnRows(s) && Fresh(s, rid)
    ensures OwnRows(CommitReservation(s, r, rid))
  {
    var t := CommitReservation(s, r, rid);
    forall i | 0 <= i < |t.db.rows| && t.db.rows[i].rid in t.issued
      ensures t.db.rows[i].jid == t.issued[t.db.rows[i].rid].jid
    {
      if i < |s.db.rows| {
        assert t.db.rows[i] == s.db.rows[i] && s.db.rows[i] in s.db.rows;
      }
    }
  }

  lemma IssueKeepsOwnRows(s: State, i: nat, rid: string)
    requires OwnRows(s) && i < |s.attempts| && Fresh(s, rid)
    ensures OwnRows(Issue(s, i, rid))
  {
    forall k | 0 <= k < |s.db.rows| ensures s.db.rows[k].rid != rid {
      assert s.db.rows[k] in s.db.rows;
    }
  }

  lemma StepKeepsOwnRows(s: State, e: Event)
    requires OwnRows(s)
    ensures OwnRows(Do(s, e))
  {
    match e
    case RunsTx(i, rid, end) =>
      if i < |s.attempts| && s.attempts[i].at.Transaction? && Fresh(s, rid) {
        TransactionOutcomes(s, i, rid, end);
        CommitKeepsOwnRows(s, s.attempts[i].request, rid);
      }
    case Table(step) =>
      if StepAllowed(s, step) {
        TableKeepsOwnRows(s, step);
      }
    case SagaStarts(i, rid) =>
      if i < |s.attempts| && Fresh(s, rid) {
        IssueKeepsOwnRows(s, i, rid);
      }
    case Arrive(r) =>
    case LooksUp(i, ok) =>
    case RecordsFailure(i, written) =>
    case SagaReplays(i, ok) =>
    case SagaEnds(i, reply, written) =>
    case _ =>
  }

  lemma StepKeepsBooked(s: State, e: Event)
    requires BookedInv(s)
    ensures BookedInv(Do(s, e))
  {
    if Mover(e).Some? {
      AttemptMoves(s, e);
    }
  }

  lemma {:induction false} RunKeepsOwnRows(s: State, es: seq<Event>)
    requires OwnRows(s) && BookedInv(s)
    ensures OwnRows(Run(s, es)) && BookedInv(Run(s, es))
    decreases |es|
  {
    if es != [] {
      StepKeepsOwnRows(s, es[0]);
      StepKeepsBooked(s, es[0]);
      RunKeepsOwnRows(Do(s, es[0]), es[1..]);
    }
  }

  lemma ReleaseByOwnerExactly(rows: seq<Row>, rid: string, owner: string, jid: string)
    requires forall i :: 0 <= i < |rows| && rows[i].rid == rid ==> rows[i].jid == owner
    ensures NoneActive(Release(rows, OfJourney(jid)), rid) <==> jid == owner || NoneActive(rows, rid)
    ensures jid != owner ==>
      forall i :: 0 <= i < |rows| && rows[i].rid == rid ==> Release(rows, OfJourney(jid))[i] == rows[i]
  {
    var after := Release(rows, OfJourney(jid));
    if jid == owner || NoneActive(rows, rid) {
      forall r | r in after && r.rid == rid ensures r.status == Released {
        var i :| 0 <= i < |after| && after[i] == r;
        assert after[i] == ReleaseRow(OfJourney(jid), rows[i]) && rows[i] in rows;
      }
    } else {
      var r :| r in rows && r.rid == rid && r.status != Released;
      var i :| 0 <= i < |rows| && rows[i] == r;
      assert after[i] == r && after[i] in after;
    }
  }

  /**
   The end of a journey frees the slots of the reservation that it carries iff the reservation was made for this
   very journey id; if it was made in an earlier call and replayed, it frees none of them.
   */
  lemma EndingFreesExactly(init: State, es: seq<Event>, n: nat)
    requires Init(init) && n < |Run(init, es).journeys| && Run(init, es).journeys[n].approved
    ensures var s := Run(init, es);
      var j := s.journeys[n];
      var after := Release(s.db.rows, OfJourney(j.jid));
      && j.rid in s.issued
      && (NoneActive(after, j.rid) <==> j.jid == s.issued[j.rid].jid || NoneActive(s.db.rows, j.rid))
      && (j.jid != s.issued[j.rid].jid ==>
           forall i :: 0 <= i < |after| && s.db.rows[i].rid == j.rid ==> after[i] == s.db.rows[i])
  {
    RunKeepsInv(init, es);
    RunKeepsOwnRows(init, es);
    var s := Run(init, es);
    var j := s.journeys[n];
    assert j in s.journeys;
    ReleaseByOwnerExactly(s.db.rows, j.rid, s.issued[j.rid].jid, j.jid);
  }

  /** The call has been told a reservation that was made for it; a retry with its key is about to look it up. */
  predicate RetryFindsAnswer(s: State, k: nat, i: nat) {
    && k < |s.told| && k !in s.booked && s.told[k].answer.Reserved? && i < |s.attempts| && s.attempts[i].at == Lookup
    && var r := s.attempts[i].request;
       && r.key == s.told[k].key && r.jid != s.told[k].answer.jid && !KeyIsBooked(s, r.key) && !HasJourney(s, r.jid)
       && r.key in s.cache && s.cache[r.key].answer == s.told[k].answer && s.now < s.cache[r.key].expiresAt
  }

  lemma RetryIsTold(s: State, k: nat, i: nat)
    requires RetryFindsAnswer(s, k, i)
    ensures Do(Do(s, Books(k, false)), LooksUp(i, true)) == Tell(s.(booked := s.booked + {k}), i, s.told[k].answer)
  {
    assert Do(s, Books(k, false)) == s.(booked := s.booked + {k});
  }

  lemma RetryBooks(s: State, k: nat, i: nat)
    requires RetryFindsAnswer(s, k, i) && BookedInv(s)
    ensures var r, rid := s.attempts[i].request, s.told[k].answer.rid;
      var t := Do(Tell(s.(booked := s.booked + {k}), i, s.told[k].answer), Books(|s.told|, true));
      t.journeys == s.journeys + [Journey(r.jid, r.key, rid, true)] && t.db == s.db
  {
    var told := Tell(s.(booked := s.booked + {k}), i, s.told[k].answer);
    assert |s.told| !in told.booked && told.journeys == s.journeys;
    assert !KeyIsBooked(told, s.attempts[i].request.key) && !HasJourney(told, s.attempts[i].request.jid);
  }

  lemma RunOfThree(s: State, a: Event, b: Event, c: Event)
    ensures Run(s, [a, b, c]) == Do(Do(Do(s, a), b), c)
  {
    assert [a, b, c][1..] == [b, c] && [b, c][1..] == [c] && [c][1..] == [];
    assert Run(Do(s, a), [b, c]) == Run(Do(Do(s, a), b), [c]);
  }

  /**
   How such journeys arise: the first call is told its reservation and fails to create its journey; the
   retry with the same key is told the same from the cache and books it under its own id.
   */
  lemma RetryBooksForeignSlots(init: State, es: seq<Event>, k: nat, i: nat)
    requires Init(init)
    requires var s := Run(init, es);
      && k < |s.told| && k !in s.booked && s.told[k].answer.Reserved? && i < |s.attempts| && s.attempts[i].at == Lookup
      && var r := s.attempts[i].request;
         && r.key == s.told[k].key && r.jid != s.told[k].answer.jid
         && (forall j :: j in s.journeys ==> j.key != r.key && j.jid != r.jid)
         && r.key in s.cache && s.cache[r.key].answer == s.told[k].answer && s.now < s.cache[r.key].expiresAt
    ensures var s := Run(init, es);
      var r, rid := s.attempts[i].request, s.told[k].answer.rid;
      var t := Run(s, [Books(k, false), LooksUp(i, true), Books(|s.told|, true)]);
      && t.journeys == s.journeys + [Journey(r.jid, r.key, rid, true)] && t.db == s.db
      && forall n :: 0 <= n < |t.db.rows| && t.db.rows[n].rid == rid
           ==> Release(t.db.rows, OfJourney(r.jid))[n] == t.db.rows[n]
  {
    RunKeepsInv(init, es);
    RunKeepsOwnRows(init, es);
    var s := Run(init, es);
    RunOfThree(s, Books(k, false), LooksUp(i, true), Books(|s.told|, true));
    RetryIsTold(s, k, i);
    RetryBooks(s, k, i);
    assert s.told[k] in s.told;
    ReleaseByOwnerExactly(s.db.rows, s.told[k].answer.rid, s.told[k].answer.jid, s.attempts[i].request.jid);
  }

  // ---------------------------------------------------------------------------
  // Rows without a journey
  // ---------------------------------------------------------------------------

  /** The releases there are: for journeys that exist, for sagas that are undone, and the orphan pass. */
  ghost predicate IsLawful(s: State, e: Event) {
    e.Table? && e.step.ReleaseWhere? ==>
      match e.step.f
      case OfJourney(jid) => HasJourney(s, jid)
      case OfReservation(rid) => rid in s.sagas
      case EndedBefore(_) => true
      case _ => false
  }

  ghost predicate AllLawful(s: State, es: seq<Event>)
    decreases |es|
  {
    es == [] || (IsLawful(s, es[0]) && AllLawful(Do(s, es[0]), es[1..]))
  }

  /** An orphan pass after the end of the row's window, or a release of its reservation id. */
  predicate FreesOrphan(e: Event, r: Row) {
    && e.Table? && e.step.ReleaseWhere?
    && ((e.step.f.EndedBefore? && r.window.hi < e.step.f.t) || (e.step.f.OfReservation? && e.step.f.rid == r.rid))
  }

  lemma {:induction false} JourneysStay(s: State, es: seq<Event>, jid: string)
    ensures HasJourney(s, jid) ==> HasJourney(Run(s, es), jid)
    decreases |es|
  {
    if es != [] {
      if j :| j in s.journeys && j.jid == jid {
        JourneysGrow(s, es[0]);
        assert j in Do(s, es[0]).journeys;
      }
      JourneysStay(Do(s, es[0]), es[1..], jid);
    }
  }

  lemma JourneysGrow(s: State, e: Event)
    ensures s.journeys <= Do(s, e).journeys
  {
    if e.RunsTx? && e.i < |s.attempts| && s.attempts[e.i].at.Transaction? {
      TransactionOutcomes(s, e.i, e.rid, e.end);
    }
  }

  /** What an event does to one row. */
  lemma RowStep(s: State, e: Event, i: nat)
    requires i < |s.db.rows|
    ensures var t, row := Do(s, e), s.db.rows[i];
      && i < |t.db.rows|
      && t.db.rows[i] == if e.Table? && e.step.ReleaseWhere? then ReleaseRow(e.step.f, row) else row
  {
    EventTables(s, e);
    if e.Table? && e.step.ReserveTx? && StepAllowed(s, e.step) {
      assert DbRuns.Apply(s.db, e.step).rows[i] == s.db.rows[i];
    }
  }

  lemma {:induction false} ReleasedStays(s: State, es: seq<Event>, i: nat)
    requires i < |s.db.rows| && s.db.rows[i].status == Released
    ensures i < |Run(s, es).db.rows| && Run(s, es).db.rows[i].status == Released
    decreases |es|
  {
    if es != [] {
      RowStep(s, es[0], i);
      ReleasedStays(Do(s, es[0]), es[1..], i);
    }
  }

  /**
   A row whose journey is never created stays active exactly until an orphan pass after the
   end of its window, or a release of its reservation id, which only a saga's has.
   */
  lemma {:induction false} StrandedRowStaysExactly(s: State, es: seq<Event>, i: nat)
    requires i < |s.db.rows| && s.db.rows[i].status == Active && AllLawful(s, es)
    requires !HasJourney(Run(s, es), s.db.rows[i].jid)
    ensures i < |Run(s, es).db.rows|
    ensures Run(s, es).db.rows[i] == s.db.rows[i] <==> forall e :: e in es ==> !FreesOrphan(e, s.db.rows[i])
    decreases |es|
  {
    if es != [] {
      var t, row := Do(s, es[0]), s.db.rows[i];
      JourneysStay(s, es, row.jid);
      RowStep(s, es[0], i);
      assert es[0] in es && forall e :: e in es <==> e == es[0] || e in es[1..];
      if FreesOrphan(es[0], row) {
        ReleasedStays(t, es[1..], i);
      } else {
        StrandedRowStaysExactly(t, es[1..], i);
      }
    }
  }

  // ---------------------------------------------------------------------------
  // A booking that fails
  // ---------------------------------------------------------------------------

  /** No call under this journey id can create its journey any more. */
  ghost predicate Closed(s: State, jid: string) {
    && !HasJourney(s, jid)
    && (forall k :: 0 <= k < |s.told| && s.told[k].jid == jid ==> k in s.booked)
    && (forall a :: a in s.attempts && a.request.jid == jid ==> a.at.Done?)
  }

  lemma MoveKeepsClosed(s: State, t: State, i: nat, jid: string)
    requires Closed(s, jid) && Moves(s, t, i)
    ensures Closed(t, jid)
  {
    assert s.attempts[i] in s.attempts;
  }

  lemma StepKeepsClosed(s: State, e: Event, jid: string)
    requires Closed(s, jid) && (e.Arrive? ==> e.request.jid != jid)
    ensures Closed(Do(s, e), jid)
  {
    if Mover(e).Some? {
      AttemptMoves(s, e);
      if Do(s, e) != s {
        MoveKeepsClosed(s, Do(s, e), Mover(e).value, jid);
      }
    } else if e.Books? && e.k < |s.told| {
      BookKeepsClosed(s, e.k, e.created, jid);
    }
  }

  lemma BookKeepsClosed(s: State, k: nat, created: bool, jid: string)
    requires Closed(s, jid) && k < |s.told|
    ensures Closed(Book(s, k, created), jid)
  {
  }

  lemma {:induction false} ClosedStays(s: State, es: seq<Event>, jid: string)
    requires Closed(s, jid) && forall e :: e in es && e.Arrive? ==> e.request.jid != jid
    ensures Closed(Run(s, es), jid)
    decreases |es|
  {
    if es != [] {
      assert es[0] in es && forall e :: e in es[1..] ==> e in es;
      StepKeepsClosed(s, es[0], jid);
      ClosedStays(Do(s, es[0]), es[1..], jid);
    }
  }

  /**
   A reservation that was told and whose journey could not be created, because the driver has another live
   one or the database failed, keeps its slots: whatever follows, retries with the same key included,
   each of its rows stays active exactly until an orphan pass after the end of its window or
   a release of the reservation id.
   */
  lemma FailedBookingStrandsSlots(init: State, es: seq<Event>, k: nat, later: seq<Event>, i: nat)
    requires Init(init)
    requires var s := Run(init, es);
      && k < |s.told| && s.told[k].answer.Reserved? && s.told[k].answer.jid == s.told[k].jid
      && var t := Do(s, Books(k, false));
         && Closed(t, s.told[k].jid) && AllLawful(t, later)
         && i < |t.db.rows| && t.db.rows[i].rid == s.told[k].answer.rid && t.db.rows[i].status == Active
    requires forall e :: e in later && e.Arrive? ==> e.request.jid != Run(init, es).told[k].jid
    ensures var t := Do(Run(init, es), Books(k, false));
      && i < |Run(t, later).db.rows|
      && (Run(t, later).db.rows[i] == t.db.rows[i] <==> forall e :: e in later ==> !FreesOrphan(e, t.db.rows[i]))
  {
    RunKeepsInv(init, es);
    RunKeepsOwnRows(init, es);
    var s := Run(init, es);
    assert s.told[k] in s.told;
    var t := Do(s, Books(k, false));
    ClosedStays(t, later, s.told[k].jid);
    StrandedRowStaysExactly(t, later, i);
  }
}
