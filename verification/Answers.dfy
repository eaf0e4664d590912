/**
 What holds of one idempotency key while an entry for it is in the cache: which answers
 its callers are told, and who can still reserve for it.
 */
module Answers {
  import opened Tables
  import opened Admission
  import opened Wrappers
  import opened Bookings
  import DbRuns

  // ---------------------------------------------------------------------------
  // A call by itself
  // ---------------------------------------------------------------------------

  lemma RunOfTwo(s: State, a: Event, b: Event)
    ensures Run(s, [a, b]) == Do(Do(s, a), b)
  {
    assert [a, b][1..] == [b] && [b][1..] == [];
    assert Run(Do(s, a), [b]) == Do(Do(s, a), b);
  }

  function WithAttempt(s: State, r: Request, at: Label): State {
    s.(attempts := s.attempts + [Attempt(r, at)])
  }

  /** The first lookup of a call: a valid entry answers; without one, the regions decide on the path. */
  lemma CallLooksUp(s: State, r: Request)
    ensures var t := Run(s, [Arrive(r), LooksUp(|s.attempts|, true)]);
      if r.key in s.cache && s.now < s.cache[r.key].expiresAt then
        var answer := s.cache[r.key].answer;
        t == WithAttempt(s, r, Done(Replied(answer))).(told := s.told + [Told(r.key, r.jid, answer)])
      else t == WithAttempt(s, r, if InOneRegion(r.windows) then Transaction(0) else InSaga(None))
  {
    CrossingMeansTwoRegions(r);
    RunOfTwo(s, Arrive(r), LooksUp(|s.attempts|, true));
    var arrived := WithAttempt(s, r, Lookup);
    assert Do(s, Arrive(r)) == arrived;
    forall at ensures MoveTo(arrived, |s.attempts|, at) == WithAttempt(s, r, at) {
    }
  }

  lemma RunOfThree(s: State, a: Event, b: Event, c: Event)
    ensures Run(s, [a, b, c]) == Do(Run(s, [a, b]), c)
  {
    RunOfTwo(s, a, b);
    assert [a, b, c][1..] == [b, c];
    RunOfTwo(Do(s, a), b, c);
  }

  lemma TransactionReserves(s: State, r: Request, rid: string)
    requires r.key !in s.cache && Fresh(s, rid)
    requires FirstFailure(s.db, r.windows, SlotsNeeded(r.vehicle), r.priority).None?
    ensures var t := Do(WithAttempt(s, r, Transaction(0)), RunsTx(|s.attempts|, rid, Committed));
      && t.attempts == s.attempts + [Attempt(r, Done(Replied(Reserved(rid, r.jid))))] && t.now == s.now
      && t.db.rows == s.db.rows + NewRows(rid, r.jid, r.windows, SlotsNeeded(r.vehicle), r.priority)
      && t.cache == s.cache[r.key := Entry(r.jid, Reserved(rid, r.jid), s.now, s.now + 86_400_000_000_000)]
  {
    var n, ready := |s.attempts|, WithAttempt(s, r, Transaction(0));
    assert Do(ready, RunsTx(n, rid, Committed)) == Tell(CommitReservation(ready, r, rid), n, Reserved(rid, r.jid));
  }

  /**
   A call with a new key, in one region and with room, is answered with its reservation: the rows are inserted
   and the answer is cached for 24 hours, in which any other call with the key gets it too.
   */
  lemma FreshCallReserves(s: State, r: Request, rid: string, other: Request)
    requires r.key !in s.cache && InOneRegion(r.windows) && other.key == r.key
    requires rid !in s.issued && forall row :: row in s.db.rows ==> row.rid != rid
    requires FirstFailure(s.db, r.windows, SlotsNeeded(r.vehicle), r.priority).None?
    ensures var n := |s.attempts|;
      var t := Run(s, [Arrive(r), LooksUp(n, true), RunsTx(n, rid, Committed)]);
      var u := Run(t, [Arrive(other), LooksUp(n + 1, true)]);
      && t.attempts == s.attempts + [Attempt(r, Done(Replied(Reserved(rid, r.jid))))]
      && t.db.rows == s.db.rows + NewRows(rid, r.jid, r.windows, SlotsNeeded(r.vehicle), r.priority)
      && t.cache == s.cache[r.key := Entry(r.jid, Reserved(rid, r.jid), s.now, s.now + 86_400_000_000_000)]
      && u.attempts == t.attempts + [Attempt(other, Done(Replied(Reserved(rid, r.jid))))] && u.db == t.db
  {
    var n := |s.attempts|;
    RunOfThree(s, Arrive(r), LooksUp(n, true), RunsTx(n, rid, Committed));
    CallLooksUp(s, r);
    TransactionReserves(s, r, rid);
    CallLooksUp(Run(s, [Arrive(r), LooksUp(n, true), RunsTx(n, rid, Committed)]), other);
  }

  /** A saga that starts and ends by itself: its answer is told and cached. */
  lemma SagaAnswers(s: State, r: Request, rid: string, reply: Option<FailedSegment>)
    requires r.key !in s.cache && Fresh(s, rid) && !HasSaga(s, r.key)
    ensures var started := Do(WithAttempt(s, r, InSaga(None)), SagaStarts(|s.attempts|, rid));
      var answer := if reply.Some? then Failed(reply.value) else Reserved(rid, r.jid);
      var t := Do(started, SagaEnds(|s.attempts|, Some(reply), true));
      && rid in started.sagas && rid in started.issued && started.issued[rid] == Owner(r.key, r.jid)
      && t.attempts == s.attempts + [Attempt(r, Done(Replied(answer)))]
      && t.told == s.told + [Told(r.key, r.jid, answer)]
      && t.cache == s.cache[r.key := Entry(r.jid, answer, s.now, s.now + 86_400_000_000_000)]
  {
    var n, ready := |s.attempts|, WithAttempt(s, r, InSaga(None));
    var started := Issue(ready, n, rid);
    assert !HasSaga(ready, r.key);
    assert Do(ready, SagaStarts(n, rid)) == started;
    assert started.attempts == s.attempts + [Attempt(r, InSaga(Some(rid)))];
  }

  /** A call across regions with a new key starts its saga, and its answer is told and cached. */
  lemma FreshCallRunsSaga(s: State, r: Request, rid: string, reply: Option<FailedSegment>)
    requires r.key !in s.cache && !InOneRegion(r.windows)
    requires rid !in s.issued && forall row :: row in s.db.rows ==> row.rid != rid
    requires forall other :: other in s.sagas && other in s.issued ==> s.issued[other].key != r.key
    ensures var n := |s.attempts|;
      var started := Run(s, [Arrive(r), LooksUp(n, true), SagaStarts(n, rid)]);
      var answer := if reply.Some? then Failed(reply.value) else Reserved(rid, r.jid);
      var t := Do(started, SagaEnds(n, Some(reply), true));
      && rid in started.sagas && rid in started.issued && started.issued[rid] == Owner(r.key, r.jid)
      && t.attempts == s.attempts + [Attempt(r, Done(Replied(answer)))]
      && t.told == s.told + [Told(r.key, r.jid, answer)]
      && t.cache == s.cache[r.key := Entry(r.jid, answer, s.now, s.now + 86_400_000_000_000)]
  {
    RunOfThree(s, Arrive(r), LooksUp(|s.attempts|, true), SagaStarts(|s.attempts|, rid));
    CallLooksUp(s, r);
    SagaAnswers(s, r, rid, reply);
  }

  /** A lookup that fails ends the call with an error, and so does a transaction that the database does not confirm. */
  lemma ErrorsEndTheCall(s: State, i: nat, rid: string, committed: bool)
    requires i < |s.attempts| && Fresh(s, rid)
    ensures s.attempts[i].at == Lookup || s.attempts[i].at == LookupAgain ==>
      Do(s, LooksUp(i, false)) == MoveTo(s, i, Done(ServerError))
    ensures s.attempts[i].at.Transaction? ==> Do(s, RunsTx(i, rid, SystemError)) == MoveTo(s, i, Done(ServerError))
    ensures s.attempts[i].at.Transaction? && FailureOf(s, i).None? && s.attempts[i].request.key !in s.cache ==>
      var r, t := s.attempts[i].request, Do(s, RunsTx(i, rid, CommitError(committed)));
      && t.attempts[i].at == Done(ServerError) && t.told == s.told
      && t.db.rows == s.db.rows
           + (if committed then NewRows(rid, r.jid, r.windows, SlotsNeeded(r.vehicle), r.priority) else [])
      && (r.key in t.cache <==> committed)
  {
  }

  /** An attempt that finds its key's saga COMMITTED is told what the cache holds, or gets an error. */
  lemma CommittedSagaIsReplayed(s: State, i: nat, ok: bool)
    requires i < |s.attempts| && s.attempts[i].at == InSaga(None)
    ensures var r, t := s.attempts[i].request, Do(s, SagaReplays(i, ok));
      if ok && r.key in s.cache && s.now < s.cache[r.key].expiresAt then
        && t.attempts[i].at == Done(Replied(s.cache[r.key].answer))
        && t.told == s.told + [Told(r.key, r.jid, s.cache[r.key].answer)]
      else t.attempts[i].at == Done(ServerError) && t.told == s.told
  {
  }

  /** An entry answers calls until it expires, and not after. */
  lemma AnswersUntilExpiry(s: State, r: Request, elapsed: nat)
    requires r.key in s.cache
    ensures var late := Do(s, Tick(elapsed));
      var t := Run(late, [Arrive(r), LooksUp(|s.attempts|, true)]);
      t.told != s.told <==> s.now + elapsed < s.cache[r.key].expiresAt
  {
    CallLooksUp(Do(s, Tick(elapsed)), r);
  }

  /** A failure that was found is told, and cached where the cache has no entry and the write gets through. */
  lemma FailureIsToldAndCached(s: State, i: nat, written: bool)
    requires i < |s.attempts| && s.attempts[i].at.RecordFailure?
    ensures var r, answer, t := s.attempts[i].request, Failed(s.attempts[i].at.segment),
        Do(s, RecordsFailure(i, written));
      && t.told == s.told + [Told(r.key, r.jid, answer)] && t.attempts[i].at == Done(Replied(answer)) && t.db == s.db
      && t.cache == if written && r.key !in s.cache
                    then s.cache[r.key := Entry(r.jid, answer, s.now, s.now + 86_400_000_000_000)] else s.cache
  {
  }

  /** A journey is created as its call was told: approved with the reservation, or rejected without. */
  lemma JourneyIsBookedAsTold(s: State, k: nat)
    requires k < |s.told| && k !in s.booked
    ensures var x, t := s.told[k], Do(s, Books(k, true));
      var known := exists j :: j in s.journeys && (j.key == x.key || j.jid == x.jid);
      t.journeys == if known then s.journeys else s.journeys + [
        if x.answer.Reserved? then Journey(x.jid, x.key, x.answer.rid, true) else Journey(x.jid, x.key, "", false)]
    ensures Do(s, Books(k, false)).journeys == s.journeys
  {
  }

  // ---------------------------------------------------------------------------
  // Told and cached answers
  // ---------------------------------------------------------------------------

  /** The answer that an attempt found out by itself and is about to give, cached or not. */
  function OwnAnswer(s: State, e: Event): Option<Told> {
    match e
    case RecordsFailure(i, _) =>
      if i < |s.attempts| && s.attempts[i].at.RecordFailure?
      then Some(Told(s.attempts[i].request.key, s.attempts[i].request.jid, Failed(s.attempts[i].at.segment))) else None
    case SagaEnds(i, reply, _) =>
      if i < |s.attempts| && s.attempts[i].at.InSaga? && s.attempts[i].at.rid.Some? && reply.Some? then
        var r := s.attempts[i].request;
        Some(Told(r.key, r.jid, if reply.value.Some? then Failed(reply.value.value)
                                else Reserved(s.attempts[i].at.rid.value, r.jid)))
      else None
    case _ => None
  }

  /** An attempt is about to answer for the key although the cache already holds something else. */
  predicate Overrules(s: State, e: Event, key: string) {
    var own := OwnAnswer(s, e);
    own.Some? && own.value.key == key && key in s.cache && s.cache[key].answer != own.value.answer
  }

  /** Only a failure and the end of a saga give an answer without having asked the cache just before. */
  lemma OwnAnswersAreTold(s: State, e: Event, x: Told)
    requires Do(s, e).told == s.told + [x]
    ensures e.RecordsFailure? || e.SagaEnds? ==> OwnAnswer(s, e) == Some(x)
  {
    var t := Do(s, e);
    assert t.told[|s.told|] == x;
    assert t != s;
  }

  lemma OthersTellTheCache(s: State, e: Event, x: Told)
    requires Do(s, e).told == s.told + [x] && !e.RecordsFailure? && !e.SagaEnds?
    ensures x.key in Do(s, e).cache && Do(s, e).cache[x.key].answer == x.answer
    ensures x.key in s.cache ==> s.cache[x.key].answer == x.answer
  {
    var t := Do(s, e);
    assert t.told[|s.told|] == x;
    if e.RunsTx? {
      TransactionOutcomes(s, e.i, e.rid, e.end);
    }
  }

  /**
   When the answer that a caller is told and the cache agree. The two differ afterwards exactly when an
   attempt gives its own answer while the cache holds another; and the cache holds
   nothing exactly when it gives its own answer, finds nothing there and its write is lost.
   */
  lemma ToldAndCachedDifferExactly(s: State, e: Event, x: Told)
    requires Do(s, e).told == s.told + [x]
    ensures var t, own, k := Do(s, e), e.RecordsFailure? || e.SagaEnds?, x.key;
      && (k in t.cache && t.cache[k].answer != x.answer <==> own && k in s.cache && s.cache[k].answer != x.answer)
      && (k !in t.cache <==> own && k !in s.cache && !e.written)
  {
    if e.RecordsFailure? || e.SagaEnds? {
      OwnAnswersAreTold(s, e, x);
    } else {
      OthersTellTheCache(s, e, x);
    }
  }

  ghost predicate NeverOverruled(s: State, es: seq<Event>, key: string)
    decreases |es|
  {
    es == [] || (!Overrules(s, es[0], key) && NeverOverruled(Do(s, es[0]), es[1..], key))
  }

  /** Whatever was told for the key from some point on is this answer. */
  ghost predicate AllTold(told: seq<Told>, from: nat, key: string, answer: Answer) {
    forall j :: from <= j < |told| && told[j].key == key ==> told[j].answer == answer
  }

  lemma ToldGrowsByOne(s: State, e: Event)
    ensures var t := Do(s, e); t.told == s.told || exists x :: t.told == s.told + [x]
  {
    if e.RunsTx? && e.i < |s.attempts| && s.attempts[e.i].at.Transaction? {
      TransactionOutcomes(s, e.i, e.rid, e.end);
    }
  }

  lemma {:induction false} ToldGrows(s: State, es: seq<Event>)
    ensures s.told <= Run(s, es).told
    decreases |es|
  {
    if es != [] {
      ToldGrowsByOne(s, es[0]);
      ToldGrows(Do(s, es[0]), es[1..]);
    }
  }

  /** An overruling event tells its answer. */
  lemma OverrulingIsTold(s: State, e: Event, key: string)
    requires Overrules(s, e, key)
    ensures Do(s, e).told == s.told + [OwnAnswer(s, e).value]
  {
  }

  /** One event tells the key nothing but the cached answer exactly when it does not overrule it. */
  lemma StepTellsTheEntryExactly(s: State, e: Event, key: string)
    requires key in s.cache
    ensures AllTold(Do(s, e).told, |s.told|, key, s.cache[key].answer) <==> !Overrules(s, e, key)
  {
    var t := Do(s, e);
    ToldGrowsByOne(s, e);
    if Overrules(s, e, key) {
      OverrulingIsTold(s, e, key);
      assert t.told[|s.told|] == OwnAnswer(s, e).value;
    } else if t.told != s.told {
      var x :| t.told == s.told + [x];
      if e.RecordsFailure? || e.SagaEnds? {
        OwnAnswersAreTold(s, e, x);
      } else {
        OthersTellTheCache(s, e, x);
      }
    }
  }

  /**
   Retries get the same answer, exactly. While an entry of the key lives, every answer told
   for the key is the entry's if and only if no attempt overrules it; and so any two
   answers told in that time agree.
   */
  lemma {:induction false} LiveEntryIsTheAnswerExactly(s: State, es: seq<Event>, key: string)
    requires key in s.cache && Run(s, es).now <= s.cache[key].expiresAt
    ensures AllTold(Run(s, es).told, |s.told|, key, s.cache[key].answer) <==> NeverOverruled(s, es, key)
    decreases |es|
  {
    if es != [] {
      var t := Do(s, es[0]);
      TimeAdvances(t, es[1..]);
      EntryStep(s, es[0], key);
      StepTellsTheEntryExactly(s, es[0], key);
      LiveEntryIsTheAnswerExactly(t, es[1..], key);
      ToldGrowsByOne(s, es[0]);
      ToldGrows(t, es[1..]);
      SplitAllTold(Run(s, es).told, s.told, t.told, key, s.cache[key].answer);
    }
  }

  lemma SplitAllTold(all: seq<Told>, a: seq<Told>, b: seq<Told>, key: string, answer: Answer)
    requires a <= b <= all
    ensures AllTold(all, |a|, key, answer) <==> AllTold(b, |a|, key, answer) && AllTold(all, |b|, key, answer)
  {
    if AllTold(all, |a|, key, answer) {
      assert forall j :: |a| <= j < |b| ==> b[j] == all[j];
    }
    if AllTold(b, |a|, key, answer) && AllTold(all, |b|, key, answer) {
      assert forall j :: |a| <= j < |b| ==> b[j] == all[j];
    }
  }

  // ---------------------------------------------------------------------------
  // After an entry has expired
  // ---------------------------------------------------------------------------

  /** The attempt's transaction finds no valid entry and enough room. */
  ghost predicate HasRoom(s: State, i: nat) {
    && i < |s.attempts| && s.attempts[i].at.Transaction? && FailureOf(s, i).None?
    && var key := s.attempts[i].request.key; (key in s.cache ==> s.cache[key].expiresAt <= s.now)
  }

  /** The transaction commits and its caller is told the new reservation. */
  ghost predicate ReservesNow(s: State, i: nat, rid: string)
    requires i < |s.attempts|
  {
    var r, t := s.attempts[i].request, Do(s, RunsTx(i, rid, Committed));
    && t.told == s.told + [Told(r.key, r.jid, Reserved(rid, r.jid))]
    && t.db.rows == s.db.rows + NewRows(rid, r.jid, r.windows, SlotsNeeded(r.vehicle), r.priority)
  }

  /**
   An expired entry no longer answers, and yet it is in the way: until a purge removes it, every attempt with
   room ends with an error and without a reservation. Once a purge runs after the expiry, the
   key is free again, and the attempt commits and is told its reservation.
   */
  lemma ExpiredEntryBlocksExactly(s: State, i: nat, rid: string)
    requires HasRoom(s, i) && Fresh(s, rid)
    ensures var key, purged := s.attempts[i].request.key, Do(s, Purge);
      && (ReservesNow(s, i, rid) <==> key !in s.cache)
      && (ReservesNow(purged, i, rid) <==> key !in s.cache || s.cache[key].expiresAt < s.now)
      && (key in s.cache ==>
            var t := Do(Do(s, RunsTx(i, rid, Committed)), LooksUp(i, true));
            t.attempts[i].at == Done(ServerError) && t.told == s.told && t.db == s.db && t.cache == s.cache)
  {
    TransactionCommitsExactly(s, i, rid);
    TransactionCommitsExactly(Do(s, Purge), i, rid);
  }

  lemma TransactionCommitsExactly(s: State, i: nat, rid: string)
    requires HasRoom(s, i) && Fresh(s, rid)
    ensures ReservesNow(s, i, rid) <==> s.attempts[i].request.key !in s.cache
  {
    var r := s.attempts[i].request;
    var t := Do(s, RunsTx(i, rid, Committed));
    if r.key in s.cache {
      assert t == MoveTo(s, i, LookupAgain);
      assert t.told == s.told != s.told + [Told(r.key, r.jid, Reserved(rid, r.jid))];
    } else {
      assert t == Tell(CommitReservation(s, r, rid), i, Reserved(rid, r.jid));
    }
  }

  // ---------------------------------------------------------------------------
  // Who can still reserve for the key
  // ---------------------------------------------------------------------------

  /** The attempt missed the cache and is about to run a saga for the key. */
  predicate AboutToRunSaga(s: State, i: nat, key: string) {
    i < |s.attempts| && s.attempts[i].request.key == key && s.attempts[i].at == InSaga(None)
  }

  /** Such an attempt exists, and the key has no saga yet: the record of a second one could not be inserted. */
  ghost predicate CanRunSaga(s: State, key: string) {
    !HasSaga(s, key) && exists i :: AboutToRunSaga(s, i, key)
  }

  /** A reservation id was generated for the key between the two states. */
  ghost predicate NewIdFor(s: State, t: State, key: string) {
    exists rid :: rid in t.issued && rid !in s.issued && t.issued[rid].key == key
  }

  ghost predicate NoNewCommit(s: State, t: State, key: string) {
    s.commits <= t.commits && forall j :: |s.commits| <= j < |t.commits| ==> t.commits[j].key != key
  }

  ghost predicate IssuedKept(s: State, t: State) {
    forall rid :: rid in s.issued ==> rid in t.issued && t.issued[rid] == s.issued[rid]
  }

  lemma IdsAreKept(s: State, e: Event)
    ensures IssuedKept(s, Do(s, e))
  {
    if e.RunsTx? && e.i < |s.attempts| && s.attempts[e.i].at.Transaction? {
      TransactionOutcomes(s, e.i, e.rid, e.end);
    }
  }

  /** A new id comes from the commit of a transaction or from an attempt that starts the first saga of the key. */
  lemma IdsAreIssued(s: State, e: Event, key: string)
    requires key in s.cache && NewIdFor(s, Do(s, e), key)
    ensures CanRunSaga(s, key)
  {
    if e.RunsTx? && e.i < |s.attempts| && s.attempts[e.i].at.Transaction? {
      TransactionOutcomes(s, e.i, e.rid, e.end);
    } else {
      assert e.SagaStarts? && AboutToRunSaga(s, e.i, key);
    }
  }

  lemma NoCommitUnderEntry(s: State, e: Event, key: string)
    requires key in s.cache
    ensures NoNewCommit(s, Do(s, e), key)
  {
    if e.RunsTx? && e.i < |s.attempts| && s.attempts[e.i].at.Transaction? {
      TransactionOutcomes(s, e.i, e.rid, e.end);
    }
  }

  lemma SagaIdsGrow(s: State, e: Event)
    ensures var t := Do(s, e);
      t.sagas == s.sagas || (e.SagaStarts? && e.i < |s.attempts| && s.attempts[e.i].at == InSaga(None)
                             && !HasSaga(s, s.attempts[e.i].request.key) && Fresh(s, e.rid)
                             && t == Issue(s, e.i, e.rid))
  {
    if e.RunsTx? && e.i < |s.attempts| && s.attempts[e.i].at.Transaction? {
      TransactionOutcomes(s, e.i, e.rid, e.end);
    }
  }

  lemma SagasStay(s: State, e: Event, key: string)
    ensures HasSaga(s, key) ==> HasSaga(Do(s, e), key)
  {
    if rid :| rid in s.sagas && rid in s.issued && s.issued[rid].key == key {
      IdsAreKept(s, e);
      SagaIdsGrow(s, e);
      assert rid in Do(s, e).sagas;
    }
  }

  lemma NoSagaPastLiveEntry(s: State, e: Event, key: string)
    requires key in s.cache && s.now < s.cache[key].expiresAt && CanRunSaga(Do(s, e), key)
    ensures CanRunSaga(s, key)
  {
    SagasStay(s, e, key);
    var i :| AboutToRunSaga(Do(s, e), i, key);
    NoAttemptPastLiveEntry(s, e, key, i);
  }

  lemma NoAttemptPastLiveEntry(s: State, e: Event, key: string, i: nat)
    requires key in s.cache && s.now < s.cache[key].expiresAt && AboutToRunSaga(Do(s, e), i, key)
    ensures AboutToRunSaga(s, i, key)
  {
    match e
    case RunsTx(k, rid, end) =>
      if k < |s.attempts| && s.attempts[k].at.Transaction? {
        TransactionOutcomes(s, k, rid, end);
      }
    case Arrive(r) =>
    case LooksUp(k, ok) =>
    case RecordsFailure(k, written) =>
    case SagaReplays(k, ok) =>
    case SagaStarts(k, rid) =>
    case SagaEnds(k, reply, written) =>
    case _ =>
  }

  /** What a run does for a key whose entry lives throughout. */
  ghost predicate OnlySagaReserves(s: State, t: State, key: string) {
    NoNewCommit(s, t, key) && IssuedKept(s, t) && (NewIdFor(s, t, key) ==> CanRunSaga(s, key))
  }

  lemma StepReserves(s: State, e: Event, key: string)
    requires key in s.cache
    ensures OnlySagaReserves(s, Do(s, e), key)
  {
    NoCommitUnderEntry(s, e, key);
    IdsAreKept(s, e);
    if NewIdFor(s, Do(s, e), key) {
      IdsAreIssued(s, e, key);
    }
  }

  lemma TwoRunsReserve(s: State, t: State, u: State, key: string)
    requires OnlySagaReserves(s, t, key) && OnlySagaReserves(t, u, key)
    requires CanRunSaga(t, key) ==> CanRunSaga(s, key)
    ensures OnlySagaReserves(s, u, key)
  {
    if NewIdFor(s, u, key) && !NewIdFor(s, t, key) {
      assert NewIdFor(t, u, key);
    }
  }

  lemma {:induction false} LiveEntryRun(s: State, es: seq<Event>, key: string)
    requires key in s.cache && Run(s, es).now < s.cache[key].expiresAt
    ensures OnlySagaReserves(s, Run(s, es), key)
    decreases |es|
  {
    if es != [] {
      var t := Do(s, es[0]);
      TimeAdvances(s, es);
      TimeAdvances(t, es[1..]);
      EntryStep(s, es[0], key);
      StepReserves(s, es[0], key);
      LiveEntryRun(t, es[1..], key);
      if CanRunSaga(t, key) {
        NoSagaPastLiveEntry(s, es[0], key);
      }
      TwoRunsReserve(s, t, Run(s, es), key);
    }
  }

  /** In this continuation the entry of the key stays alive to the end. */
  ghost predicate StaysAlive(s: State, es: seq<Event>, key: string)
    requires key in s.cache
  {
    Run(s, es).now < s.cache[key].expiresAt
  }

  ghost predicate ReservesAgain(s: State, es: seq<Event>, key: string)
    requires key in s.cache
  {
    StaysAlive(s, es, key) && NewIdFor(s, Run(s, es), key)
  }

  lemma SagaReservesAgain(s: State, key: string, rid: string, i: nat)
    requires key in s.cache && s.now < s.cache[key].expiresAt && Fresh(s, rid)
    requires AboutToRunSaga(s, i, key) && !HasSaga(s, key)
    ensures ReservesAgain(s, [SagaStarts(i, rid)], key)
  {
    var e := SagaStarts(i, rid);
    assert Run(s, [e]) == Run(Do(s, e), [e][1..]) == Do(s, e) == Issue(s, i, rid);
    assert rid in Issue(s, i, rid).issued;
  }

  /**
   At most once across both paths. From the moment a commit or a saga has written an entry
   for the key, and while it lives, no transaction commits for the key; and a further
   reservation id is made for it in some continuation exactly when the key has no saga and some
   attempt had already missed the cache and stands before its saga.
   */
  lemma FurtherReservationExactly(s: State, key: string, rid: string)
    requires key in s.cache && s.now < s.cache[key].expiresAt && Fresh(s, rid)
    ensures forall es :: StaysAlive(s, es, key) ==> NoNewCommit(s, Run(s, es), key)
    ensures (exists es :: ReservesAgain(s, es, key)) <==> CanRunSaga(s, key)
  {
    forall es | StaysAlive(s, es, key)
      ensures NoNewCommit(s, Run(s, es), key)
      ensures ReservesAgain(s, es, key) ==> CanRunSaga(s, key)
    {
      LiveEntryRun(s, es, key);
    }
    if CanRunSaga(s, key) {
      var i :| AboutToRunSaga(s, i, key);
      SagaReservesAgain(s, key, rid, i);
    }
  }

  ghost predicate OneSaga(s: State) {
    forall a, b :: a in s.sagas && b in s.sagas && a in s.issued && b in s.issued && s.issued[a].key == s.issued[b].key
      ==> a == b
  }

  lemma StepKeepsOneSaga(s: State, e: Event)
    requires OwnersInv(s) && OneSaga(s)
    ensures OneSaga(Do(s, e))
  {
    SagaIdsGrow(s, e);
    IdsAreKept(s, e);
  }

  lemma {:induction false} RunKeepsOneSaga(s: State, es: seq<Event>)
    requires Inv(s) && OneSaga(s)
    ensures OneSaga(Run(s, es))
    decreases |es|
  {
    if es != [] {
      StepKeepsInv(s, es[0]);
      StepKeepsOneSaga(s, es[0]);
      RunKeepsOneSaga(Do(s, es[0]), es[1..]);
    }
  }

  /** At most one saga by key, however many attempts there are and however long they are apart. */
  lemma OneSagaPerKey(init: State, es: seq<Event>, a: string, b: string)
    requires Init(init) && a in Run(init, es).sagas && b in Run(init, es).sagas
    ensures var s := Run(init, es);
      a in s.issued && b in s.issued && (s.issued[a].key == s.issued[b].key ==> a == b)
  {
    RunKeepsInv(init, es);
    RunKeepsOneSaga(init, es);
  }

  // ---------------------------------------------------------------------------
  // Capacity
  // ---------------------------------------------------------------------------

  ghost predicate RequestFits(bound: DbRuns.Bound, r: Request) {
    DbRuns.RequestFits(bound, r.windows, SlotsNeeded(r.vehicle), r.priority)
  }

  ghost predicate EventFits(bound: DbRuns.Bound, s: State, e: Event) {
    match e
    case Arrive(r) => RequestFits(bound, r)
    case Table(step) => DbRuns.Fits(bound, s.db, step)
    case _ => true
  }

  ghost predicate EventsFit(bound: DbRuns.Bound, s: State, es: seq<Event>)
    decreases |es|
  {
    es == [] || (EventFits(bound, s, es[0]) && EventsFit(bound, Do(s, es[0]), es[1..]))
  }

  ghost predicate RequestsFit(bound: DbRuns.Bound, s: State) {
    forall a :: a in s.attempts ==> RequestFits(bound, a.request)
  }

  /** Attempts keep their requests; only an arrival adds one. */
  lemma AttemptsStay(s: State, e: Event)
    requires !e.Arrive?
    ensures var t := Do(s, e);
      && |t.attempts| == |s.attempts|
      && forall i :: 0 <= i < |s.attempts| ==> t.attempts[i].request == s.attempts[i].request
  {
    if Mover(e).Some? {
      AttemptMoves(s, e);
    }
  }

  lemma RequestsStay(bound: DbRuns.Bound, s: State, e: Event)
    requires RequestsFit(bound, s) && EventFits(bound, s, e)
    ensures RequestsFit(bound, Do(s, e))
  {
    if !e.Arrive? {
      AttemptsStay(s, e);
      var t := Do(s, e);
      forall a | a in t.attempts ensures RequestFits(bound, a.request) {
        var i :| 0 <= i < |t.attempts| && t.attempts[i] == a;
        assert s.attempts[i] in s.attempts;
      }
    }
  }

  /** A commit is a reserve step of the table model. */
  lemma CommitIsReserve(bound: DbRuns.Bound, s: State, i: nat, rid: string)
    requires i < |s.attempts| && FailureOf(s, i).None? && RequestFits(bound, s.attempts[i].request)
    requires DbRuns.Inv(bound, s.db)
    ensures DbRuns.Inv(bound, CommitReservation(s, s.attempts[i].request, rid).db)
  {
    var r := s.attempts[i].request;
    DbRuns.StepKeepsInv(bound, s.db, DbRuns.ReserveTx(rid, r.jid, r.windows, r.vehicle, r.priority));
  }

  lemma StepKeepsBound(bound: DbRuns.Bound, s: State, e: Event)
    requires DbRuns.Inv(bound, s.db) && RequestsFit(bound, s) && EventFits(bound, s, e)
    ensures DbRuns.Inv(bound, Do(s, e).db)
  {
    EventTables(s, e);
    if e.Table? {
      DbRuns.StepKeepsInv(bound, s.db, e.step);
    } else if e.RunsTx? && Do(s, e).db != s.db {
      assert s.attempts[e.i] in s.attempts;
      CommitIsReserve(bound, s, e.i, e.rid);
    }
  }

  /** Whatever attempts, sagas and purges do, the load stays within the bound if every request's own load fits. */
  lemma {:induction false} BookingsKeepBounds(bound: DbRuns.Bound, s: State, es: seq<Event>)
    requires DbRuns.Inv(bound, s.db) && RequestsFit(bound, s) && EventsFit(bound, s, es)
    ensures DbRuns.Inv(bound, Run(s, es).db)
    decreases |es|
  {
    if es != [] {
      StepKeepsBound(bound, s, es[0]);
      RequestsStay(bound, s, es[0]);
      BookingsKeepBounds(bound, Do(s, es[0]), es[1..]);
    }
  }
}
