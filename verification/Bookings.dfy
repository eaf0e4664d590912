/**
 Idempotency keys. Any number of reserve attempts with the same or different keys, the
 idempotency cache and its purge, sagas that share the cache, and the journey service
 that books what it was told was reserved.
 */
module Bookings {
  import opened Tables
  import opened Admission
  import opened Collections
  import opened Wrappers
  import DbRuns
  import R = Regions

  const DAY := 24 * 60 * DbRuns.MINUTE
  const MAX_TX_RETRIES := 5

  datatype Answer = Reserved(rid: string, jid: string) | Failed(segment: FailedSegment)

  /** A row of capacity.idempotency_cache, which is keyed by the idempotency key. */
  datatype Entry = Entry(jid: string, answer: Answer, createdAt: int, expiresAt: int)

  datatype Reply = Replied(answer: Answer) | ServerError

  /**
   What an attempt does next. The transaction counts the times it was restarted; a saga has
   a reservation id once it has created its record.
   */
  datatype Label =
    | Lookup
    | Transaction(restarts: nat)
    | RecordFailure(segment: FailedSegment)
    | LookupAgain
    | InSaga(rid: Option<string>)
    | Done(reply: Reply)

  /** One call of Reserve with a valid request. */
  datatype Attempt = Attempt(request: Request, at: Label)

  /** History: a transaction of the single-region path that inserted rows. */
  datatype Commit = Commit(key: string, rid: string, time: int, windows: seq<Window>)

  /** History: an answer given to a caller of Reserve with that key and that journey id. */
  datatype Told = Told(key: string, jid: string, answer: Answer)

  /** A row of journey.journeys: the columns that matter here. */
  datatype Journey = Journey(jid: string, key: string, rid: string, approved: bool)

  /** What a reservation id was generated for. */
  datatype Owner = Owner(key: string, jid: string)

  /**
   issued maps every reservation id ever generated to its owner; sagas are those generated by
   the saga coordinator; booked are the answers, by position, on which a journey was to be
   created.
   */
  datatype State = State(
    db: DB, cache: map<string, Entry>, now: int, attempts: seq<Attempt>,
    issued: map<string, Owner>, sagas: set<string>,
    commits: seq<Commit>, told: seq<Told>, booked: set<nat>, journeys: seq<Journey>)

  /** How the database ends a transaction: a CommitError may or may not have committed. */
  datatype TxEnd = Committed | Restart | SystemError | CommitError(committed: bool)

  datatype Event =
    | Arrive(request: Request)
    | LooksUp(i: nat, ok: bool)
    | RunsTx(i: nat, rid: string, end: TxEnd)
    | RecordsFailure(i: nat, written: bool)
    | Purge
    | Tick(elapsed: nat)
    | Table(step: DbRuns.Step)
    | SagaReplays(i: nat, ok: bool)
    | SagaStarts(i: nat, rid: string)
    | SagaEnds(i: nat, reply: Option<Option<FailedSegment>>, written: bool)
    | Books(k: nat, created: bool)

  predicate CrossesRegions(r: Request) {
    |R.RegionsOf(R.SegmentRegion, r.windows)| > 1
  }

  /** GetByKey, and the re-check inside the transaction. */
  function ValidEntry(cache: map<string, Entry>, now: int, key: string): Option<Entry> {
    if key in cache && cache[key].expiresAt > now then Some(cache[key]) else None
  }

  function NewEntry(now: int, jid: string, answer: Answer): Entry {
    Entry(jid, answer, now, now + DAY)
  }

  /** InsertOnConflictIgnore. */
  function InsertOrIgnore(
    cache: map<string, Entry>, now: int, key: string, jid: string, answer: Answer): map<string, Entry>
  {
    if key in cache then cache else cache[key := NewEntry(now, jid, answer)]
  }

  function Offer(s: State, key: string, jid: string, answer: Answer): State {
    s.(cache := InsertOrIgnore(s.cache, s.now, key, jid, answer))
  }

  /** DeleteExpired. */
  function Unexpired(cache: map<string, Entry>, now: int): (kept: map<string, Entry>)
    ensures forall key :: key in kept <==> key in cache && now <= cache[key].expiresAt
    ensures forall key :: key in kept ==> kept[key] == cache[key]
  {
    map key | key in cache && cache[key].expiresAt >= now :: cache[key]
  }

  function MoveTo(s: State, i: nat, at: Label): State
    requires i < |s.attempts|
  {
    s.(attempts := s.attempts[i := s.attempts[i].(at := at)])
  }

  function Tell(s: State, i: nat, answer: Answer): State
    requires i < |s.attempts|
  {
    MoveTo(s, i, Done(Replied(answer))).(
      told := s.told + [Told(s.attempts[i].request.key, s.attempts[i].request.jid, answer)])
  }

  /** The rows and the cache entry, in one transaction. */
  function CommitReservation(s: State, r: Request, rid: string): State {
    s.(db := s.db.(rows := s.db.rows + NewRows(rid, r.jid, r.windows, SlotsNeeded(r.vehicle), r.priority)),
       cache := s.cache[r.key := NewEntry(s.now, r.jid, Reserved(rid, r.jid))],
       issued := s.issued[rid := Owner(r.key, r.jid)],
       commits := s.commits + [Commit(r.key, rid, s.now, r.windows)])
  }

  /** doReserveTx for a generated id, up to its commit. */
  function DoReserveTx(s: State, i: nat, rid: string, end: TxEnd): State
    requires i < |s.attempts| && s.attempts[i].at.Transaction?
  {
    var r, restarts := s.attempts[i].request, s.attempts[i].at.restarts;
    var failure := FirstFailure(s.db, r.windows, SlotsNeeded(r.vehicle), r.priority);
    if end == Restart then
      MoveTo(s, i, if restarts < MAX_TX_RETRIES then Transaction(restarts + 1) else Done(ServerError))
    else if end == SystemError then MoveTo(s, i, Done(ServerError))
    else if ValidEntry(s.cache, s.now, r.key).Some? then Tell(s, i, s.cache[r.key].answer)
    else if failure.Some? then MoveTo(s, i, RecordFailure(failure.value))
    else if r.key in s.cache then MoveTo(s, i, LookupAgain)
    else if end == Committed then Tell(CommitReservation(s, r, rid), i, Reserved(rid, r.jid))
    else MoveTo(if end.committed then CommitReservation(s, r, rid) else s, i, Done(ServerError))
  }

  function LookUp(s: State, i: nat, ok: bool): State
    requires i < |s.attempts|
  {
    var key, at := s.attempts[i].request.key, s.attempts[i].at;
    if at != Lookup && at != LookupAgain then s
    else if !ok then MoveTo(s, i, Done(ServerError))
    else if ValidEntry(s.cache, s.now, key).Some? then Tell(s, i, s.cache[key].answer)
    else MoveTo(s, i, if at == LookupAgain then Done(ServerError)
                      else if CrossesRegions(s.attempts[i].request) then InSaga(None)
                      else Transaction(0))
  }

  function RecordIt(s: State, i: nat, written: bool): State
    requires i < |s.attempts| && s.attempts[i].at.RecordFailure?
  {
    var r, answer := s.attempts[i].request, Failed(s.attempts[i].at.segment);
    Tell(if written then Offer(s, r.key, r.jid, answer) else s, i, answer)
  }

  /** Table steps of others: a reserve step must be that of a saga, for the journey of its request. */
  ghost predicate StepAllowed(s: State, step: DbRuns.Step) {
    step.ReserveTx? ==> step.rid in s.sagas && step.rid in s.issued && step.jid == s.issued[step.rid].jid
  }

  /** The key is unique among sagas, whatever their age and status. */
  ghost predicate HasSaga(s: State, key: string) {
    exists rid :: rid in s.sagas && rid in s.issued && s.issued[rid].key == key
  }

  ghost predicate Fresh(s: State, rid: string) {
    rid !in s.issued && FreshReservation(s.db.rows, rid)
  }

  /** A saga found COMMITTED replays the cache, or fails when its entry is gone. */
  function SagaReplay(s: State, i: nat, ok: bool): State
    requires i < |s.attempts|
  {
    var entry := ValidEntry(s.cache, s.now, s.attempts[i].request.key);
    if ok && entry.Some? then Tell(s, i, entry.value.answer) else MoveTo(s, i, Done(ServerError))
  }

  /** The saga returns: an error (None), a failure, or acceptance; the last two are offered to the cache. */
  function SagaEnd(s: State, i: nat, reply: Option<Option<FailedSegment>>, written: bool): State
    requires i < |s.attempts| && s.attempts[i].at.InSaga? && s.attempts[i].at.rid.Some?
  {
    var r := s.attempts[i].request;
    if reply.None? then MoveTo(s, i, Done(ServerError))
    else
      var answer := if reply.value.Some? then Failed(reply.value.value)
        else Reserved(s.attempts[i].at.rid.value, r.jid);
      Tell(if written then Offer(s, r.key, r.jid, answer) else s, i, answer)
  }

  function Issue(s: State, i: nat, rid: string): State
    requires i < |s.attempts|
  {
    var r := s.attempts[i].request;
    MoveTo(s, i, InSaga(Some(rid))).(issued := s.issued[rid := Owner(r.key, r.jid)], sagas := s.sagas + {rid})
  }

  predicate HasJourney(s: State, jid: string) {
    exists j :: j in s.journeys && j.jid == jid
  }

  predicate KeyIsBooked(s: State, key: string) {
    exists j :: j in s.journeys && j.key == key
  }

  /**
   CreateJourney persists, once, what it was told for its key, under the journey id of its own
   call. It fails on a known key or id, and not created when the driver has another
   live journey, the database reports an error or the caller is gone.
   */
  function Book(s: State, k: nat, created: bool): State
    requires k < |s.told|
  {
    var t, after := s.told[k], s.(booked := s.booked + {k});
    if k in s.booked || !created || KeyIsBooked(s, t.key) || HasJourney(s, t.jid) then after
    else
      var rid := if t.answer.Reserved? then t.answer.rid else "";
      after.(journeys := s.journeys + [Journey(t.jid, t.key, rid, t.answer.Reserved?)])
  }

  /** One event; an event that is not enabled changes nothing. */
  ghost function Do(s: State, e: Event): State {
    match e
    case Arrive(r) => s.(attempts := s.attempts + [Attempt(r, Lookup)])
    case LooksUp(i, ok) => if i < |s.attempts| then LookUp(s, i, ok) else s
    case RunsTx(i, rid, end) =>
      if i < |s.attempts| && s.attempts[i].at.Transaction? && Fresh(s, rid) then DoReserveTx(s, i, rid, end) else s
    case RecordsFailure(i, written) =>
      if i < |s.attempts| && s.attempts[i].at.RecordFailure? then RecordIt(s, i, written) else s
    case Purge => s.(cache := Unexpired(s.cache, s.now))
    case Tick(elapsed) => s.(now := s.now + elapsed)
    case Table(step) => if StepAllowed(s, step) then s.(db := DbRuns.Apply(s.db, step)) else s
    case SagaReplays(i, ok) => if i < |s.attempts| && s.attempts[i].at == InSaga(None) then SagaReplay(s, i, ok) else s
    case SagaStarts(i, rid) =>
      if i < |s.attempts| && s.attempts[i].at == InSaga(None) && Fresh(s, rid) && !HasSaga(s, s.attempts[i].request.key)
      then Issue(s, i, rid) else s
    case SagaEnds(i, reply, written) =>
      if i < |s.attempts| && s.attempts[i].at.InSaga? && s.attempts[i].at.rid.Some?
      then SagaEnd(s, i, reply, written) else s
    case Books(k, created) => if k < |s.told| then Book(s, k, created) else s
  }

  ghost function Run(s: State, es: seq<Event>): State
    decreases |es|
  {
    if es == [] then s else Run(Do(s, es[0]), es[1..])
  }

  ghost predicate Init(s: State) {
    && s.cache == map[] && s.attempts == [] && s.issued == map[] && s.sagas == {}
    && s.commits == [] && s.told == [] && s.booked == {} && s.journeys == []
  }

  // ---------------------------------------------------------------------------
  // Invariants
  // ---------------------------------------------------------------------------

  /** Two commits of one key lie more than a day apart, and an entry stands guard in between. */
  ghost predicate CommitsInv(s: State) {
    && (forall k :: k in s.cache ==>
          s.cache[k].createdAt <= s.now && s.cache[k].expiresAt == s.cache[k].createdAt + DAY)
    && (forall c :: c in s.commits ==> c.time <= s.now)
    && (forall c :: c in s.commits && c.key in s.cache ==> c.time <= s.cache[c.key].createdAt)
    && (forall c :: c in s.commits && c.key !in s.cache ==> c.time + DAY < s.now)
    && (forall i, j :: 0 <= i < j < |s.commits| && s.commits[i].key == s.commits[j].key ==>
          s.commits[i].time + DAY < s.commits[j].time)
  }

  ghost predicate Owned(s: State, key: string, answer: Answer) {
    answer.Reserved? ==> answer.rid in s.issued && s.issued[answer.rid] == Owner(key, answer.jid)
  }

  /** Whatever is told or cached for a key names a reservation that was made for it. */
  ghost predicate OwnersInv(s: State) {
    && (forall k :: k in s.cache ==> Owned(s, k, s.cache[k].answer))
    && (forall t :: t in s.told ==> Owned(s, t.key, t.answer))
    && (forall c :: c in s.commits ==> c.rid in s.issued && s.issued[c.rid].key == c.key && c.rid !in s.sagas)
    && (forall rid :: rid in s.sagas ==> rid in s.issued)
    && (forall a :: a in s.attempts && a.at.InSaga? && a.at.rid.Some? ==>
          a.at.rid.value in s.sagas && s.issued[a.at.rid.value] == Owner(a.request.key, a.request.jid))
    && (forall j :: j in s.journeys && j.approved ==> j.rid in s.issued && s.issued[j.rid].key == j.key)
    && (forall i, j :: 0 <= i < j < |s.journeys| ==>
          s.journeys[i].key != s.journeys[j].key && s.journeys[i].jid != s.journeys[j].jid)
  }

  ghost predicate Recorded(s: State, rid: string) {
    exists c :: c in s.commits && c.rid == rid
  }

  /** Each commit's rows are one for each of its windows; every id of the single path is a commit's. */
  ghost predicate RowsInv(s: State) {
    && (forall c :: c in s.commits ==> WindowsOf(s.db.rows, c.rid) == c.windows)
    && (forall i, j :: 0 <= i < j < |s.commits| ==> s.commits[i].rid != s.commits[j].rid)
    && (forall rid :: rid in s.issued && rid !in s.sagas ==> Recorded(s, rid))
  }

  ghost predicate Inv(s: State) { CommitsInv(s) && OwnersInv(s) && RowsInv(s) }

  // Each event is composed of a few primitive changes.

  lemma MoveKeepsInv(s: State, i: nat, at: Label)
    requires Inv(s) && i < |s.attempts| && (at.InSaga? ==> at.rid.None?)
    ensures Inv(MoveTo(s, i, at))
  {
  }

  lemma TellKeepsInv(s: State, i: nat, answer: Answer)
    requires Inv(s) && i < |s.attempts| && Owned(s, s.attempts[i].request.key, answer)
    ensures Inv(Tell(s, i, answer))
  {
    MoveKeepsInv(s, i, Done(Replied(answer)));
  }

  lemma InsertKeepsInv(s: State, key: string, jid: string, answer: Answer)
    requires Inv(s) && Owned(s, key, answer)
    ensures Inv(Offer(s, key, jid, answer))
  {
  }

  lemma CommitKeepsCommits(s: State, r: Request, rid: string)
    requires CommitsInv(s) && r.key !in s.cache
    ensures CommitsInv(CommitReservation(s, r, rid))
  {
    var t := CommitReservation(s, r, rid);
    forall c | c in t.commits
      ensures c.time <= t.now
      ensures c.key in t.cache ==> c.time <= t.cache[c.key].createdAt
      ensures c.key !in t.cache ==> c.time + DAY < t.now
    {
      assert c in s.commits || c == Commit(r.key, rid, s.now, r.windows);
    }
    forall i, j | 0 <= i < j < |t.commits| && t.commits[i].key == t.commits[j].key
      ensures t.commits[i].time + DAY < t.commits[j].time
    {
      assert t.commits[i] == s.commits[i] && s.commits[i] in s.commits;
    }
  }

  lemma CommitKeepsOwners(s: State, r: Request, rid: string)
    requires OwnersInv(s) && Fresh(s, rid)
    ensures OwnersInv(CommitReservation(s, r, rid))
  {
  }

  lemma CommitKeepsInv(s: State, r: Request, rid: string)
    requires Inv(s) && r.key !in s.cache && Fresh(s, rid)
    ensures Inv(CommitReservation(s, r, rid))
  {
    CommitKeepsCommits(s, r, rid);
    CommitKeepsOwners(s, r, rid);
    CommitKeepsRows(s, r, rid);
  }

  lemma CommitKeepsRows(s: State, r: Request, rid: string)
    requires OwnersInv(s) && RowsInv(s) && Fresh(s, rid)
    ensures RowsInv(CommitReservation(s, r, rid))
  {
    var t, slots := CommitReservation(s, r, rid), SlotsNeeded(r.vehicle);
    var more := NewRows(rid, r.jid, r.windows, slots, r.priority);
    forall c | c in t.commits ensures WindowsOf(t.db.rows, c.rid) == c.windows {
      WindowsOfConcat(s.db.rows, more, c.rid);
      WindowsOfNewRows(rid, c.rid, r.jid, r.windows, slots, r.priority);
      if c !in s.commits {
        NoWindowsNoRows(s.db.rows, rid);
      }
    }
    forall i, j | 0 <= i < j < |t.commits| ensures t.commits[i].rid != t.commits[j].rid {
      assert t.commits[i] in s.commits;
    }
    forall id | id in t.issued && id !in t.sagas ensures Recorded(t, id) {
      if id == rid {
        assert t.commits[|s.commits|].rid == rid;
      } else {
        var c :| c in s.commits && c.rid == id;
        assert c in t.commits;
      }
    }
  }

  lemma TableKeepsInv(s: State, step: DbRuns.Step)
    requires Inv(s) && StepAllowed(s, step)
    ensures Inv(s.(db := DbRuns.Apply(s.db, step)))
  {
    forall c | c in s.commits ensures WindowsOf(DbRuns.Apply(s.db, step).rows, c.rid) == c.windows {
      StepKeepsWindows(s.db, step, c.rid);
    }
  }

  lemma StepKeepsWindows(db: DB, step: DbRuns.Step, rid: string)
    requires step.ReserveTx? ==> step.rid != rid
    ensures WindowsOf(DbRuns.Apply(db, step).rows, rid) == WindowsOf(db.rows, rid)
  {
    match step
    case ReserveTx(other, jid, windows, vehicle, priority) =>
      var more := NewRows(other, jid, windows, SlotsNeeded(vehicle), priority);
      WindowsOfConcat(db.rows, more, rid);
      WindowsOfNewRows(other, rid, jid, windows, SlotsNeeded(vehicle), priority);
    case ReleaseWhere(f) => WindowsOfReleased(db.rows, f, rid);
    case _ =>
  }

  lemma IssueKeepsInv(s: State, i: nat, rid: string)
    requires Inv(s) && i < |s.attempts| && Fresh(s, rid)
    ensures Inv(Issue(s, i, rid))
  {
  }

  lemma BookKeepsInv(s: State, k: nat, created: bool)
    requires Inv(s) && k < |s.told|
    ensures Inv(Book(s, k, created))
  {
    assert s.told[k] in s.told;
  }

  lemma CommitAndReplyKeepsInv(s: State, i: nat, rid: string)
    requires Inv(s) && i < |s.attempts| && s.attempts[i].request.key !in s.cache && Fresh(s, rid)
    ensures var r := s.attempts[i].request;
      var t := CommitReservation(s, r, rid);
      Inv(Tell(t, i, Reserved(rid, r.jid))) && Inv(MoveTo(t, i, Done(ServerError)))
  {
    var r := s.attempts[i].request;
    var t := CommitReservation(s, r, rid);
    CommitKeepsInv(s, r, rid);
    TellKeepsInv(t, i, Reserved(rid, r.jid));
    MoveKeepsInv(t, i, Done(ServerError));
  }

  lemma ReplayKeepsInv(s: State, i: nat)
    requires Inv(s) && i < |s.attempts| && ValidEntry(s.cache, s.now, s.attempts[i].request.key).Some?
    ensures Inv(Tell(s, i, s.cache[s.attempts[i].request.key].answer))
  {
    TellKeepsInv(s, i, s.cache[s.attempts[i].request.key].answer);
  }

  lemma OfferAndTellKeepsInv(s: State, i: nat, answer: Answer, written: bool)
    requires Inv(s) && i < |s.attempts| && Owned(s, s.attempts[i].request.key, answer)
    ensures var r := s.attempts[i].request;
      Inv(Tell(if written then Offer(s, r.key, r.jid, answer) else s, i, answer))
  {
    var r := s.attempts[i].request;
    InsertKeepsInv(s, r.key, r.jid, answer);
    TellKeepsInv(if written then Offer(s, r.key, r.jid, answer) else s, i, answer);
  }

  /** The four ways an attempt's transaction can leave the state. */
  lemma TransactionOutcomes(s: State, i: nat, rid: string, end: TxEnd)
    requires i < |s.attempts| && s.attempts[i].at.Transaction?
    ensures var t, r := DoReserveTx(s, i, rid, end), s.attempts[i].request;
      && |t.attempts| == |s.attempts|
      && ((!t.attempts[i].at.InSaga? && t == MoveTo(s, i, t.attempts[i].at))
        || (ValidEntry(s.cache, s.now, r.key).Some? && t == Tell(s, i, s.cache[r.key].answer))
        || (r.key !in s.cache && t == Tell(CommitReservation(s, r, rid), i, Reserved(rid, r.jid)))
        || (r.key !in s.cache && t == MoveTo(CommitReservation(s, r, rid), i, Done(ServerError))))
  {
    var r := s.attempts[i].request;
    if end == Restart || end == SystemError {
    } else if ValidEntry(s.cache, s.now, r.key).Some? {
    } else if FailureOf(s, i).Some? {
    } else if r.key in s.cache {
    }
  }

  /** The attempt that an event is about. */
  function Mover(e: Event): Option<nat> {
    match e
    case LooksUp(i, _) => Some(i)
    case RunsTx(i, _, _) => Some(i)
    case RecordsFailure(i, _) => Some(i)
    case SagaReplays(i, _) => Some(i)
    case SagaStarts(i, _) => Some(i)
    case SagaEnds(i, _, _) => Some(i)
    case _ => None
  }

  /** One attempt that was not done goes on, and at most it is told something. */
  ghost predicate Moves(s: State, t: State, i: nat) {
    && i < |s.attempts| == |t.attempts| && !s.attempts[i].at.Done?
    && t.attempts == s.attempts[i := t.attempts[i]] && t.attempts[i].request == s.attempts[i].request
    && (t.told == s.told
        || exists a :: t.told == s.told + [Told(s.attempts[i].request.key, s.attempts[i].request.jid, a)])
    && t.journeys == s.journeys && t.booked == s.booked
  }

  lemma AttemptMoves(s: State, e: Event)
    requires Mover(e).Some?
    ensures Do(s, e) == s || Moves(s, Do(s, e), Mover(e).value)
  {
    match e
    case LooksUp(i, ok) =>
    case RunsTx(i, rid, end) =>
      if i < |s.attempts| && s.attempts[i].at.Transaction? {
        TransactionOutcomes(s, i, rid, end);
      }
    case RecordsFailure(i, written) =>
    case SagaReplays(i, ok) =>
    case SagaStarts(i, rid) =>
    case SagaEnds(i, reply, written) =>
  }

  lemma DoReserveTxKeepsInv(s: State, i: nat, rid: string, end: TxEnd)
    requires Inv(s) && i < |s.attempts| && s.attempts[i].at.Transaction? && Fresh(s, rid)
    ensures Inv(DoReserveTx(s, i, rid, end))
  {
    TransactionOutcomes(s, i, rid, end);
    var t, key := DoReserveTx(s, i, rid, end), s.attempts[i].request.key;
    if !t.attempts[i].at.InSaga? && t == MoveTo(s, i, t.attempts[i].at) {
      MoveKeepsInv(s, i, t.attempts[i].at);
    } else if ValidEntry(s.cache, s.now, key).Some? {
      ReplayKeepsInv(s, i);
    } else {
      CommitAndReplyKeepsInv(s, i, rid);
    }
  }

  lemma LookUpKeepsInv(s: State, i: nat, ok: bool)
    requires Inv(s) && i < |s.attempts|
    ensures Inv(LookUp(s, i, ok))
  {
    if ValidEntry(s.cache, s.now, s.attempts[i].request.key).Some? {
      ReplayKeepsInv(s, i);
    }
    var t := LookUp(s, i, ok);
    if t.told == s.told && t != s {
      MoveKeepsInv(s, i, t.attempts[i].at);
    }
  }

  lemma SagaEndKeepsInv(s: State, i: nat, reply: Option<Option<FailedSegment>>, written: bool)
    requires Inv(s) && i < |s.attempts| && s.attempts[i].at.InSaga? && s.attempts[i].at.rid.Some?
    ensures Inv(SagaEnd(s, i, reply, written))
  {
    assert s.attempts[i] in s.attempts;
    if reply.None? {
      MoveKeepsInv(s, i, Done(ServerError));
    } else if reply.value.Some? {
      OfferAndTellKeepsInv(s, i, Failed(reply.value.value), written);
    } else {
      OfferAndTellKeepsInv(s, i, Reserved(s.attempts[i].at.rid.value, s.attempts[i].request.jid), written);
    }
  }

  lemma SagaReplayKeepsInv(s: State, i: nat, ok: bool)
    requires Inv(s) && i < |s.attempts|
    ensures Inv(SagaReplay(s, i, ok))
  {
    if ok && ValidEntry(s.cache, s.now, s.attempts[i].request.key).Some? {
      ReplayKeepsInv(s, i);
    } else {
      MoveKeepsInv(s, i, Done(ServerError));
    }
  }

  lemma PurgeKeepsInv(s: State, elapsed: nat)
    requires Inv(s)
    ensures Inv(s.(cache := Unexpired(s.cache, s.now)))
    ensures Inv(s.(now := s.now + elapsed))
  {
  }

  lemma ArriveKeepsInv(s: State, r: Request)
    requires Inv(s)
    ensures Inv(s.(attempts := s.attempts + [Attempt(r, Lookup)]))
  {
  }

  lemma AttemptKeepsInv(s: State, e: Event)
    requires Inv(s) && (e.LooksUp? || e.RunsTx? || e.RecordsFailure?)
    ensures Inv(Do(s, e))
  {
    if Do(s, e) != s {
      match e
      case LooksUp(i, ok) => LookUpKeepsInv(s, i, ok);
      case RunsTx(i, rid, end) => DoReserveTxKeepsInv(s, i, rid, end);
      case RecordsFailure(i, written) => OfferAndTellKeepsInv(s, i, Failed(s.attempts[i].at.segment), written);
    }
  }

  lemma SagaKeepsInv(s: State, e: Event)
    requires Inv(s) && (e.SagaReplays? || e.SagaStarts? || e.SagaEnds?)
    ensures Inv(Do(s, e))
  {
    if Do(s, e) != s {
      match e
      case SagaReplays(i, ok) => SagaReplayKeepsInv(s, i, ok);
      case SagaStarts(i, rid) => IssueKeepsInv(s, i, rid);
      case SagaEnds(i, reply, written) => SagaEndKeepsInv(s, i, reply, written);
    }
  }

  lemma OtherEventKeepsInv(s: State, e: Event)
    requires Inv(s) && (e.Arrive? || e.Table? || e.Books?)
    ensures Inv(Do(s, e))
  {
    if Do(s, e) != s {
      match e
      case Arrive(r) => ArriveKeepsInv(s, r);
      case Table(step) => TableKeepsInv(s, step);
      case Books(k, created) => BookKeepsInv(s, k, created);
    }
  }

  lemma StepKeepsInv(s: State, e: Event)
    requires Inv(s)
    ensures Inv(Do(s, e))
  {
    if e.LooksUp? || e.RunsTx? || e.RecordsFailure? {
      AttemptKeepsInv(s, e);
    } else if e.SagaReplays? || e.SagaStarts? || e.SagaEnds? {
      SagaKeepsInv(s, e);
    } else if e.Purge? || e.Tick? {
      PurgeKeepsInv(s, if e.Tick? then e.elapsed else 0);
    } else {
      OtherEventKeepsInv(s, e);
    }
  }

  lemma {:induction false} RunKeepsInv(s: State, es: seq<Event>)
    requires Inv(s)
    ensures Inv(Run(s, es))
    decreases |es|
  {
    if es != [] {
      StepKeepsInv(s, es[0]);
      RunKeepsInv(Do(s, es[0]), es[1..]);
    }
  }

  // ---------------------------------------------------------------------------
  // At most once
  // ---------------------------------------------------------------------------

  /**
   At most once by key. Whatever interleaving of attempts, restarts, lost commits, failure
   writes, sagas, purges and clock ticks: two reservations that single-region
   transactions committed for one key are more than 24 hours apart, and the rows of each
   are exactly one for every window of its request.
   */
  lemma AtMostOncePerDay(init: State, es: seq<Event>, i: nat, j: nat)
    requires Init(init) && i < j < |Run(init, es).commits|
    ensures var c, d := Run(init, es).commits[i], Run(init, es).commits[j];
      && c.rid != d.rid
      && (c.key == d.key ==> c.time + DAY < d.time)
      && WindowsOf(Run(init, es).db.rows, c.rid) == c.windows
  {
    RunKeepsInv(init, es);
    assert Run(init, es).commits[i] in Run(init, es).commits;
  }

  /** Nothing is reserved but through a commit or a saga. */
  lemma RowsComeFromCommitsOrSagas(init: State, es: seq<Event>, rid: string)
    requires Init(init) && FreshReservation(init.db.rows, rid)
    ensures var s := Run(init, es);
      FreshReservation(s.db.rows, rid) || rid in s.sagas || exists c :: c in s.commits && c.rid == rid
  {
    RunKeepsInv(init, es);
    NoWindowsNoRows(init.db.rows, rid);
    NoWindowsNoRows(Run(init, es).db.rows, rid);
    UnissuedHasNoRows(init, es, rid);
    var s := Run(init, es);
    if rid in s.issued && rid !in s.sagas {
      assert Recorded(s, rid);
    }
  }

  /** What an event can do to the reservation rows. */
  lemma EventTables(s: State, e: Event)
    ensures var t := Do(s, e);
      || (t.db == s.db && forall rid :: rid in s.issued ==> rid in t.issued)
      || (e.Table? && StepAllowed(s, e.step) && t.db == DbRuns.Apply(s.db, e.step) && t.issued == s.issued)
      || (e.RunsTx? && e.i < |s.attempts| && var c := CommitReservation(s, s.attempts[e.i].request, e.rid);
            t.db == c.db && t.issued == c.issued)
  {
    if e.RunsTx? && e.i < |s.attempts| && s.attempts[e.i].at.Transaction? {
      TransactionOutcomes(s, e.i, e.rid, e.end);
    }
  }

  lemma StepIssues(s: State, e: Event, rid: string)
    requires OwnersInv(s)
    ensures rid in s.issued ==> rid in Do(s, e).issued
    ensures rid !in Do(s, e).issued ==> WindowsOf(Do(s, e).db.rows, rid) == WindowsOf(s.db.rows, rid)
  {
    EventTables(s, e);
    if e.Table? && StepAllowed(s, e.step) && rid !in s.issued {
      StepKeepsWindows(s.db, e.step, rid);
    } else if e.RunsTx? && e.i < |s.attempts| && e.rid != rid {
      var r := s.attempts[e.i].request;
      var more := NewRows(e.rid, r.jid, r.windows, SlotsNeeded(r.vehicle), r.priority);
      WindowsOfConcat(s.db.rows, more, rid);
      WindowsOfNewRows(e.rid, rid, r.jid, r.windows, SlotsNeeded(r.vehicle), r.priority);
    }
  }

  lemma {:induction false} UnissuedHasNoRows(s: State, es: seq<Event>, rid: string)
    requires Inv(s)
    ensures rid in s.issued ==> rid in Run(s, es).issued
    ensures rid !in Run(s, es).issued ==> WindowsOf(Run(s, es).db.rows, rid) == WindowsOf(s.db.rows, rid)
    decreases |es|
  {
    if es != [] {
      StepKeepsInv(s, es[0]);
      StepIssues(s, es[0], rid);
      UnissuedHasNoRows(Do(s, es[0]), es[1..], rid);
    }
  }

  /** A cache entry stays as it was written until it has expired. */
  lemma {:induction false} EntryLastsUntilExpiry(s: State, es: seq<Event>, key: string)
    requires key in s.cache && Run(s, es).now <= s.cache[key].expiresAt
    ensures key in Run(s, es).cache && Run(s, es).cache[key] == s.cache[key]
    decreases |es|
  {
    if es != [] {
      TimeAdvances(Do(s, es[0]), es[1..]);
      EntryStep(s, es[0], key);
      EntryLastsUntilExpiry(Do(s, es[0]), es[1..], key);
    }
  }

  lemma EntryStep(s: State, e: Event, key: string)
    requires key in s.cache && s.now <= s.cache[key].expiresAt
    ensures key in Do(s, e).cache && Do(s, e).cache[key] == s.cache[key]
  {
  }

  lemma {:induction false} TimeAdvances(s: State, es: seq<Event>)
    ensures s.now <= Run(s, es).now
    decreases |es|
  {
    if es != [] {
      TimeAdvances(Do(s, es[0]), es[1..]);
    }
  }

  // ---------------------------------------------------------------------------
  // Restarts
  // ---------------------------------------------------------------------------

  /** The database asks n times in a row to restart the transaction. */
  function Restarts(i: nat, rid: string, n: nat): seq<Event> {
    if n == 0 then [] else [RunsTx(i, rid, Restart)] + Restarts(i, rid, n - 1)
  }

  /** A transaction runs six times at most: five restarts go on, the sixth ends the attempt with an error. */
  lemma {:induction false} SixTransactionsAtMost(s: State, i: nat, rid: string, n: nat)
    requires i < |s.attempts| && Fresh(s, rid) && s.attempts[i].at.Transaction? && s.attempts[i].at.restarts <= 5
    ensures var k := s.attempts[i].at.restarts + n;
      Run(s, Restarts(i, rid, n)) == MoveTo(s, i, if k <= 5 then Transaction(k) else Done(ServerError))
    decreases n
  {
    if n == 0 {
      assert s.attempts[i := s.attempts[i]] == s.attempts;
    } else {
      var e, k := RunsTx(i, rid, Restart), s.attempts[i].at.restarts;
      assert Restarts(i, rid, n)[1..] == Restarts(i, rid, n - 1);
      if k < 5 {
        assert Do(s, e) == MoveTo(s, i, Transaction(k + 1));
        SixTransactionsAtMost(MoveTo(s, i, Transaction(k + 1)), i, rid, n - 1);
      } else {
        assert Do(s, e) == MoveTo(s, i, Done(ServerError));
        DoneStaysDone(MoveTo(s, i, Done(ServerError)), i, rid, n - 1);
      }
    }
  }

  lemma {:induction false} DoneStaysDone(s: State, i: nat, rid: string, n: nat)
    requires i < |s.attempts| && s.attempts[i].at.Done?
    ensures Run(s, Restarts(i, rid, n)) == s
    decreases n
  {
    if n > 0 {
      assert Restarts(i, rid, n)[1..] == Restarts(i, rid, n - 1);
      DoneStaysDone(s, i, rid, n - 1);
    }
  }

  // ---------------------------------------------------------------------------
  // One region or several
  // ---------------------------------------------------------------------------

  ghost predicate InOneRegion(ws: seq<Window>) {
    forall v, w :: v in ws && w in ws ==> R.SegmentRegion(v.seg) == R.SegmentRegion(w.seg)
  }

  lemma CrossingMeansTwoRegions(r: Request)
    ensures CrossesRegions(r) <==> !InOneRegion(r.windows)
  {
    var regions := R.RegionsOf(R.SegmentRegion, r.windows);
    if InOneRegion(r.windows) {
      if r.windows != [] {
        assert regions == {R.SegmentRegion(r.windows[0].seg)};
      }
    } else {
      var v, w :| v in r.windows && w in r.windows && R.SegmentRegion(v.seg) != R.SegmentRegion(w.seg);
      var two := {R.SegmentRegion(v.seg), R.SegmentRegion(w.seg)};
      assert two <= regions;
      SubsetIsSmaller(two, regions);
    }
  }

  ghost predicate OnItsPath(a: Attempt) {
    && (a.at.Transaction? ==> InOneRegion(a.request.windows))
    && (a.at.InSaga? ==> !InOneRegion(a.request.windows))
  }

  ghost predicate PathsInv(s: State) {
    && (forall a :: a in s.attempts ==> OnItsPath(a))
    && (forall c :: c in s.commits ==> InOneRegion(c.windows))
  }

  lemma MoveKeepsPaths(s: State, i: nat, at: Label)
    requires PathsInv(s) && i < |s.attempts| && OnItsPath(Attempt(s.attempts[i].request, at))
    ensures PathsInv(MoveTo(s, i, at))
  {
  }

  lemma TransactionKeepsPaths(s: State, i: nat, rid: string, end: TxEnd)
    requires PathsInv(s) && i < |s.attempts| && s.attempts[i].at.Transaction?
    ensures PathsInv(DoReserveTx(s, i, rid, end))
  {
    TransactionOutcomes(s, i, rid, end);
    var t := DoReserveTx(s, i, rid, end);
    assert s.attempts[i] in s.attempts;
    MoveKeepsPaths(s, i, t.attempts[i].at);
    MoveKeepsPaths(CommitReservation(s, s.attempts[i].request, rid), i, t.attempts[i].at);
  }

  lemma StepKeepsPaths(s: State, e: Event)
    requires PathsInv(s)
    ensures PathsInv(Do(s, e))
  {
    match e
    case LooksUp(i, ok) =>
      if i < |s.attempts| {
        LookUpKeepsPaths(s, i, ok);
      }
    case RunsTx(i, rid, end) =>
      if i < |s.attempts| && s.attempts[i].at.Transaction? {
        TransactionKeepsPaths(s, i, rid, end);
      }
    case Arrive(r) =>
    case RecordsFailure(i, written) =>
    case SagaReplays(i, ok) =>
    case SagaStarts(i, rid) =>
      if i < |s.attempts| {
        assert s.attempts[i] in s.attempts;
      }
    case SagaEnds(i, reply, written) =>
    case Books(k, created) =>
    case Table(step) =>
    case Purge =>
    case Tick(elapsed) =>
  }

  lemma LookUpKeepsPaths(s: State, i: nat, ok: bool)
    requires PathsInv(s) && i < |s.attempts|
    ensures PathsInv(LookUp(s, i, ok))
  {
    CrossingMeansTwoRegions(s.attempts[i].request);
  }

  lemma {:induction false} RunKeepsPaths(s: State, es: seq<Event>)
    requires PathsInv(s)
    ensures PathsInv(Run(s, es))
    decreases |es|
  {
    if es != [] {
      StepKeepsPaths(s, es[0]);
      RunKeepsPaths(Do(s, es[0]), es[1..]);
    }
  }

  /**
   Which path a request takes. In every run, whatever a single-region transaction commits lies in
   one region, and an attempt that runs a saga asks for segments of at least two.
   */
  lemma PathsFollowRegions(init: State, es: seq<Event>)
    requires Init(init)
    ensures var s := Run(init, es);
      && (forall c :: c in s.commits ==> InOneRegion(c.windows))
      && (forall a :: a in s.attempts && a.at.InSaga? ==> !InOneRegion(a.request.windows))
  {
    RunKeepsPaths(init, es);
  }

  // ---------------------------------------------------------------------------
  // What callers are told, and what is booked
  // ---------------------------------------------------------------------------

  /**
   A caller that is told a reservation id gets one made for its own key; unless a saga made
   it, it names a committed transaction whose rows all exist.
   */
  lemma ToldReservationsExist(init: State, es: seq<Event>, t: Told)
    requires Init(init) && t in Run(init, es).told && t.answer.Reserved?
    ensures var s := Run(init, es);
      && t.answer.rid in s.issued && s.issued[t.answer.rid] == Owner(t.key, t.answer.jid)
      && (t.answer.rid !in s.sagas ==> exists c :: c in s.commits && c.rid == t.answer.rid && c.key == t.key
                                                    && WindowsOf(s.db.rows, c.rid) == c.windows)
  {
    RunKeepsInv(init, es);
    var s := Run(init, es);
    if t.answer.rid !in s.sagas {
      assert Recorded(s, t.answer.rid);
    }
  }

  /**
   Two overlapping attempts with one key can be told different things: when the first finds
   no room and the second commits before the first has recorded its failure, the first is
   told "failed" although the key holds a reservation, and the cache keeps the latter. The
   requests need to share no more than the key.
   */
  lemma FailureToldDespiteReservation(s: State, i: nat, j: nat, step: DbRuns.Step, rid: string)
    requires i < |s.attempts| && j < |s.attempts| && i != j && s.attempts[i].request.key == s.attempts[j].request.key
    requires s.attempts[i].at.Transaction? && s.attempts[j].at.Transaction? && s.attempts[i].request.key !in s.cache
    requires StepAllowed(s, step) && Fresh(s.(db := DbRuns.Apply(s.db, step)), rid) && FreshReservation(s.db.rows, rid)
    requires FailureOf(s, i).Some? && FailureOf(s.(db := DbRuns.Apply(s.db, step)), j).None?
    ensures var q, r := s.attempts[i].request, s.attempts[j].request;
      var t := Run(s, [RunsTx(i, rid, Committed), Table(step), RunsTx(j, rid, Committed), RecordsFailure(i, true)]);
      && t.told == s.told
           + [Told(r.key, r.jid, Reserved(rid, r.jid)), Told(q.key, q.jid, Failed(FailureOf(s, i).value))]
      && r.key in t.cache && t.cache[r.key].answer == Reserved(rid, r.jid)
  {
    var e1, e2, e3, e4 := RunsTx(i, rid, Committed), Table(step), RunsTx(j, rid, Committed), RecordsFailure(i, true);
    RunOfFour(s, e1, e2, e3, e4);
    FirstHalf(s, i, step, rid);
    SecondHalf(Do(Do(s, e1), e2), i, j, rid);
  }

  lemma FirstHalf(s: State, i: nat, step: DbRuns.Step, rid: string)
    requires i < |s.attempts| && s.attempts[i].at.Transaction? && s.attempts[i].request.key !in s.cache
    requires FailureOf(s, i).Some? && StepAllowed(s, step) && Fresh(s, rid)
    ensures Do(Do(s, RunsTx(i, rid, Committed)), Table(step))
         == MoveTo(s, i, RecordFailure(FailureOf(s, i).value)).(db := DbRuns.Apply(s.db, step))
  {
    AttemptFails(s, i, rid);
  }

  lemma SecondHalf(s: State, i: nat, j: nat, rid: string)
    requires i < |s.attempts| && j < |s.attempts| && i != j && s.attempts[i].request.key == s.attempts[j].request.key
    requires s.attempts[i].at.RecordFailure? && s.attempts[j].at.Transaction? && s.attempts[j].request.key !in s.cache
    requires FailureOf(s, j).None? && Fresh(s, rid)
    ensures var q, r := s.attempts[i].request, s.attempts[j].request;
      var t := Do(Do(s, RunsTx(j, rid, Committed)), RecordsFailure(i, true));
      && t.told == s.told
           + [Told(r.key, r.jid, Reserved(rid, r.jid)), Told(q.key, q.jid, Failed(s.attempts[i].at.segment))]
      && r.key in t.cache && t.cache[r.key].answer == Reserved(rid, r.jid)
  {
    AttemptCommits(s, j, rid);
    LateFailureIsIgnored(Do(s, RunsTx(j, rid, Committed)), i);
  }

  function FailureOf(s: State, i: nat): Option<FailedSegment>
    requires i < |s.attempts|
  {
    var r := s.attempts[i].request;
    FirstFailure(s.db, r.windows, SlotsNeeded(r.vehicle), r.priority)
  }

  lemma AttemptFails(s: State, i: nat, rid: string)
    requires i < |s.attempts| && s.attempts[i].at.Transaction? && s.attempts[i].request.key !in s.cache
    requires FailureOf(s, i).Some? && Fresh(s, rid)
    ensures Do(s, RunsTx(i, rid, Committed)) == MoveTo(s, i, RecordFailure(FailureOf(s, i).value))
  {
  }

  lemma AttemptCommits(s: State, i: nat, rid: string)
    requires i < |s.attempts| && s.attempts[i].at.Transaction? && s.attempts[i].request.key !in s.cache
    requires FailureOf(s, i).None? && Fresh(s, rid)
    ensures Do(s, RunsTx(i, rid, Committed))
         == var r := s.attempts[i].request; Tell(CommitReservation(s, r, rid), i, Reserved(rid, r.jid))
  {
  }

  lemma LateFailureIsIgnored(s: State, i: nat)
    requires i < |s.attempts| && s.attempts[i].at.RecordFailure? && s.attempts[i].request.key in s.cache
    ensures Do(s, RecordsFailure(i, true)) == Tell(s, i, Failed(s.attempts[i].at.segment))
  {
  }

  lemma RunOfFour(s: State, a: Event, b: Event, c: Event, d: Event)
    ensures Run(s, [a, b, c, d]) == Do(Do(Do(Do(s, a), b), c), d)
  {
    assert [a, b, c, d][1..] == [b, c, d] && [b, c, d][1..] == [c, d] && [c, d][1..] == [d] && [d][1..] == [];
    assert Run(Do(s, a), [b, c, d]) == Run(Do(Do(s, a), b), [c, d]);
    assert Run(Do(Do(s, a), b), [c, d]) == Run(Do(Do(Do(s, a), b), c), [d]);
  }

  /** No two approved journeys carry the same reservation, whatever is duplicated or replayed. */
  lemma NoSharedReservation(init: State, es: seq<Event>, i: nat, j: nat)
    requires Init(init) && i < j < |Run(init, es).journeys|
    requires Run(init, es).journeys[i].approved && Run(init, es).journeys[j].approved
    ensures Run(init, es).journeys[i].rid != Run(init, es).journeys[j].rid
  {
    RunKeepsInv(init, es);
    var s := Run(init, es);
    assert s.journeys[i] in s.journeys && s.journeys[j] in s.journeys;
  }
}
