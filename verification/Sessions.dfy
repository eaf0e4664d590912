/**
 Refresh tokens. Each login starts a session; each refresh revokes the token it is given
 and issues the next one of the same session.
 */
module Sessions {
  import opened Wrappers

  /** A row of auth.refresh_tokens, which is keyed by the hash of the token. */
  datatype Token = Token(user: string, expiresAt: int, revokedAt: Option<int>)

  /**
   History: one issued token. The session is named by the position of its first token in
   the log; the parent is the token that was exchanged for this one.
   */
  datatype Issue = Issue(hash: string, user: string, session: nat, parent: Option<string>)

  datatype State = State(
    users: set<string>, tokens: map<string, Token>, log: seq<Issue>, logouts: seq<string>, now: int, ttl: int)

  /** A hash is that of a newly generated opaque token. */
  datatype Event =
    | Register(user: string, hash: string)
    | Login(user: string, hash: string)
    | Refresh(used: string, hash: string)
    | LogoutLooksUp(user: string, hash: string)
    | LogoutRevokes(k: nat)
    | ForceLogout(user: string)
    | Purge(retention: nat)
    | Tick(elapsed: nat)

  /** WHERE revoked_at IS NULL AND expires_at > NOW(). */
  predicate Active(s: State, hash: string) {
    hash in s.tokens && s.tokens[hash].revokedAt.None? && s.tokens[hash].expiresAt > s.now
  }

  predicate Issued(log: seq<Issue>, hash: string) {
    exists i :: 0 <= i < |log| && log[i].hash == hash
  }

  /** Where a hash was issued. */
  function Position(log: seq<Issue>, hash: string): (i: nat)
    requires Issued(log, hash)
    ensures i < |log| && log[i].hash == hash
  {
    if log[0].hash == hash then 0
    else
      assert Issued(log[1..], hash) by {
        var i :| 0 <= i < |log| && log[i].hash == hash;
        assert log[1..][i - 1] == log[i];
      }
      1 + Position(log[1..], hash)
  }

  function RevokeOne(tokens: map<string, Token>, hash: string, now: int): map<string, Token> {
    if hash in tokens && tokens[hash].revokedAt.None? then tokens[hash := tokens[hash].(revokedAt := Some(now))]
    else tokens
  }

  function RevokeAll(tokens: map<string, Token>, user: string, now: int): map<string, Token> {
    map h | h in tokens ::
      if tokens[h].user == user && tokens[h].revokedAt.None? then tokens[h].(revokedAt := Some(now)) else tokens[h]
  }

  predicate Stale(t: Token, limit: int) {
    t.expiresAt < limit || (t.revokedAt.Some? && t.revokedAt.value < limit)
  }

  function Retained(tokens: map<string, Token>, limit: int): map<string, Token> {
    map h | h in tokens && !Stale(tokens[h], limit) :: tokens[h]
  }

  function IssueToken(s: State, user: string, hash: string, session: nat, parent: Option<string>): State {
    s.(tokens := s.tokens[hash := Token(user, s.now + s.ttl, None)],
       log := s.log + [Issue(hash, user, session, parent)])
  }

  function Rotate(s: State, used: string, hash: string): State
    requires Active(s, used) && Issued(s.log, used)
  {
    IssueToken(s.(tokens := RevokeOne(s.tokens, used, s.now)), s.tokens[used].user, hash,
      s.log[Position(s.log, used)].session, Some(used))
  }

  /** One event; an event that is not enabled changes nothing. */
  ghost function Do(s: State, e: Event): State {
    match e
    case Register(user, hash) =>
      if user in s.users || Issued(s.log, hash) then s
      else IssueToken(s.(users := s.users + {user}), user, hash, |s.log|, None)
    case Login(user, hash) =>
      if user !in s.users || Issued(s.log, hash) then s else IssueToken(s, user, hash, |s.log|, None)
    case Refresh(used, hash) =>
      if !Active(s, used) || !Issued(s.log, used) || Issued(s.log, hash) || s.tokens[used].user !in s.users then s
      else Rotate(s, used, hash)
    case LogoutLooksUp(user, hash) =>
      if Active(s, hash) && s.tokens[hash].user == user then s.(logouts := s.logouts + [hash]) else s
    case LogoutRevokes(k) =>
      if k < |s.logouts| then s.(tokens := RevokeOne(s.tokens, s.logouts[k], s.now)) else s
    case ForceLogout(user) => if user in s.users then s.(tokens := RevokeAll(s.tokens, user, s.now)) else s
    case Purge(retention) => s.(tokens := Retained(s.tokens, s.now - retention))
    case Tick(elapsed) => s.(now := s.now + elapsed)
  }

  ghost function Run(s: State, es: seq<Event>): State
    decreases |es|
  {
    if es == [] then s else Run(Do(s, es[0]), es[1..])
  }

  ghost predicate Init(s: State) {
    s.users == {} && s.tokens == map[] && s.log == [] && s.logouts == []
  }

  // ---------------------------------------------------------------------------
  // Chains
  // ---------------------------------------------------------------------------

  /** The token at i is the latest of its session. */
  ghost predicate Latest(log: seq<Issue>, i: nat)
    requires i < |log|
  {
    forall j :: i < j < |log| ==> log[j].session != log[i].session
  }

  /** A run is its events one after another. */
  lemma {:induction false} RunOfOneMore(s: State, es: seq<Event>, e: Event)
    ensures Run(s, []) == s && Run(s, es + [e]) == Do(Run(s, es), e)
    decreases |es|
  {
    if es == [] {
      assert es + [e] == [e];
    } else {
      assert (es + [e])[1..] == es[1..] + [e];
      RunOfOneMore(Do(s, es[0]), es[1..], e);
    }
  }

  /** The token at j continues that at i: same session and user, nothing of the session in between. */
  ghost predicate Follows(log: seq<Issue>, i: nat, j: nat) {
    && i < j < |log|
    && log[j].session == log[i].session && log[j].user == log[i].user
    && log[j].parent == Some(log[i].hash)
    && forall k :: i < k < j ==> log[k].session != log[i].session
  }

  /** A token either starts its session or follows the one before it there. */
  ghost predicate Linked(log: seq<Issue>, j: nat)
    requires j < |log|
  {
    || (log[j].parent.None? && log[j].session == j)
    || (exists i: nat :: Follows(log, i, j))
  }

  ghost predicate Chained(log: seq<Issue>) {
    && (forall i, j :: 0 <= i < j < |log| ==> log[i].hash != log[j].hash)
    && (forall j :: 0 <= j < |log| ==> log[j].session <= j && Linked(log, j))
  }

  ghost predicate Inv(s: State) {
    && Chained(s.log)
    && (forall h :: h in s.tokens ==> Issued(s.log, h))
    && (forall i :: 0 <= i < |s.log| && s.log[i].hash in s.tokens ==>
          && s.tokens[s.log[i].hash].user == s.log[i].user
          && (s.tokens[s.log[i].hash].revokedAt.None? ==> Latest(s.log, i)))
  }

  lemma AppendKeepsChain(log: seq<Issue>, issue: Issue)
    requires Chained(log) && !Issued(log, issue.hash)
    requires var more := log + [issue];
      (issue.parent.None? && issue.session == |log|) || (exists i: nat :: Follows(more, i, |log|))
    ensures Chained(log + [issue])
  {
    var more := log + [issue];
    forall j | 0 <= j < |log| ensures Linked(more, j) {
      LinksStay(log, issue, j);
    }
    if issue.parent.Some? {
      var i: nat :| Follows(more, i, |log|);
      assert Linked(more, |log|);
    }
  }

  lemma LinksStay(log: seq<Issue>, issue: Issue, j: nat)
    requires j < |log| && Linked(log, j)
    ensures Linked(log + [issue], j)
  {
    if i: nat :| Follows(log, i, j) {
      assert Follows(log + [issue], i, j);
    }
  }

  /** No token of the session is usable, now or after any refresh. */
  ghost predicate Dead(s: State, session: nat) {
    forall i :: 0 <= i < |s.log| && s.log[i].session == session && s.log[i].hash in s.tokens
      ==> s.tokens[s.log[i].hash].revokedAt.Some?
  }

  /** A token may be issued in a session that has no usable one. */
  lemma IssueKeepsInv(s: State, user: string, hash: string, session: nat, parent: Option<string>)
    requires Inv(s) && !Issued(s.log, hash) && Dead(s, session)
    requires Chained(s.log + [Issue(hash, user, session, parent)])
    ensures Inv(IssueToken(s, user, hash, session, parent))
  {
    var t := IssueToken(s, user, hash, session, parent);
    assert t.log[|s.log|].hash == hash;
    forall h | h in t.tokens ensures Issued(t.log, h) {
      if h != hash {
        assert Issued(s.log, h);
        assert t.log[Position(s.log, h)].hash == h;
      }
    }
    forall i | 0 <= i < |t.log| && t.log[i].hash in t.tokens
      ensures t.tokens[t.log[i].hash].user == t.log[i].user
      ensures t.tokens[t.log[i].hash].revokedAt.None? ==> Latest(t.log, i)
    {
      if i < |s.log| {
        assert t.log[i] == s.log[i] && s.log[i].hash in s.tokens;
      }
    }
  }

  lemma NewSessionKeepsInv(s: State, user: string, hash: string)
    requires Inv(s) && !Issued(s.log, hash)
    ensures Inv(IssueToken(s, user, hash, |s.log|, None))
  {
    AppendKeepsChain(s.log, Issue(hash, user, |s.log|, None));
    IssueKeepsInv(s, user, hash, |s.log|, None);
  }

  lemma OneLatest(log: seq<Issue>, i: nat, k: nat)
    requires i < |log| && k < |log| && Latest(log, i) && i != k && log[i].session == log[k].session
    ensures !Latest(log, k)
  {
  }

  /** Revoking the one usable token of a session leaves it without. */
  lemma RevokedSessionIsDead(s: State, i: nat)
    requires Inv(s) && i < |s.log| && Active(s, s.log[i].hash)
    ensures Dead(s.(tokens := RevokeOne(s.tokens, s.log[i].hash, s.now)), s.log[i].session)
  {
    var tokens := RevokeOne(s.tokens, s.log[i].hash, s.now);
    forall k | 0 <= k < |s.log| && s.log[k].session == s.log[i].session && s.log[k].hash in tokens
      ensures tokens[s.log[k].hash].revokedAt.Some?
    {
      if k != i {
        OneLatest(s.log, i, k);
      }
    }
  }

  lemma RotateKeepsInv(s: State, used: string, hash: string)
    requires Inv(s) && Active(s, used) && Issued(s.log, used) && !Issued(s.log, hash)
    ensures Inv(Rotate(s, used, hash))
  {
    var i, tokens := Position(s.log, used), RevokeOne(s.tokens, used, s.now);
    var issue := Issue(hash, s.tokens[used].user, s.log[i].session, Some(used));
    assert Latest(s.log, i);
    assert Follows(s.log + [issue], i, |s.log|);
    AppendKeepsChain(s.log, issue);
    RevocationKeepsInv(s, tokens);
    RevokedSessionIsDead(s, i);
    IssueKeepsInv(s.(tokens := tokens), issue.user, hash, issue.session, issue.parent);
  }

  lemma RevocationKeepsInv(s: State, tokens: map<string, Token>)
    requires Inv(s)
    requires forall h :: h in tokens ==> h in s.tokens && tokens[h].user == s.tokens[h].user
    requires forall h :: h in tokens && tokens[h].revokedAt.None? ==> s.tokens[h].revokedAt.None?
    ensures Inv(s.(tokens := tokens))
  {
  }

  lemma StepKeepsInv(s: State, e: Event)
    requires Inv(s)
    ensures Inv(Do(s, e))
  {
    if Do(s, e) != s {
      match e
      case Register(user, hash) => NewSessionKeepsInv(s.(users := s.users + {user}), user, hash);
      case Login(user, hash) => NewSessionKeepsInv(s, user, hash);
      case Refresh(used, hash) => RotateKeepsInv(s, used, hash);
      case LogoutLooksUp(user, hash) =>
      case LogoutRevokes(k) => RevocationKeepsInv(s, RevokeOne(s.tokens, s.logouts[k], s.now));
      case ForceLogout(user) => RevocationKeepsInv(s, RevokeAll(s.tokens, user, s.now));
      case Purge(retention) => RetainedKeepsInv(s, s.now - retention);
      case Tick(elapsed) =>
    }
  }

  lemma {:induction false} RunKeepsInv(s: State, es: seq<Event>)
    requires Inv(s)
    ensures Inv(Run(s, es))
    decreases |es|
  {
    if es != [] {
      StepKeepsInv(s, es[0]);
      RunKeepsInv(Do(s, es[0]), es[1..]);
    }
  }

  /**
   A session is a chain, first part. In every run, of two tokens of a session with none of
   it in between, the later belongs to the same user and was exchanged for the earlier.
   */
  lemma NeighboursAreLinked(init: State, es: seq<Event>, i: nat, j: nat)
    requires Init(init) && i < j < |Run(init, es).log|
    requires var log := Run(init, es).log;
      log[i].session == log[j].session && forall k :: i < k < j ==> log[k].session != log[i].session
    ensures var log := Run(init, es).log; log[j].parent == Some(log[i].hash) && log[j].user == log[i].user
  {
    RunKeepsInv(init, es);
    ChainLinks(Run(init, es).log, i, j);
  }

  lemma ChainLinks(log: seq<Issue>, i: nat, j: nat)
    requires Chained(log) && i < j < |log| && log[i].session == log[j].session
    requires forall k :: i < k < j ==> log[k].session != log[i].session
    ensures log[j].parent == Some(log[i].hash) && log[j].user == log[i].user
  {
    assert Linked(log, j) && log[i].session <= i;
    var a: nat :| Follows(log, a, j);
    assert a == i;
  }

  /** Second part: a token is exchanged at most once, so the chain does not fork. */
  lemma AtMostOneSuccessor(init: State, es: seq<Event>, i: nat, j: nat)
    requires Init(init) && i < j < |Run(init, es).log| && Run(init, es).log[i].parent.Some?
    ensures Run(init, es).log[i].parent != Run(init, es).log[j].parent
  {
    RunKeepsInv(init, es);
    NoFork(Run(init, es).log, i, j);
  }

  lemma FollowersDiffer(log: seq<Issue>, a: nat, i: nat, b: nat, j: nat)
    requires Follows(log, a, i) && Follows(log, b, j) && i < j
    ensures a != b
  {
  }

  lemma NoFork(log: seq<Issue>, i: nat, j: nat)
    requires Chained(log) && i < j < |log| && log[i].parent.Some?
    ensures log[i].parent != log[j].parent
  {
    assert Linked(log, i) && Linked(log, j);
    if log[j].parent.Some? {
      var a: nat :| Follows(log, a, i);
      var b: nat :| Follows(log, b, j);
      FollowersDiffer(log, a, i, b, j);
    }
  }

  /** Third part: at most one token of a session is active, namely its latest. */
  lemma AtMostOneActive(init: State, es: seq<Event>, i: nat, j: nat)
    requires Init(init) && i < j < |Run(init, es).log|
    requires Run(init, es).log[i].session == Run(init, es).log[j].session
    ensures !Active(Run(init, es), Run(init, es).log[i].hash)
  {
    RunKeepsInv(init, es);
  }

  // ---------------------------------------------------------------------------
  // Force-logout
  // ---------------------------------------------------------------------------

  lemma RevocationKeepsDead(s: State, tokens: map<string, Token>, session: nat)
    requires Dead(s, session)
    requires forall h :: h in tokens ==> h in s.tokens && (s.tokens[h].revokedAt.Some? ==> tokens[h].revokedAt.Some?)
    ensures Dead(s.(tokens := tokens), session)
  {
  }

  lemma RotationElsewhere(s: State, used: string, hash: string, session: nat)
    requires Inv(s) && Dead(s, session) && Active(s, used) && Issued(s.log, used) && !Issued(s.log, hash)
    ensures Dead(Rotate(s, used, hash), session)
  {
    var tokens := RevokeOne(s.tokens, used, s.now);
    RevocationKeepsDead(s, tokens, session);
    var own := s.log[Position(s.log, used)].session;
    IssueElsewhere(s.(tokens := tokens), s.tokens[used].user, hash, own, Some(used), session);
  }

  lemma DeadStaysDead(s: State, e: Event, session: nat)
    requires Inv(s) && session < |s.log| && Dead(s, session)
    ensures session < |Do(s, e).log| && Dead(Do(s, e), session)
  {
    if Do(s, e) != s {
      match e
      case Register(user, hash) => IssueElsewhere(s.(users := s.users + {user}), user, hash, |s.log|, None, session);
      case Login(user, hash) => IssueElsewhere(s, user, hash, |s.log|, None, session);
      case Refresh(used, hash) => RotationElsewhere(s, used, hash, session);
      case LogoutLooksUp(user, hash) =>
      case LogoutRevokes(k) => RevocationKeepsDead(s, RevokeOne(s.tokens, s.logouts[k], s.now), session);
      case ForceLogout(user) => RevocationKeepsDead(s, RevokeAll(s.tokens, user, s.now), session);
      case Purge(retention) => RevocationKeepsDead(s, Retained(s.tokens, s.now - retention), session);
      case Tick(elapsed) =>
    }
  }

  lemma IssueElsewhere(s: State, user: string, hash: string, other: nat, parent: Option<string>, session: nat)
    requires Dead(s, session) && other != session && !Issued(s.log, hash)
    ensures Dead(IssueToken(s, user, hash, other, parent), session)
  {
    var t := IssueToken(s, user, hash, other, parent);
    forall i | 0 <= i < |t.log| && t.log[i].session == session && t.log[i].hash in t.tokens
      ensures t.tokens[t.log[i].hash].revokedAt.Some?
    {
      assert t.log[i] == s.log[i] && t.log[i].hash != hash;
    }
  }

  lemma {:induction false} DeadForever(s: State, es: seq<Event>, session: nat)
    requires Inv(s) && session < |s.log| && Dead(s, session)
    ensures Dead(Run(s, es), session)
    decreases |es|
  {
    if es != [] {
      StepKeepsInv(s, es[0]);
      DeadStaysDead(s, es[0], session);
      DeadForever(Do(s, es[0]), es[1..], session);
    }
  }

  /** A session belongs to the user of its first token. */
  lemma {:induction false} SessionHasOneUser(log: seq<Issue>, j: nat)
    requires Chained(log) && j < |log|
    ensures log[j].session <= j && log[j].user == log[log[j].session].user
    decreases j
  {
    assert Linked(log, j);
    if log[j].parent.Some? {
      var a: nat :| Follows(log, a, j);
      SessionHasOneUser(log, a);
    }
  }

  lemma RevokeAllKillsSession(s: State, user: string, i: nat)
    requires Inv(s) && i < |s.log| && s.log[i].user == user
    ensures Dead(s.(tokens := RevokeAll(s.tokens, user, s.now)), s.log[i].session)
  {
    SessionHasOneUser(s.log, i);
    forall k | 0 <= k < |s.log| && s.log[k].session == s.log[i].session ensures s.log[k].user == user {
      SessionHasOneUser(s.log, k);
    }
  }

  lemma ForceLogoutKillsSession(s: State, user: string, i: nat)
    requires Inv(s) && user in s.users && i < |s.log| && s.log[i].user == user
    ensures Dead(Do(s, ForceLogout(user)), s.log[i].session)
  {
    RevokeAllKillsSession(s, user, i);
  }

  lemma DeadMeansRefused(s: State, session: nat, h: string)
    requires Inv(s) && Dead(s, session) && Issued(s.log, h) && s.log[Position(s.log, h)].session == session
    ensures !Active(s, h)
  {
  }

  // ---------------------------------------------------------------------------
  // What revokes a token
  // ---------------------------------------------------------------------------

  /** The events that revoke a token: its exchange, a logout that has looked it up, and a force-logout of its user. */
  ghost predicate Revokes(s: State, e: Event, h: string)
    requires h in s.tokens
  {
    match e
    case Refresh(used, hash) =>
      used == h && s.tokens[h].expiresAt > s.now && !Issued(s.log, hash) && s.tokens[h].user in s.users
    case LogoutRevokes(k) => k < |s.logouts| && s.logouts[k] == h
    case ForceLogout(user) => user == s.tokens[h].user && user in s.users
    case _ => false
  }

  /** Other events leave a token as it is, and one that is revoked keeps its date. */
  lemma RevokedExactly(s: State, e: Event, h: string)
    requires Issued(s.log, h) && h in s.tokens && h in Do(s, e).tokens
    ensures var token := s.tokens[h];
      Do(s, e).tokens[h]
        == if token.revokedAt.None? && Revokes(s, e, h) then token.(revokedAt := Some(s.now)) else token
  {
    match e
    case Register(user, hash) =>
    case Login(user, hash) =>
    case Refresh(used, hash) =>
    case LogoutLooksUp(user, hash) =>
    case LogoutRevokes(k) =>
    case ForceLogout(user) =>
    case Purge(retention) =>
    case Tick(elapsed) =>
  }

  /** A logout looks up an active token of the caller's own. */
  ghost predicate LooksUp(s: State, e: Event, h: string) {
    e.LogoutLooksUp? && e.hash == h && h in s.tokens && s.tokens[h].user == e.user
    && s.tokens[h].revokedAt.None? && s.now < s.tokens[h].expiresAt
  }

  lemma LookupsAreQueued(s: State, e: Event)
    ensures Do(s, e).logouts == if e.LogoutLooksUp? && LooksUp(s, e, e.hash) then s.logouts + [e.hash] else s.logouts
  {
  }

  ghost predicate LookedUpInRun(s: State, es: seq<Event>, h: string)
    decreases |es|
  {
    es != [] && (LooksUp(s, es[0], h) || LookedUpInRun(Do(s, es[0]), es[1..], h))
  }

  /** In every run, a logout revokes only what an active owner has asked for. */
  lemma {:induction false} LogoutsAreOwn(s: State, es: seq<Event>, k: nat)
    requires |s.logouts| <= k < |Run(s, es).logouts|
    ensures LookedUpInRun(s, es, Run(s, es).logouts[k])
    decreases |es|
  {
    var t := Do(s, es[0]);
    LookupsAreQueued(s, es[0]);
    LogoutsGrow(t, es[1..]);
    if k >= |t.logouts| {
      LogoutsAreOwn(t, es[1..], k);
    }
  }

  lemma {:induction false} LogoutsGrow(s: State, es: seq<Event>)
    ensures s.logouts <= Run(s, es).logouts
    decreases |es|
  {
    if es != [] {
      LookupsAreQueued(s, es[0]);
      LogoutsGrow(Do(s, es[0]), es[1..]);
    }
  }

  /** A purge takes what has expired or been revoked before its limit, so nothing that is still active. */
  lemma PurgeSparesExactly(s: State, retention: nat, h: string)
    ensures var t := Do(s, Purge(retention));
      && (h in t.tokens <==>
            && h in s.tokens && s.tokens[h].expiresAt + retention >= s.now
            && (s.tokens[h].revokedAt.None? || s.tokens[h].revokedAt.value + retention >= s.now))
      && (Active(s, h) ==> Active(t, h))
  {
  }

  /** Time passes. */
  lemma ActiveUntilExpiry(s: State, elapsed: nat, h: string)
    requires Active(s, h)
    ensures Active(Do(s, Tick(elapsed)), h) <==> s.now + elapsed < s.tokens[h].expiresAt
  {
  }

  /**
   Force-logout is final: every token descended from a session that the user had then is
   refused in every later state, whatever else happens.
   */
  lemma ForceLogoutIsFinal(init: State, before: seq<Event>, user: string, after: seq<Event>, i: nat, h: string)
    requires Init(init)
    requires var s := Run(init, before); user in s.users && i < |s.log| && s.log[i].user == user
    ensures var s := Run(init, before);
      var t := Run(Do(s, ForceLogout(user)), after);
      Issued(t.log, h) && t.log[Position(t.log, h)].session == s.log[i].session ==> !Active(t, h)
  {
    RunKeepsInv(init, before);
    RefusedAfterLogout(Run(init, before), user, after, i, h);
  }

  lemma RefusedAfterLogout(s: State, user: string, after: seq<Event>, i: nat, h: string)
    requires Inv(s) && user in s.users && i < |s.log| && s.log[i].user == user
    ensures var t := Run(Do(s, ForceLogout(user)), after);
      Issued(t.log, h) && t.log[Position(t.log, h)].session == s.log[i].session ==> !Active(t, h)
  {
    var out := Do(s, ForceLogout(user));
    StepKeepsInv(s, ForceLogout(user));
    ForceLogoutKillsSession(s, user, i);
    SessionHasOneUser(s.log, i);
    DeadForever(out, after, s.log[i].session);
    RunKeepsInv(out, after);
    var t := Run(out, after);
    if Issued(t.log, h) && t.log[Position(t.log, h)].session == s.log[i].session {
      DeadMeansRefused(t, s.log[i].session, h);
    }
  }

  lemma RetainedKeepsInv(s: State, limit: int)
    requires Inv(s)
    ensures Inv(s.(tokens := Retained(s.tokens, limit)))
  {
    RevocationKeepsInv(s, Retained(s.tokens, limit));
  }

  // ---------------------------------------------------------------------------
  // The service
  // ---------------------------------------------------------------------------

  /** The IAM service over its tables; each method is one call while no other runs. */
  class AuthService {
    var users: set<string>
    var tokens: map<string, Token>
    var now: int
    const ttl: int
    ghost var log: seq<Issue>

    ghost function Contents(): State
      reads this
    {
      State(users, tokens, log, [], now, ttl)
    }

    ghost predicate Valid()
      reads this
    {
      Inv(Contents())
    }

    constructor (now: int, ttl: int)
      ensures Init(Contents()) && Valid() && this.now == now && this.ttl == ttl
    {
      users, tokens, log := {}, map[], [];
      this.now, this.ttl := now, ttl;
    }

    /** The SELECT of GetActiveByHash and GetActiveByHashTx. */
    method GetActiveByHash(hash: string) returns (t: Option<Token>)
      ensures t.Some? <==> Active(Contents(), hash)
      ensures t.Some? ==> t.value == tokens[hash]
    {
      t := if hash in tokens && tokens[hash].revokedAt.None? && tokens[hash].expiresAt > now
           then Some(tokens[hash]) else None;
    }

    /** The UPDATE of Revoke and RevokeTx, which tells whether it hit a row. */
    method Revoke(hash: string) returns (revoked: bool)
      modifies this`tokens
      ensures tokens == RevokeOne(old(tokens), hash, now)
      ensures revoked <==> hash in old(tokens) && old(tokens)[hash].revokedAt.None?
    {
      revoked := hash in tokens && tokens[hash].revokedAt.None?;
      if revoked {
        tokens := tokens[hash := tokens[hash].(revokedAt := Some(now))];
      }
    }

    method IssueTokens(user: string, hash: string, ghost session: nat, ghost parent: Option<string>)
      modifies this`tokens, this`log
      ensures Contents() == IssueToken(old(Contents()), user, hash, session, parent)
    {
      tokens := tokens[hash := Token(user, now + ttl, None)];
      log := log + [Issue(hash, user, session, parent)];
    }

    method Register(user: string, hash: string) returns (r: Result<string>)
      requires Valid() && !Issued(log, hash)
      modifies this
      ensures Valid() && Contents() == Do(old(Contents()), Event.Register(user, hash))
      ensures r == if user in old(users) then Err("EMAIL_ALREADY_EXISTS") else Ok(hash)
    {
      StepKeepsInv(Contents(), Event.Register(user, hash));
      if user in users {
        return Err("EMAIL_ALREADY_EXISTS");
      }
      users := users + {user};
      IssueTokens(user, hash, |log|, None);
      r := Ok(hash);
    }

    method Login(user: string, hash: string) returns (r: Result<string>)
      requires Valid() && !Issued(log, hash)
      modifies this
      ensures Valid() && Contents() == Do(old(Contents()), Event.Login(user, hash))
      ensures r == if user in users then Ok(hash) else Err("INVALID_CREDENTIALS")
    {
      StepKeepsInv(Contents(), Event.Login(user, hash));
      if user !in users {
        return Err("INVALID_CREDENTIALS");
      }
      IssueTokens(user, hash, |log|, None);
      r := Ok(hash);
    }

    /** The transaction of Refresh; a missing user rolls the revocation back. */
    method Refresh(used: string, hash: string) returns (r: Result<string>)
      requires Valid() && !Issued(log, hash)
      modifies this
      ensures Valid() && Contents() == Do(old(Contents()), Event.Refresh(used, hash))
      ensures r.Ok? <==> old(Active(Contents(), used)) && old(tokens)[used].user in users
      ensures r == Err("INVALID_REFRESH_TOKEN") <==> !old(Active(Contents(), used))
      ensures r.Ok? ==> r.value == hash && !Active(Contents(), used) && (ttl > 0 ==> Active(Contents(), hash))
    {
      StepKeepsInv(Contents(), Event.Refresh(used, hash));
      var before := tokens;
      var stored := GetActiveByHash(used);
      if stored.None? {
        return Err("INVALID_REFRESH_TOKEN");
      }
      assert Issued(log, used);
      var revoked := Revoke(used);
      if !revoked || stored.value.user !in users {
        tokens := before;
        return Err("user not found");
      }
      IssueTokens(stored.value.user, hash, log[Position(log, used)].session, Some(used));
      r := Ok(hash);
    }

    /** Only the owner's active token is revoked; otherwise nothing changes. */
    method Logout(user: string, hash: string) returns (r: Result<bool>)
      requires Valid()
      modifies this`tokens
      ensures Valid()
      ensures r.Ok? <==> old(Active(Contents(), hash)) && old(tokens)[hash].user == user
      ensures tokens == if r.Ok? then RevokeOne(old(tokens), hash, now) else old(tokens)
    {
      var stored := GetActiveByHash(hash);
      if stored.None? || stored.value.user != user {
        return Err("TOKEN_NOT_FOUND");
      }
      RevocationKeepsInv(Contents(), RevokeOne(tokens, hash, now));
      var revoked := Revoke(hash);
      r := Ok(revoked);
    }

    method ForceLogout(user: string) returns (r: Result<bool>)
      requires Valid()
      modifies this`tokens
      ensures Valid() && Contents() == Do(old(Contents()), Event.ForceLogout(user))
      ensures r.Ok? <==> user in users
      ensures tokens.Keys == old(tokens).Keys
      ensures forall h :: h in tokens ==>
        if r.Ok? && old(tokens)[h].user == user && old(tokens)[h].revokedAt.None?
        then tokens[h] == old(tokens)[h].(revokedAt := Some(now)) else tokens[h] == old(tokens)[h]
    {
      StepKeepsInv(Contents(), Event.ForceLogout(user));
      if user !in users {
        return Err("User not found.");
      }
      tokens := RevokeAll(tokens, user, now);
      r := Ok(true);
    }

    method DeleteExpired(retention: nat)
      requires Valid()
      modifies this`tokens
      ensures Valid()
      ensures forall h :: h in tokens <==>
        && h in old(tokens)
        && old(tokens)[h].expiresAt >= now - retention
        && (old(tokens)[h].revokedAt.Some? ==> old(tokens)[h].revokedAt.value >= now - retention)
      ensures forall h :: h in tokens ==> tokens[h] == old(tokens)[h]
    {
      var limit := now - retention;
      var kept := Retained(tokens, limit);
      RetainedKeepsInv(Contents(), limit);
      tokens := kept;
      assert Contents() == old(Contents()).(tokens := kept);
    }
  }
}
