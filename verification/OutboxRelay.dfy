/**
 The relays that copy outbox rows to the event stream, any number at once: each fetches a
 batch of unpublished rows, appends them one by one, stops at the first failure and marks
 the prefix that it saw succeed.
 */
module OutboxRelay {
  /** An outbox row is known by its position; XADD without a reply may have appended all the same. */
  datatype AddReply = Acknowledged | Failed(appended: bool)

  datatype Phase = Idle | Adding | Marking

  datatype Relay = Relay(phase: Phase, batch: seq<nat>, done: nat)

  datatype State = State(size: nat, published: set<nat>, stream: seq<nat>, relays: seq<Relay>)

  datatype Event =
    | Enqueue
    | Fetch(i: nat)
    | Add(i: nat, reply: AddReply)
    | Mark(i: nat, applied: bool)
    | Crash(i: nat)

  const BATCH_LIMIT := 100

  /** WHERE published = FALSE ORDER BY created_at. */
  function Unpublished(size: nat, published: set<nat>): (rows: seq<nat>)
    ensures forall k: nat :: k in rows <==> k < size && k !in published
    ensures forall a, b :: 0 <= a < b < |rows| ==> rows[a] < rows[b]
  {
    if size == 0 then []
    else
      var before := Unpublished(size - 1, published);
      assert forall a :: 0 <= a < |before| ==> before[a] in before;
      if size - 1 in published then before else before + [size - 1]
  }

  function FetchUnpublishedOutbox(size: nat, published: set<nat>, limit: nat): seq<nat> {
    var rows := Unpublished(size, published);
    if |rows| > limit then rows[..limit] else rows
  }

  function SetOf(rows: seq<nat>): set<nat> { set k | k in rows }

  function Append(stream: seq<nat>, row: nat, reply: AddReply): seq<nat> {
    if reply == Failed(false) then stream else stream + [row]
  }

  function NextPhase(done: nat, batch: seq<nat>): Phase {
    if done < |batch| then Adding else Marking
  }

  /** One event; an event that is not enabled changes nothing. */
  function Do(s: State, e: Event): State {
    if e == Enqueue then s.(size := s.size + 1)
    else if e.i >= |s.relays| then s
    else
      var r := s.relays[e.i];
      match e
      case Fetch(i) =>
        if r.phase != Idle then s
        else
          var batch := FetchUnpublishedOutbox(s.size, s.published, BATCH_LIMIT);
          if batch == [] then s else s.(relays := s.relays[i := Relay(Adding, batch, 0)])
      case Add(i, reply) =>
        if r.phase != Adding || r.done >= |r.batch| then s
        else
          var after :=
            if reply == Acknowledged then Relay(NextPhase(r.done + 1, r.batch), r.batch, r.done + 1)
            else r.(phase := Marking);
          s.(stream := Append(s.stream, r.batch[r.done], reply), relays := s.relays[i := after])
      case Mark(i, applied) =>
        if r.phase != Marking || r.done > |r.batch| then s
        else
          s.(published := if applied then s.published + SetOf(r.batch[..r.done]) else s.published,
             relays := s.relays[i := Relay(Idle, [], 0)])
      case Crash(i) => s.(relays := s.relays[i := Relay(Idle, [], 0)])
  }

  function Run(s: State, es: seq<Event>): State
    decreases |es|
  {
    if es == [] then s else Run(Do(s, es[0]), es[1..])
  }

  ghost predicate Init(s: State) {
    && s.published == {} && s.stream == []
    && forall r :: r in s.relays ==> r == Relay(Idle, [], 0)
  }

  // ---------------------------------------------------------------------------
  // Delivery and order
  // ---------------------------------------------------------------------------

  /** The row before this one is already in the stream, if there is one. */
  ghost predicate PredecessorIn(row: nat, stream: seq<nat>) {
    row == 0 || row - 1 in stream
  }

  /** Before any copy of a row stands a copy of the row before it. */
  ghost predicate Ordered(stream: seq<nat>) {
    forall p :: 0 <= p < |stream| ==> PredecessorIn(stream[p], stream[..p])
  }

  /** What a relay still has to add follows its last row, or a row that is in the stream. */
  ghost predicate Ready(batch: seq<nat>, done: nat, size: nat, stream: seq<nat>) {
    && done <= |batch|
    && (forall k :: 0 <= k < |batch| ==> batch[k] < size)
    && (forall k :: 0 <= k < done ==> batch[k] in stream)
    && (forall k :: 0 <= k < |batch| ==> Continues(batch, k, stream))
  }

  ghost predicate Continues(batch: seq<nat>, k: nat, stream: seq<nat>)
    requires k < |batch|
  {
    PredecessorIn(batch[k], stream) || (k > 0 && batch[k - 1] == batch[k] - 1)
  }

  ghost predicate RelayInv(r: Relay, size: nat, stream: seq<nat>) {
    Ready(r.batch, r.done, size, stream)
  }

  ghost predicate Inv(s: State) {
    && (forall k :: k in s.published ==> k in s.stream)
    && (forall k :: k in s.stream ==> k < s.size)
    && Ordered(s.stream)
    && (forall r :: r in s.relays ==> RelayInv(r, s.size, s.stream))
  }

  lemma NeighboursInOrder(rows: seq<nat>, j: nat, k: nat)
    requires forall a, b :: 0 <= a < b < |rows| ==> rows[a] < rows[b]
    requires j < |rows| && k < |rows| && rows[j] + 1 == rows[k]
    ensures j == k - 1
  {
    var next := if j + 1 < |rows| then j + 1 else j;
    var x, y, z := rows[j], rows[next], rows[k];
    assert next < k ==> y < z;
    assert j < next ==> x < y;
  }

  /** Rows that a fetch skips are published, so they are in the stream. */
  lemma FetchedRowFollows(s: State, k: nat)
    requires Inv(s) && k < |Unpublished(s.size, s.published)|
    ensures var rows := Unpublished(s.size, s.published);
      rows[k] < s.size && (PredecessorIn(rows[k], s.stream) || (k > 0 && rows[k - 1] == rows[k] - 1))
  {
    var rows := Unpublished(s.size, s.published);
    assert rows[k] in rows;
    if rows[k] > 0 && rows[k] - 1 !in s.published {
      assert rows[k] - 1 in rows;
      var j :| 0 <= j < |rows| && rows[j] == rows[k] - 1;
      NeighboursInOrder(rows, j, k);
    }
  }

  lemma FetchKeepsInv(s: State)
    requires Inv(s)
    ensures RelayInv(Relay(Adding, FetchUnpublishedOutbox(s.size, s.published, BATCH_LIMIT), 0), s.size, s.stream)
  {
    var batch := FetchUnpublishedOutbox(s.size, s.published, BATCH_LIMIT);
    forall k | 0 <= k < |batch|
      ensures batch[k] < s.size && Continues(batch, k, s.stream)
    {
      FetchedRowFollows(s, k);
    }
  }

  lemma OrderedExtends(stream: seq<nat>, row: nat)
    requires Ordered(stream) && PredecessorIn(row, stream)
    ensures Ordered(stream + [row])
  {
    forall p | 0 <= p < |stream + [row]| ensures PredecessorIn((stream + [row])[p], (stream + [row])[..p]) {
      if p < |stream| {
        assert (stream + [row])[..p] == stream[..p];
      } else {
        assert (stream + [row])[..p] == stream;
      }
    }
  }

  lemma RelaysKeep(r: Relay, size: nat, stream: seq<nat>, more: seq<nat>)
    requires RelayInv(r, size, stream)
    ensures RelayInv(r, size, stream + more) && RelayInv(r, size + 1, stream)
  {
    forall k | 0 <= k < |r.batch| ensures Continues(r.batch, k, stream + more) {
      assert Continues(r.batch, k, stream);
    }
  }

  lemma NextRowFollows(batch: seq<nat>, done: nat, size: nat, stream: seq<nat>)
    requires Ready(batch, done, size, stream) && done < |batch|
    ensures PredecessorIn(batch[done], stream)
  {
    assert Continues(batch, done, stream);
    if done > 0 {
      assert batch[done - 1] in stream;
    }
  }

  /** A relay whose next row has been added may count it. */
  lemma AddedRowIsDone(batch: seq<nat>, done: nat, size: nat, stream: seq<nat>)
    requires Ready(batch, done, size, stream) && done < |batch|
    ensures Ready(batch, done, size, stream + [batch[done]]) && Ready(batch, done + 1, size, stream + [batch[done]])
  {
    var longer := stream + [batch[done]];
    assert longer[|stream|] == batch[done];
    forall k | 0 <= k < |batch| ensures Continues(batch, k, longer) {
      assert Continues(batch, k, stream);
    }
  }

  lemma AddKeepsStream(s: State, row: nat, reply: AddReply)
    requires Inv(s) && row < s.size && PredecessorIn(row, s.stream)
    ensures var stream := Append(s.stream, row, reply);
      && (forall k :: k in s.published ==> k in stream) && (forall k :: k in stream ==> k < s.size) && Ordered(stream)
      && (forall r :: r in s.relays ==> RelayInv(r, s.size, stream))
  {
    OrderedExtends(s.stream, row);
    forall r | r in s.relays ensures RelayInv(r, s.size, Append(s.stream, row, reply)) {
      RelaysKeep(r, s.size, s.stream, [row]);
    }
  }

  lemma AddKeepsInv(s: State, i: nat, reply: AddReply)
    requires Inv(s) && i < |s.relays| && s.relays[i].phase == Adding && s.relays[i].done < |s.relays[i].batch|
    ensures Inv(Do(s, Add(i, reply)))
  {
    var r := s.relays[i];
    assert r in s.relays && RelayInv(r, s.size, s.stream);
    NextRowFollows(r.batch, r.done, s.size, s.stream);
    AddKeepsStream(s, r.batch[r.done], reply);
    AddedRowIsDone(r.batch, r.done, s.size, s.stream);
  }

  lemma EnqueueAndFetchKeepInv(s: State, i: nat)
    requires Inv(s)
    ensures Inv(Do(s, Enqueue)) && Inv(Do(s, Fetch(i)))
  {
    FetchKeepsInv(s);
    forall r | r in s.relays ensures RelayInv(r, s.size + 1, s.stream) {
      RelaysKeep(r, s.size, s.stream, []);
    }
  }

  lemma MarkKeepsInv(s: State, i: nat, applied: bool)
    requires Inv(s) && i < |s.relays|
    ensures Inv(Do(s, Mark(i, applied))) && Inv(Do(s, Crash(i)))
  {
    var r := s.relays[i];
    assert r in s.relays && RelayInv(r, s.size, s.stream);
    forall k | k in SetOf(r.batch[..r.done]) ensures k in s.stream {
      var j :| 0 <= j < r.done && r.batch[j] == k;
    }
  }

  lemma StepKeepsInv(s: State, e: Event)
    requires Inv(s)
    ensures Inv(Do(s, e))
  {
    match e
    case Enqueue => EnqueueAndFetchKeepInv(s, 0);
    case Fetch(i) => EnqueueAndFetchKeepInv(s, i);
    case Add(i, reply) =>
      if i < |s.relays| && s.relays[i].phase == Adding && s.relays[i].done < |s.relays[i].batch| {
        AddKeepsInv(s, i, reply);
      }
    case Mark(i, applied) =>
      if i < |s.relays| {
        MarkKeepsInv(s, i, applied);
      }
    case Crash(i) =>
      if i < |s.relays| {
        MarkKeepsInv(s, i, false);
      }
  }

  lemma {:induction false} RunKeepsInv(s: State, es: seq<Event>)
    requires Inv(s)
    ensures Inv(Run(s, es))
    decreases |es|
  {
    if es != [] {
      StepKeepsInv(s, es[0]);
      RunKeepsInv(Do(s, es[0]), es[1..]);
    }
  }

  lemma InLongerPrefix(stream: seq<nat>, q: nat, p: nat, k: nat)
    requires q <= p <= |stream| && k in stream[..q]
    ensures k in stream[..p]
  {
    var i :| 0 <= i < q && stream[..q][i] == k;
    assert stream[..p][i] == k;
  }

  lemma PreviousCopy(stream: seq<nat>, p: nat) returns (q: nat)
    requires Ordered(stream) && p < |stream| && stream[p] > 0
    ensures q < p && stream[q] == stream[p] - 1
  {
    assert PredecessorIn(stream[p], stream[..p]);
    q :| q < |stream[..p]| && stream[..p][q] == stream[p] - 1;
  }

  lemma {:induction false} OrderedMeansAllBefore(stream: seq<nat>, p: nat, k: nat)
    requires Ordered(stream) && p < |stream| && k < stream[p]
    ensures k in stream[..p]
    decreases stream[p]
  {
    var q := PreviousCopy(stream, p);
    if k < stream[q] {
      OrderedMeansAllBefore(stream, q, k);
      InLongerPrefix(stream, q, p, k);
    } else {
      assert stream[..p][q] == k;
    }
  }

  /**
   For any number of relays, batch cut-offs, failures, lost replies, failed marks and
   crashes: a row marked published is in the stream, and the first copies of the rows
   appear in the stream in outbox order.
   */
  lemma FirstCopiesFollowTheOutbox(init: State, es: seq<Event>, p: nat, k: nat)
    requires Init(init) && p < |Run(init, es).stream|
    ensures var s := Run(init, es);
      && s.stream[p] < s.size
      && (k < s.stream[p] ==> k in s.stream[..p])
      && forall row :: row in s.published ==> row in s.stream
  {
    RunKeepsInv(init, es);
    var s := Run(init, es);
    assert s.stream[p] in s.stream;
    if k < s.stream[p] {
      OrderedMeansAllBefore(s.stream, p, k);
    }
  }

  // ---------------------------------------------------------------------------
  // The batch loop
  // ---------------------------------------------------------------------------

  lemma {:induction false} RunOfAppended(s: State, es: seq<Event>, e: Event)
    ensures Run(s, es + [e]) == Do(Run(s, es), e)
    decreases |es|
  {
    if es == [] {
      assert es + [e] == [e];
    } else {
      assert (es + [e])[1..] == es[1..] + [e];
      RunOfAppended(Do(s, es[0]), es[1..], e);
    }
  }

  /** The events of one call of relayBatch that gets to n replies. */
  function BatchEvents(i: nat, replies: nat -> AddReply, n: nat): (es: seq<Event>)
    ensures |es| == n + 1
  {
    if n == 0 then [Fetch(i)] else BatchEvents(i, replies, n - 1) + [Add(i, replies(n - 1))]
  }

  /** How many of the first n replies were successes, when the n-th is the only one that may not be. */
  function Successes(replies: nat -> AddReply, n: nat): nat {
    if n > 0 && replies(n - 1) != Acknowledged then n - 1 else n
  }

  /** The stream after n calls of XADD of which at most the last failed. */
  function StreamAfter(stream: seq<nat>, batch: seq<nat>, replies: nat -> AddReply, n: nat): seq<nat>
    requires n <= |batch|
  {
    if n > 0 && replies(n - 1) == Failed(false) then stream + batch[..n - 1] else stream + batch[..n]
  }

  ghost predicate StopsAt(batch: seq<nat>, replies: nat -> AddReply, n: nat) {
    && n <= |batch|
    && (forall k :: 0 <= k < n - 1 ==> replies(k) == Acknowledged)
    && (n < |batch| ==> n > 0 && replies(n - 1) != Acknowledged)
  }

  lemma {:induction false} AddsAreRun(s: State, i: nat, replies: nat -> AddReply, n: nat)
    requires i < |s.relays| && s.relays[i].phase == Idle
    requires var batch := FetchUnpublishedOutbox(s.size, s.published, BATCH_LIMIT);
      batch != [] && n <= |batch| && forall k :: 0 <= k < n - 1 ==> replies(k) == Acknowledged
    ensures var batch := FetchUnpublishedOutbox(s.size, s.published, BATCH_LIMIT);
      var ok := Successes(replies, n);
      Run(s, BatchEvents(i, replies, n))
        == s.(stream := StreamAfter(s.stream, batch, replies, n),
              relays := s.relays[i := Relay(if ok < n then Marking else NextPhase(n, batch), batch, ok)])
    decreases n
  {
    var batch := FetchUnpublishedOutbox(s.size, s.published, BATCH_LIMIT);
    if n == 0 {
      RunOfAppended(s, [], Fetch(i));
      assert [] + [Fetch(i)] == [Fetch(i)] && s.stream + batch[..0] == s.stream;
    } else {
      AddsAreRun(s, i, replies, n - 1);
      RunOfAppended(s, BatchEvents(i, replies, n - 1), Add(i, replies(n - 1)));
      assert s.stream + batch[..n - 1] + [batch[n - 1]] == s.stream + batch[..n];
    }
  }

  /** What a whole batch, run event by event without interference, leaves in the tables. */
  lemma BatchIsRun(s: State, i: nat, replies: nat -> AddReply, n: nat, applied: bool)
    requires i < |s.relays| && s.relays[i] == Relay(Idle, [], 0)
    requires StopsAt(FetchUnpublishedOutbox(s.size, s.published, BATCH_LIMIT), replies, n)
    ensures var batch := FetchUnpublishedOutbox(s.size, s.published, BATCH_LIMIT);
      Run(s, BatchEvents(i, replies, n) + [Mark(i, applied)])
        == s.(stream := StreamAfter(s.stream, batch, replies, n),
              published := if applied then s.published + SetOf(batch[..Successes(replies, n)]) else s.published)
  {
    var batch := FetchUnpublishedOutbox(s.size, s.published, BATCH_LIMIT);
    RunOfAppended(s, BatchEvents(i, replies, n), Mark(i, applied));
    if batch == [] {
      RunOfAppended(s, [], Fetch(i));
      assert [] + [Fetch(i)] == [Fetch(i)] && s.stream + batch[..0] == s.stream;
      assert s.published + SetOf(batch[..0]) == s.published;
    } else {
      AddsAreRun(s, i, replies, n);
      assert s.relays[i := s.relays[i]] == s.relays;
    }
  }

  /** A relay that is free fetches the oldest unpublished rows, a hundred at most; a busy one goes on with its batch. */
  lemma FetchExactly(s: State, i: nat)
    requires i < |s.relays|
    ensures var rows, t := Unpublished(s.size, s.published), Do(s, Fetch(i));
      var batch := if |rows| <= 100 then rows else rows[..100];
      && (s.relays[i].phase == Idle && rows != [] ==> t == s.(relays := s.relays[i := Relay(Adding, batch, 0)]))
      && (s.relays[i].phase != Idle || rows == [] ==> t == s)
  {
  }

  /**
   Whatever state a relay was in when it crashed, its next batch, if nothing disturbs it,
   publishes the oldest hundred rows in order; with no more of them, all rows are published.
   */
  lemma RelayCatchesUp(s: State, i: nat)
    requires i < |s.relays|
    ensures var rows := Unpublished(s.size, s.published);
      var batch := if |rows| <= 100 then rows else rows[..100];
      var t := Run(Do(s, Crash(i)), BatchEvents(i, k => Acknowledged, |batch|) + [Mark(i, true)]);
      && t.stream == s.stream + batch && t.published == s.published + SetOf(batch)
      && t.relays == s.relays[i := Relay(Idle, [], 0)]
      && (|rows| <= 100 ==> forall k: nat :: k < s.size ==> k in t.published)
  {
    var crashed := Do(s, Crash(i));
    var rows := Unpublished(s.size, s.published);
    var batch := FetchUnpublishedOutbox(s.size, s.published, BATCH_LIMIT);
    BatchIsRun(crashed, i, k => Acknowledged, |batch|, true);
    assert batch[..|batch|] == batch;
    if |rows| <= 100 {
      forall k: nat | k < s.size ensures k in s.published + SetOf(batch) {
        assert k in s.published || k in rows;
      }
    }
  }

  /** The tables that a relay works on. */
  class Worker {
    const size: nat
    var published: set<nat>
    var stream: seq<nat>

    constructor (s: State)
      ensures size == s.size && published == s.published && stream == s.stream
    {
      size, published, stream := s.size, s.published, s.stream;
    }

    /**
     relayBatch. It calls XADD up to the first failure or the end of the batch, then marks
     the rows that succeeded; BatchIsRun says that this is a run of the events above.
     */
    method RelayBatch(replies: nat -> AddReply, applied: bool) returns (n: nat)
      modifies this
      ensures var batch := FetchUnpublishedOutbox(size, old(published), BATCH_LIMIT);
        && StopsAt(batch, replies, n)
        && stream == StreamAfter(old(stream), batch, replies, n)
        && published == if applied then old(published) + SetOf(batch[..Successes(replies, n)]) else old(published)
    {
      var events := FetchUnpublishedOutbox(size, published, BATCH_LIMIT);
      var done: seq<nat> := [];
      n := 0;
      if |events| == 0 {
        return;
      }
      while n < |events|
        invariant n <= |events| && done == events[..n]
        invariant forall k :: 0 <= k < n ==> replies(k) == Acknowledged
        invariant stream == old(stream) + events[..n] && published == old(published)
      {
        var reply := replies(n);
        stream := Append(stream, events[n], reply);
        n := n + 1;
        if reply != Acknowledged {
          break;
        }
        done := done + [events[n - 1]];
      }
      if |done| > 0 && applied {
        published := published + SetOf(done);
      }
    }
  }
}
