/**
 * The lock: every acquisition attempt enqueues a request `{instanceId,
 * lockId}` on a FIFO queue with a single message group, then keeps
 * receiving the head of that group until it is its own request. The queue
 * is an in-memory stand-in with the broker's receive, change-visibility
 * and delete calls; only the head of the group can be received, and not
 * while it is in flight (received and neither deleted nor made visible).
 */
module Lock {
  import opened Common

  /** A queued lock request together with the handle that deletes or re-shows it. */
  datatype Message = Message(instanceId: string, lockId: int, handle: nat)

  /** The queue's contents in FIFO order, whether the head is in flight, and the next fresh handle. */
  datatype QueueState = QueueState(messages: seq<Message>, inFlight: bool, nextHandle: nat)

  /** How one pass of `waitForMessage` ends. */
  datatype StepOutcome = NoMessage | Foreign | Orphan | Acquired(message: Message)

  /** Handles are issued in increasing order and only the head can be in flight. */
  ghost predicate WellFormed(s: QueueState) {
    && (s.inFlight ==> s.messages != [])
    && (forall i, j :: 0 <= i < j < |s.messages| ==> s.messages[i].handle < s.messages[j].handle)
    && (forall i :: 0 <= i < |s.messages| ==> s.messages[i].handle < s.nextHandle)
  }

  /** A request of instance `me` left over from an attempt other than `lockId`. */
  predicate IsOrphan(m: Message, me: string, lockId: int) {
    m.instanceId == me && m.lockId != lockId
  }

  /** `sendMessage`: the request joins the tail of the queue under a fresh handle. */
  function Sent(s: QueueState, instanceId: string, lockId: int): (r: QueueState)
    ensures r.messages == s.messages + [Message(instanceId, lockId, s.nextHandle)]
    ensures r.inFlight == s.inFlight && r.nextHandle > s.nextHandle
    ensures WellFormed(s) ==> WellFormed(r)
  {
    QueueState(s.messages + [Message(instanceId, lockId, s.nextHandle)], s.inFlight, s.nextHandle + 1)
  }

  /**
   * `receiveMessage`: the head, when the queue is non-empty and the head is
   * not already in flight; receiving puts it in flight.
   */
  function Received(s: QueueState): (r: (QueueState, Option<Message>))
    ensures r.1.Some? <==> s.messages != [] && !s.inFlight
    ensures r.1.Some? ==> r.1.value == s.messages[0] && r.0 == s.(inFlight := true)
    ensures r.1.None? ==> r.0 == s
    ensures WellFormed(s) ==> WellFormed(r.0)
  {
    if s.messages == [] || s.inFlight then (s, None)
    else (s.(inFlight := true), Some(s.messages[0]))
  }

  /** `changeMessageVisibility` with a zero timeout: the in-flight head named by `handle` is visible again. */
  function MadeVisible(s: QueueState, handle: nat): (r: QueueState)
    ensures r.messages == s.messages && r.nextHandle == s.nextHandle
    ensures !r.inFlight <==> !s.inFlight || (s.messages != [] && s.messages[0].handle == handle)
    ensures WellFormed(s) ==> WellFormed(r)
  {
    if s.inFlight && s.messages != [] && s.messages[0].handle == handle then s.(inFlight := false) else s
  }

  /** The position of the first message carrying `handle`. */
  function HandleIndex(ms: seq<Message>, handle: nat): (r: Option<nat>)
    ensures r.Some? ==> r.value < |ms| && ms[r.value].handle == handle
    ensures r.Some? ==> forall j :: 0 <= j < r.value ==> ms[j].handle != handle
    ensures r.None? ==> forall j :: 0 <= j < |ms| ==> ms[j].handle != handle
    decreases |ms|
  {
    if |ms| == 0 then None
    else if ms[0].handle == handle then Some(0)
    else
      var r := HandleIndex(ms[1..], handle);
      if r.Some? then Some(r.value + 1) else None
  }

  /** `ms` without its element at `i`, the others keeping their order. */
  function RemoveAt(ms: seq<Message>, i: nat): (r: seq<Message>)
    requires i < |ms|
    ensures |r| == |ms| - 1
    ensures forall j :: 0 <= j < |r| ==> r[j] == if j < i then ms[j] else ms[j + 1]
  {
    ms[..i] + ms[i + 1..]
  }

  /**
   * `deleteMessage`: the message carrying `handle` leaves the queue, every
   * other message keeps its place, and the result says whether one was found.
   */
  function Deleted(s: QueueState, handle: nat): (r: (QueueState, bool))
    ensures r.1 <==> exists i :: 0 <= i < |s.messages| && s.messages[i].handle == handle
    ensures !r.1 ==> r.0 == s
    ensures r.1 ==> |r.0.messages| == |s.messages| - 1 && r.0.nextHandle == s.nextHandle
    ensures r.1 && s.messages[0].handle == handle ==> r.0 == s.(messages := s.messages[1..], inFlight := false)
  {
    match HandleIndex(s.messages, handle)
    case None => (s, false)
    case Some(i) => (QueueState(RemoveAt(s.messages, i), s.inFlight && i != 0, s.nextHandle), true)
  }

  /** Removing one element from increasing handles keeps them increasing, below the same bound. */
  lemma RemoveAtKeepsOrder(ms: seq<Message>, i: nat, bound: nat)
    requires i < |ms|
    requires forall a, b :: 0 <= a < b < |ms| ==> ms[a].handle < ms[b].handle
    requires forall a :: 0 <= a < |ms| ==> ms[a].handle < bound
    ensures forall a, b :: 0 <= a < b < |RemoveAt(ms, i)| ==> RemoveAt(ms, i)[a].handle < RemoveAt(ms, i)[b].handle
    ensures forall a :: 0 <= a < |RemoveAt(ms, i)| ==> RemoveAt(ms, i)[a].handle < bound && RemoveAt(ms, i)[a].handle != ms[i].handle
  {
    var rest := RemoveAt(ms, i);
    forall a, b | 0 <= a < b < |rest| ensures rest[a].handle < rest[b].handle {
      var a', b' := if a < i then a else a + 1, if b < i then b else b + 1;
      assert rest[a] == ms[a'] && rest[b] == ms[b'] && a' < b';
    }
    forall a | 0 <= a < |rest| ensures rest[a].handle < bound && rest[a].handle != ms[i].handle {
      var a' := if a < i then a else a + 1;
      assert rest[a] == ms[a'];
      if a' < i { assert ms[a'].handle < ms[i].handle; } else { assert ms[i].handle < ms[a'].handle; }
    }
  }

  /**
   * On a well-formed queue, deleting keeps it well formed and leaves no
   * message carrying the handle.
   */
  lemma DeletedWellFormed(s: QueueState, handle: nat)
    requires WellFormed(s)
    ensures WellFormed(Deleted(s, handle).0)
    ensures forall m :: m in Deleted(s, handle).0.messages ==> m.handle != handle
  {
    match HandleIndex(s.messages, handle)
    case None =>
    case Some(i) =>
      RemoveAtKeepsOrder(s.messages, i, s.nextHandle);
      var rest := RemoveAt(s.messages, i);
      assert Deleted(s, handle).0 == QueueState(rest, s.inFlight && i != 0, s.nextHandle);
      forall m | m in rest ensures m.handle != handle {
        var a :| 0 <= a < |rest| && rest[a] == m;
      }
  }

  /** Deleting keeps every message that does not carry the handle. */
  lemma DeletedKeepsOthers(s: QueueState, handle: nat)
    ensures forall k :: 0 <= k < |s.messages| && s.messages[k].handle != handle ==> s.messages[k] in Deleted(s, handle).0.messages
  {
    match HandleIndex(s.messages, handle)
    case None =>
    case Some(i) =>
      var ms := s.messages;
      var rest := RemoveAt(ms, i);
      assert Deleted(s, handle).0.messages == rest;
      forall k | 0 <= k < |ms| && k != i ensures ms[k] in rest {
        var j := if k < i then k else k - 1;
        assert rest[j] == ms[k];
      }
  }

  /**
   * One pass of `waitForMessage` for instance `me` waiting on attempt
   * `lockId`: nothing to receive, a foreign head (made visible again at
   * once), an orphan of this instance (deleted: the received message is the
   * head, and `Deleted` by its handle removes exactly the head), or its own
   * request (kept in flight and returned).
   */
  function Step(s: QueueState, me: string, lockId: int): (r: (QueueState, StepOutcome))
    ensures s.messages == [] || s.inFlight ==> r == (s, NoMessage)
    ensures s.messages != [] && !s.inFlight && s.messages[0].instanceId != me ==> r == (s, Foreign)
    ensures s.messages != [] && !s.inFlight && IsOrphan(s.messages[0], me, lockId) ==>
              r == (s.(messages := s.messages[1..]), Orphan)
    ensures s.messages != [] && !s.inFlight && s.messages[0].instanceId == me && s.messages[0].lockId == lockId ==>
              r == (s.(inFlight := true), Acquired(s.messages[0]))
    ensures WellFormed(s) ==> WellFormed(r.0)
  {
    var (s1, received) := Received(s);
    match received
    case None => (s1, NoMessage)
    case Some(m) =>
      if m.instanceId != me then (MadeVisible(s1, m.handle), Foreign)
      else if m.lockId != lockId then (s1.(messages := s1.messages[1..], inFlight := false), Orphan)
      else (s1, Acquired(m))
  }

  /** `waitForMessage` cut off after `fuel` passes: the final queue and the request acquired, if any. */
  function Run(s: QueueState, me: string, lockId: int, fuel: nat): (QueueState, Option<Message>)
    decreases fuel
  {
    if fuel == 0 then (s, None)
    else
      var (s1, outcome) := Step(s, me, lockId);
      if outcome.Acquired? then (s1, Some(outcome.message)) else Run(s1, me, lockId, fuel - 1)
  }

  /** `lock`: enqueue this attempt's request, then wait for it. */
  function Acquire(s: QueueState, me: string, lockId: int, fuel: nat): (QueueState, Option<Message>) {
    Run(Sent(s, me, lockId), me, lockId, fuel)
  }

  /** The wait keeps the queue well formed and never issues handles. */
  lemma {:induction false} RunWellFormed(s: QueueState, me: string, lockId: int, fuel: nat)
    requires WellFormed(s)
    ensures WellFormed(Run(s, me, lockId, fuel).0) && Run(s, me, lockId, fuel).0.nextHandle == s.nextHandle
    decreases fuel
  {
    if fuel > 0 {
      var (s1, outcome) := Step(s, me, lockId);
      if !outcome.Acquired? {
        RunWellFormed(s1, me, lockId, fuel - 1);
      }
    }
  }

  /**
   * The wait only ever returns this instance's request for this attempt,
   * and returns it as the in-flight head of the queue.
   */
  lemma {:induction false} RunReturnsOwnRequest(s: QueueState, me: string, lockId: int, fuel: nat)
    ensures var (s', got) := Run(s, me, lockId, fuel);
            got.Some? ==> got.value.instanceId == me && got.value.lockId == lockId &&
                          s'.inFlight && s'.messages != [] && s'.messages[0] == got.value
    decreases fuel
  {
    if fuel > 0 {
      var (s1, outcome) := Step(s, me, lockId);
      if !outcome.Acquired? {
        RunReturnsOwnRequest(s1, me, lockId, fuel - 1);
      }
    }
  }

  /** `after` is what is left of `before` once a front run of orphans of `me` is removed. */
  ghost predicate OrphansDropped(before: seq<Message>, after: seq<Message>, me: string, lockId: int) {
    && |after| <= |before|
    && after == before[|before| - |after|..]
    && forall m :: m in before[..|before| - |after|] ==> IsOrphan(m, me, lockId)
  }

  /** One pass drops at most the head, and only when it is an orphan. */
  lemma StepDropsOnlyOrphans(s: QueueState, me: string, lockId: int)
    ensures OrphansDropped(s.messages, Step(s, me, lockId).0.messages, me, lockId)
  {
    if s.messages != [] && !s.inFlight && IsOrphan(s.messages[0], me, lockId) {
      assert Step(s, me, lockId).0.messages == s.messages[1..];
    } else {
      assert Step(s, me, lockId).0.messages == s.messages;
      assert s.messages[0..] == s.messages;
    }
  }

  lemma OrphansDroppedTrans(a: seq<Message>, b: seq<Message>, c: seq<Message>, me: string, lockId: int)
    requires OrphansDropped(a, b, me, lockId) && OrphansDropped(b, c, me, lockId)
    ensures OrphansDropped(a, c, me, lockId)
  {
    var d := |a| - |b|;
    assert a[..|a| - |c|] == a[..d] + b[..|b| - |c|];
    assert a[|a| - |c|..] == b[|b| - |c|..];
  }

  /**
   * The wait removes only a front run of this instance's orphans: what is
   * left is a suffix of the queue, so other instances' requests and the
   * current one are never deleted and keep their order.
   */
  lemma {:induction false} RunDropsOnlyOrphans(s: QueueState, me: string, lockId: int, fuel: nat)
    ensures OrphansDropped(s.messages, Run(s, me, lockId, fuel).0.messages, me, lockId)
    decreases fuel
  {
    if fuel == 0 {
      assert s.messages[0..] == s.messages;
    } else {
      var s1 := Step(s, me, lockId).0;
      StepDropsOnlyOrphans(s, me, lockId);
      if !Step(s, me, lockId).1.Acquired? {
        var s2 := Run(s1, me, lockId, fuel - 1).0;
        assert Run(s, me, lockId, fuel).0 == s2;
        RunDropsOnlyOrphans(s1, me, lockId, fuel - 1);
        OrphansDroppedTrans(s.messages, s1.messages, s2.messages, me, lockId);
      }
    }
  }

  /**
   * A request preceded only by orphans of its own instance is acquired
   * after those orphans are deleted, one pass each.
   */
  lemma {:induction false} RunAcquiresBehindOrphans(s: QueueState, me: string, lockId: int, fuel: nat, i: nat)
    requires !s.inFlight && i < |s.messages|
    requires s.messages[i].instanceId == me && s.messages[i].lockId == lockId
    requires forall j :: 0 <= j < i ==> IsOrphan(s.messages[j], me, lockId)
    requires i < fuel
    ensures Run(s, me, lockId, fuel) == (s.(messages := s.messages[i..], inFlight := true), Some(s.messages[i]))
    decreases i
  {
    if i == 0 {
      assert s.messages[0..] == s.messages;
    } else {
      var s1 := s.(messages := s.messages[1..]);
      assert IsOrphan(s.messages[0], me, lockId);
      assert Step(s, me, lockId) == (s1, Orphan);
      assert Run(s, me, lockId, fuel) == Run(s1, me, lockId, fuel - 1);
      forall j | 0 <= j < i - 1 ensures IsOrphan(s1.messages[j], me, lockId) {
        assert s1.messages[j] == s.messages[j + 1];
      }
      assert s1.messages[i - 1] == s.messages[i];
      assert !s1.inFlight && i - 1 < |s1.messages| && i - 1 < fuel - 1;
      RunAcquiresBehindOrphans(s1, me, lockId, fuel - 1, i - 1);
      assert s1.messages[i - 1..] == s.messages[i..];
    }
  }

  /** While the head belongs to another instance and is visible, waiting changes nothing and acquires nothing. */
  lemma {:induction false} ForeignHeadSpins(s: QueueState, me: string, lockId: int, fuel: nat)
    requires s.messages != [] && !s.inFlight && s.messages[0].instanceId != me
    ensures Run(s, me, lockId, fuel) == (s, None)
    decreases fuel
  {
    if fuel > 0 {
      ForeignHeadSpins(s, me, lockId, fuel - 1);
    }
  }

  /** While the head is in flight (the lock is held), nobody's wait changes anything or acquires anything. */
  lemma {:induction false} HeldLockExcludes(s: QueueState, me: string, lockId: int, fuel: nat)
    requires s.inFlight
    ensures Run(s, me, lockId, fuel) == (s, None)
    decreases fuel
  {
    if fuel > 0 {
      HeldLockExcludes(s, me, lockId, fuel - 1);
    }
  }

  /**
   * Mutual exclusion in the sequential model: once an attempt holds the
   * lock, every other wait, by any instance, leaves the queue as it is and
   * acquires nothing until the holder releases.
   */
  lemma HolderExcludesEveryone(s: QueueState, me: string, lockId: int, fuel: nat, other: string, otherLock: int, n: nat)
    requires Run(s, me, lockId, fuel).1.Some?
    ensures Run(Run(s, me, lockId, fuel).0, other, otherLock, n) == (Run(s, me, lockId, fuel).0, None)
  {
    RunReturnsOwnRequest(s, me, lockId, fuel);
    HeldLockExcludes(Run(s, me, lockId, fuel).0, other, otherLock, n);
  }

  /**
   * An instance whose earlier attempts left only orphans behind acquires
   * its new request once it has deleted them, and the queue then holds
   * just that request, in flight.
   */
  lemma AcquireAfterOrphans(s: QueueState, me: string, lockId: int, fuel: nat)
    requires !s.inFlight
    requires forall j :: 0 <= j < |s.messages| ==> IsOrphan(s.messages[j], me, lockId)
    requires |s.messages| < fuel
    ensures Acquire(s, me, lockId, fuel) ==
              (QueueState([Message(me, lockId, s.nextHandle)], true, s.nextHandle + 1), Some(Message(me, lockId, s.nextHandle)))
  {
    var s0 := Sent(s, me, lockId);
    RunAcquiresBehindOrphans(s0, me, lockId, fuel, |s.messages|);
    assert s0.messages[|s.messages|..] == [Message(me, lockId, s.nextHandle)];
  }

  /**
   * `releaseLock` on the request the wait returned deletes exactly that
   * message: the queue loses its head, which no longer appears anywhere,
   * and the next request becomes visible.
   */
  lemma ReleaseDeletesHeldRequest(s: QueueState, me: string, lockId: int, fuel: nat)
    requires WellFormed(s)
    requires Run(s, me, lockId, fuel).1.Some?
    ensures var (held, got) := Run(s, me, lockId, fuel);
            held.messages != [] &&
            Deleted(held, got.value.handle) == (held.(messages := held.messages[1..], inFlight := false), true)
    ensures var (held, got) := Run(s, me, lockId, fuel);
            forall m :: m in Deleted(held, got.value.handle).0.messages ==> m.handle != got.value.handle
  {
    RunReturnsOwnRequest(s, me, lockId, fuel);
    RunWellFormed(s, me, lockId, fuel);
    var (held, got) := Run(s, me, lockId, fuel);
    assert held.messages[0].handle == got.value.handle;
    DeletedWellFormed(held, got.value.handle);
  }

  /**
   * Arrival order decides: with the head visible, only the instance that
   * queued it can make progress, and that instance's attempt acquires it in
   * one pass; the waits of every other instance change nothing.
   */
  lemma NextRequestIsServedFirst(s: QueueState, other: string, otherLock: int, n: nat)
    requires s.messages != [] && !s.inFlight
    requires other != s.messages[0].instanceId
    ensures Run(s, s.messages[0].instanceId, s.messages[0].lockId, 1) == (s.(inFlight := true), Some(s.messages[0]))
    ensures Run(s, other, otherLock, n) == (s, None)
  {
    ForeignHeadSpins(s, other, otherLock, n);
  }

  /**
   * Two overlapping attempts of the same instance, when the later one polls
   * first: it deletes the earlier request as an orphan and acquires, and
   * after its release the earlier attempt finds nothing to acquire.
   */
  lemma OverlappingAttemptsLoseRequest(me: string, first: int, second: int, fuel: nat, n: nat)
    requires first != second && fuel >= 2
    ensures var s := Sent(Sent(QueueState([], false, 0), me, first), me, second);
            var (held, got) := Run(s, me, second, fuel);
            got == Some(Message(me, second, 1)) && held.messages == [Message(me, second, 1)] &&
            Run(Deleted(held, 1).0, me, first, n).1.None?
  {
    var s := Sent(Sent(QueueState([], false, 0), me, first), me, second);
    assert s.messages == [Message(me, first, 0), Message(me, second, 1)];
    RunAcquiresBehindOrphans(s, me, second, fuel, 1);
    var held := Run(s, me, second, fuel).0;
    assert held.messages == [Message(me, second, 1)];
    EmptyQueueNeverAcquires(Deleted(held, 1).0, me, first, n);
  }

  /**
   * The same two overlapping attempts when the earlier one polls first: it
   * acquires its own request, and after its release the later attempt
   * acquires too, so both succeed one after the other.
   */
  lemma OverlappingAttemptsInArrivalOrder(me: string, first: int, second: int, fuel: nat, n: nat)
    requires first != second && fuel >= 1 && n >= 1
    ensures var s := Sent(Sent(QueueState([], false, 0), me, first), me, second);
            var (held, got) := Run(s, me, first, fuel);
            got == Some(Message(me, first, 0)) && held == s.(inFlight := true) &&
            Run(Deleted(held, 0).0, me, second, n).1 == Some(Message(me, second, 1))
  {
    var s := Sent(Sent(QueueState([], false, 0), me, first), me, second);
    assert s.messages == [Message(me, first, 0), Message(me, second, 1)];
    RunAcquiresBehindOrphans(s, me, first, fuel, 0);
    var held := s.(inFlight := true);
    assert held.messages[0].handle == 0;
    var rest := Deleted(held, 0).0;
    assert rest == QueueState([Message(me, second, 1)], false, 2);
    RunAcquiresBehindOrphans(rest, me, second, n, 0);
  }

  /**
   * An attempt still waiting keeps deleting its instance's requests: a later
   * request of the same instance that reaches the head before its own
   * attempt polls is taken for an orphan and deleted, and the waiting
   * attempt acquires nothing.
   */
  lemma WaitingAttemptDropsLaterRequest(me: string, first: int, third: int, h: nat, fuel: nat)
    requires first != third && fuel >= 1
    ensures Run(QueueState([Message(me, third, h)], false, h + 1), me, first, fuel) == (QueueState([], false, h + 1), None)
  {
    var s := QueueState([Message(me, third, h)], false, h + 1);
    assert Step(s, me, first) == (QueueState([], false, h + 1), Orphan);
    EmptyQueueNeverAcquires(QueueState([], false, h + 1), me, first, fuel - 1);
  }

  /** With nothing queued there is nothing to acquire. */
  lemma {:induction false} EmptyQueueNeverAcquires(s: QueueState, me: string, lockId: int, fuel: nat)
    requires s.messages == []
    ensures Run(s, me, lockId, fuel) == (s, None)
    decreases fuel
  {
    if fuel > 0 {
      EmptyQueueNeverAcquires(s, me, lockId, fuel - 1);
    }
  }

  /** The FIFO queue of the broker, changed in place by its calls. */
  class FifoQueue {
    var messages: seq<Message>
    var inFlight: bool
    var nextHandle: nat

    function State(): QueueState
      reads this
    {
      QueueState(messages, inFlight, nextHandle)
    }

    ghost predicate Valid()
      reads this
    {
      WellFormed(State())
    }

    /** `createQueue` of a queue that does not exist yet. */
    constructor ()
      ensures Valid() && State() == QueueState([], false, 0)
    {
      messages, inFlight, nextHandle := [], false, 0;
    }

    method Send(instanceId: string, lockId: int)
      requires Valid()
      modifies this
      ensures Valid() && State() == Sent(old(State()), instanceId, lockId)
    {
      messages := messages + [Message(instanceId, lockId, nextHandle)];
      nextHandle := nextHandle + 1;
    }

    method Receive() returns (m: Option<Message>)
      requires Valid()
      modifies this
      ensures Valid() && (State(), m) == Received(old(State()))
    {
      if messages == [] || inFlight {
        m := None;
      } else {
        inFlight := true;
        m := Some(messages[0]);
      }
    }

    method MakeVisible(handle: nat)
      requires Valid()
      modifies this
      ensures Valid() && State() == MadeVisible(old(State()), handle)
    {
      if inFlight && messages != [] && messages[0].handle == handle {
        inFlight := false;
      }
    }

    method Delete(handle: nat) returns (found: bool)
      requires Valid()
      modifies this
      ensures Valid() && (State(), found) == Deleted(old(State()), handle)
    {
      DeletedWellFormed(State(), handle);
      match HandleIndex(messages, handle)
      case None =>
        found := false;
      case Some(i) =>
        messages := messages[..i] + messages[i + 1..];
        inFlight := inFlight && i != 0;
        found := true;
    }
  }

  /** The lock operations of one instance, bound to the queue by `init`. */
  class LockClient {
    const instanceId: string
    var queue: FifoQueue?

    constructor (instanceId: string)
      ensures this.instanceId == instanceId && queue == null
    {
      this.instanceId := instanceId;
      queue := null;
    }

    /** `init`: bind the arbitration queue, once, before any lock operation. */
    method Init(q: FifoQueue)
      modifies this
      ensures queue == q
    {
      queue := q;
    }

    /** One pass of `waitForMessage`, made of the broker calls the source makes. */
    method WaitStep(lockId: int) returns (outcome: StepOutcome)
      requires queue != null && queue.Valid()
      modifies queue
      ensures queue.Valid() && (queue.State(), outcome) == Step(old(queue.State()), instanceId, lockId)
    {
      var received := queue.Receive();
      match received
      case None =>
        outcome := NoMessage;
      case Some(m) =>
        if m.instanceId != instanceId {
          queue.MakeVisible(m.handle);
          outcome := Foreign;
        } else if m.lockId != lockId {
          var _ := queue.Delete(m.handle);
          outcome := Orphan;
        } else {
          outcome := Acquired(m);
        }
    }

    /**
     * `lock`: enqueue this attempt's request and wait for it, giving up
     * after `fuel` passes. A returned request is this instance's own, for
     * this attempt, and is the in-flight head of the queue.
     */
    method Lock(lockId: int, fuel: nat) returns (held: Option<Message>)
      requires queue != null && queue.Valid()
      modifies queue
      ensures queue.Valid() && (queue.State(), held) == Acquire(old(queue.State()), instanceId, lockId, fuel)
      ensures held.Some? ==> held.value.instanceId == instanceId && held.value.lockId == lockId &&
                             queue.inFlight && queue.messages[0] == held.value
    {
      queue.Send(instanceId, lockId);
      ghost var start := queue.State();
      RunReturnsOwnRequest(start, instanceId, lockId, fuel);
      var n := fuel;
      held := None;
      while n > 0
        invariant queue.Valid()
        invariant Run(queue.State(), instanceId, lockId, n) == Run(start, instanceId, lockId, fuel)
        decreases n
      {
        var outcome := WaitStep(lockId);
        if outcome.Acquired? {
          held := Some(outcome.message);
          return;
        }
        n := n - 1;
      }
    }

    /** `releaseLock`: delete the held request by its handle. */
    method ReleaseLock(held: Message) returns (found: bool)
      requires queue != null && queue.Valid()
      modifies queue
      ensures queue.Valid() && (queue.State(), found) == Deleted(old(queue.State()), held.handle)
    {
      found := queue.Delete(held.handle);
    }
  }
}
