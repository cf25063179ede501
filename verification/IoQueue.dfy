/** The keyboard ring buffer with blocking readers and writers (v1-src/device/ioqueue.c). Its functions
    run with interrupts off, so each runs in one go until it blocks and, once woken and picked by the
    scheduler, from there to where it blocks again or returns. Any thread that is awake may be next,
    and the keyboard handler may come between any two regions. */
module IoQueue {
  import opened Common
  import opened Sched

  const BUFSIZE := 64

  /** Where a thread's call stands; `b` is the character of a pending ioq_putchar. */
  datatype Call =
    | Away
    | GetLock | GetWait              // ioq_getchar blocked in lock_acquire, in ioq_wait
    | PutLock(b: char) | PutWait(b: char)

  datatype Caller = Caller(call: Call, blocked: bool)

  datatype Queue = Queue(
    callers: map<Tid, Caller>,
    lock: Lock,
    producer: Option<Tid>,
    consumer: Option<Tid>,
    buf: seq<char>,
    head: int,
    tail: int,
    accepted: seq<char>,             // history: what ioq_putchar stored
    returned: seq<char>)             // history: what ioq_getchar returned

  datatype Outcome = Panic | Went(q: Queue)

  function NextPos(pos: int): int { (pos + 1) % BUFSIZE }

  predicate Full(q: Queue) { NextPos(q.head) == q.tail }

  predicate Empty(q: Queue) { q.head == q.tail }

  predicate Shape(q: Queue) { |q.buf| == BUFSIZE && 0 <= q.head < BUFSIZE && 0 <= q.tail < BUFSIZE }

  function Load(q: Queue): int { if q.head >= q.tail then q.head - q.tail else q.head + BUFSIZE - q.tail }

  /** Position i of a ring that starts at 0. */
  function Wrapped(i: int): int { if i < BUFSIZE then i else i - BUFSIZE }

  /** What is in the queue, oldest first. */
  function Contents(q: Queue): seq<char>
    requires Shape(q)
  {
    seq(Load(q), i requires 0 <= i < Load(q) => q.buf[Wrapped(q.tail + i)])
  }

  // ---------- the functions of ioqueue.c ----------

  function At(q: Queue, t: Tid, call: Call, blocked: bool): Queue {
    q.(callers := q.callers[t := Caller(call, blocked)])
  }

  /** `thread_unblock` of a thread that is blocked in this queue. */
  function Woken(q: Queue, t: Tid): Outcome {
    if t !in q.callers || !q.callers[t].blocked then Panic
    else Went(At(q, t, q.callers[t].call, false))
  }

  /** `ioq_wait` by the consumer or the producer. */
  function ConsumerWaits(q: Queue, t: Tid): Outcome {
    if q.consumer != None then Panic else Went(At(q.(consumer := Some(t)), t, GetWait, true))
  }

  function ProducerWaits(q: Queue, t: Tid, b: char): Outcome {
    if q.producer != None then Panic else Went(At(q.(producer := Some(t)), t, PutWait(b), true))
  }

  /** `lock_acquire` when it does not have to wait: the semaphore, the holder and the count. */
  function LockTaken(q: Queue, t: Tid): Outcome {
    if q.lock.value != 1 || q.lock.nr != 0 then Panic
    else Went(q.(lock := Lock(Some(t), 0, q.lock.waiters, 1)))
  }

  function LockWaits(q: Queue, t: Tid, call: Call): Outcome {
    if t in q.lock.waiters then Panic
    else Went(At(q.(lock := q.lock.(waiters := q.lock.waiters + [t])), t, call, true))
  }

  /** `lock_release`. */
  function LockReleased(q: Queue, t: Tid): Outcome {
    if q.lock.holder != Some(t) || q.lock.nr != 1 || q.lock.value != 0 then Panic
    else
      var q1 := q.(lock := Lock(None, 1, q.lock.waiters, 0));
      if q.lock.waiters == [] then Went(q1)
      else Woken(q1.(lock := q1.lock.(waiters := q.lock.waiters[1..])), q.lock.waiters[0])
  }

  /** `ioq_getchar` from the lock on. */
  function GetFromLock(q: Queue, t: Tid): Outcome {
    if q.lock.value == 0 then LockWaits(q, t, GetLock)
    else var r := LockTaken(q, t); if r.Panic? then Panic else ConsumerWaits(r.q, t)
  }

  /** `ioq_getchar` from the test of its loop on. */
  function GetLoop(q: Queue, t: Tid): Outcome
    requires Shape(q)
  {
    if Empty(q) then GetFromLock(q, t)
    else
      var q1 := At(q.(tail := NextPos(q.tail), returned := q.returned + [q.buf[q.tail]]), t, Away, false);
      if q.producer == None then Went(q1)
      else var r := Woken(q1, q.producer.value); if r.Panic? then Panic else Went(r.q.(producer := None))
  }

  function PutFromLock(q: Queue, t: Tid, b: char): Outcome {
    if q.lock.value == 0 then LockWaits(q, t, PutLock(b))
    else var r := LockTaken(q, t); if r.Panic? then Panic else ProducerWaits(r.q, t, b)
  }

  /** The end of `ioq_putchar`: the character is stored and a waiting consumer woken. */
  function Stored(q: Queue, b: char): Outcome
    requires Shape(q)
  {
    var q1 := q.(buf := q.buf[q.head := b], head := NextPos(q.head), accepted := q.accepted + [b]);
    if q.consumer == None then Went(q1)
    else var r := Woken(q1, q.consumer.value); if r.Panic? then Panic else Went(r.q.(consumer := None))
  }

  function PutLoop(q: Queue, t: Tid, b: char): Outcome
    requires Shape(q)
  {
    if Full(q) then PutFromLock(q, t, b) else Stored(At(q, t, Away, false), b)
  }

  datatype Event =
    | Get(t: Tid)               // thread t calls ioq_getchar
    | Put(t: Tid, b: char)      // thread t calls ioq_putchar
    | Key(b: char)              // the keyboard handler: ioq_putchar unless the queue is full
    | Resume(t: Tid)            // thread t, awake inside a call, goes on

  predicate Enabled(q: Queue, e: Event) {
    match e
    case Get(t) => t in q.callers && q.callers[t] == Caller(Away, false)
    case Put(t, b) => t in q.callers && q.callers[t] == Caller(Away, false)
    case Key(b) => true
    case Resume(t) => t in q.callers && q.callers[t].call != Away && !q.callers[t].blocked
  }

  function Step(q: Queue, e: Event): Outcome
    requires Shape(q) && Enabled(q, e)
  {
    match e
    case Get(t) => GetLoop(q, t)
    case Put(t, b) => PutLoop(q, t, b)
    case Key(b) => if Full(q) then Went(q) else Stored(q, b)
    case Resume(t) =>
      match q.callers[t].call
      case Away => Went(q)
      case GetLock => GetFromLock(q, t)
      case PutLock(b) => PutFromLock(q, t, b)
      case GetWait => var r := LockReleased(q, t); if r.Panic? then Panic else GetLoop(r.q, t)
      case PutWait(b) => var r := LockReleased(q, t); if r.Panic? then Panic else PutLoop(r.q, t, b)
  }

  // ---------- the invariant ----------

  predicate InLock(c: Call) { c.GetLock? || c.PutLock? }

  predicate InWait(c: Call) { c.GetWait? || c.PutWait? }

  /** The ring refines a FIFO. */
  ghost predicate RingOk(q: Queue) {
    Shape(q) && q.accepted == q.returned + Contents(q)
  }

  /** The queue's lock is held exactly by the thread that is in ioq_wait or not yet out of it. */
  ghost predicate HolderOk(q: Queue) {
    && (q.lock.holder == None ==> q.lock.value == 1 && q.lock.nr == 0)
    && (q.lock.holder != None ==>
        && q.lock.value == 0 && q.lock.nr == 1 && q.lock.holder.value in q.callers
        && InWait(q.callers[q.lock.holder.value].call))
    && (forall t :: t in q.callers && InWait(q.callers[t].call) ==> q.lock.holder == Some(t))
    && NoDup(q.lock.waiters)
    && (forall t :: t in q.lock.waiters <==> t in q.callers && InLock(q.callers[t].call) && q.callers[t].blocked)
  }

  /** A recorded waiter is a blocked thread in ioq_wait, and every such thread is recorded. */
  ghost predicate WaitersOk(q: Queue) {
    && (forall t :: q.consumer == Some(t) <==> t in q.callers && q.callers[t] == Caller(GetWait, true))
    && (forall t :: q.producer == Some(t) <==> t in q.callers && q.callers[t].call.PutWait? && q.callers[t].blocked)
    && (forall t :: t in q.callers && q.callers[t].call == Away ==> !q.callers[t].blocked)
  }

  /** A free lock with waiters has a woken thread on its way to it. */
  ghost predicate NoneStranded(q: Queue) {
    q.lock.value == 1 && q.lock.waiters != [] ==>
      exists t :: t in q.callers && InLock(q.callers[t].call) && !q.callers[t].blocked
  }

  ghost predicate QueueInv(q: Queue) {
    RingOk(q) && HolderOk(q) && WaitersOk(q) && NoneStranded(q)
  }

  // ---------- the ring ----------

  lemma NextIsWrapped(pos: int)
    requires 0 <= pos < BUFSIZE
    ensures NextPos(pos) == Wrapped(pos + 1)
  {
  }

  lemma FullIs63(q: Queue)
    requires Shape(q)
    ensures Full(q) <==> Load(q) == BUFSIZE - 1
    ensures Empty(q) <==> Load(q) == 0
    ensures |Contents(q)| <= BUFSIZE - 1
  {
    NextIsWrapped(q.head);
  }

  lemma StoredRing(q: Queue, q': Queue, b: char)
    requires RingOk(q) && !Full(q)
    requires q'.buf == q.buf[q.head := b] && q'.head == NextPos(q.head) && q'.tail == q.tail
             && q'.accepted == q.accepted + [b] && q'.returned == q.returned
    ensures RingOk(q') && Contents(q') == Contents(q) + [b]
  {
    FullIs63(q);
    NextIsWrapped(q.head);
    hide NextPos;
    var c, c' := Contents(q), Contents(q');
    assert |c'| == |c| + 1;
    forall i | 0 <= i < |c'| ensures c'[i] == (c + [b])[i] {
      if i == |c| {
        assert Wrapped(q.tail + i) == q.head;
      } else {
        assert Wrapped(q.tail + i) != q.head;
        assert c'[i] == q'.buf[Wrapped(q.tail + i)] == q.buf[Wrapped(q.tail + i)] == c[i];
      }
    }
    assert c' == c + [b];
    assert q.accepted + [b] == q.returned + (c + [b]);
  }

  lemma TakenRing(q: Queue, q': Queue)
    requires RingOk(q) && !Empty(q)
    requires q'.buf == q.buf && q'.head == q.head && q'.tail == NextPos(q.tail) && q'.accepted == q.accepted
             && q'.returned == q.returned + [q.buf[q.tail]]
    ensures RingOk(q') && Contents(q) == [q.buf[q.tail]] + Contents(q')
  {
    FullIs63(q);
    NextIsWrapped(q.tail);
    hide NextPos;
    var c, c' := Contents(q), Contents(q');
    assert |c| == |c'| + 1;
    forall i | 0 <= i < |c| ensures c[i] == ([q.buf[q.tail]] + c')[i] {
      if i > 0 { assert Wrapped(q.tail + i) == Wrapped(q'.tail + (i - 1)); }
    }
    assert c == [q.buf[q.tail]] + c';
    assert q.returned + c == q'.returned + c';
  }

  // ---------- the waiters ----------

  /** A woken lock waiter is on its way. */
  ghost predicate LockWoken(q: Queue) {
    exists t :: t in q.callers && InLock(q.callers[t].call) && !q.callers[t].blocked
  }

  /** The call does not touch the ring. */
  predicate SameRing(q: Queue, q': Queue) {
    q'.buf == q.buf && q'.head == q.head && q'.tail == q.tail && q'.accepted == q.accepted && q'.returned == q.returned
  }

  /** Invariant without the ring, for a state in which thread t is running: it may be anywhere
      outside of ioq_wait. */
  ghost predicate Sync(q: Queue) { HolderOk(q) && WaitersOk(q) }

  lemma AppendWaiter(xs: seq<Tid>, t: Tid)
    requires NoDup(xs) && t !in xs
    ensures NoDup(xs + [t]) && forall u :: u in xs + [t] <==> u in xs || u == t
  {
  }

  /** Thread t, awake and not in ioq_wait, queues for the lock. */
  lemma LockWaitsWorks(q: Queue, t: Tid, call: Call) returns (q': Queue)
    requires t in q.callers && !q.callers[t].blocked && !InWait(q.callers[t].call) && InLock(call) && q.lock.value == 0
    requires Sync(q)
    ensures LockWaits(q, t, call) == Went(q') && Sync(q') && SameRing(q, q') && q'.lock.value == 0
            && q'.consumer == q.consumer
  {
    assert t !in q.lock.waiters;
    q' := LockWaits(q, t, call).q;
    AppendWaiter(q.lock.waiters, t);
  }

  /** Thread t takes the free lock and waits: nobody is recorded, so the assertion of ioq_wait holds. */
  lemma GetFromLockWorks(q: Queue, t: Tid) returns (q': Queue)
    requires t in q.callers && !q.callers[t].blocked && !InWait(q.callers[t].call)
    requires Sync(q)
    ensures GetFromLock(q, t) == Went(q') && Sync(q') && SameRing(q, q') && q'.lock.value == 0
    ensures q'.consumer == if q.lock.value == 0 then q.consumer else Some(t)
    ensures q.lock.value == 1 ==> q.consumer == None
  {
    if q.lock.value == 0 {
      q' := LockWaitsWorks(q, t, GetLock);
    } else {
      NobodyWaits(q);
      q' := GetFromLock(q, t).q;
    }
  }

  lemma PutFromLockWorks(q: Queue, t: Tid, b: char) returns (q': Queue)
    requires t in q.callers && !q.callers[t].blocked && !InWait(q.callers[t].call)
    requires Sync(q)
    ensures PutFromLock(q, t, b) == Went(q') && Sync(q') && SameRing(q, q') && q'.lock.value == 0
            && q'.consumer == q.consumer
  {
    if q.lock.value == 0 {
      q' := LockWaitsWorks(q, t, PutLock(b));
    } else {
      NobodyWaits(q);
      q' := PutFromLock(q, t, b).q;
    }
  }

  lemma NobodyWaits(q: Queue)
    requires q.lock.value == 1
    requires Sync(q)
    ensures q.consumer == None && q.producer == None && q.lock.holder == None && q.lock.nr == 0
  {
  }

  /** A thread that leaves ioq_wait releases the lock; the first lock waiter is woken. */
  lemma LockReleasedWorks(q: Queue, t: Tid) returns (q': Queue)
    requires t in q.callers && !q.callers[t].blocked && InWait(q.callers[t].call)
    requires Sync(q)
    ensures LockReleased(q, t) == Went(q') && SameRing(q, q') && q'.consumer == None && q'.producer == None
            && q.consumer == None
    ensures q'.lock.value == 1 && t in q'.callers && q'.callers[t] == q.callers[t]
    ensures Sync(At(q', t, Away, false)) && (q'.lock.waiters != [] ==> LockWoken(At(q', t, Away, false)))
  {
    HolderOnly(q, t);
    var ws := q.lock.waiters;
    if ws != [] {
      assert ws[0] in ws;
      TailOf(ws);
    }
    q' := LockReleased(q, t).q;
    var q1 := At(q', t, Away, false);
    if ws != [] {
      assert InLock(q1.callers[ws[0]].call) && !q1.callers[ws[0]].blocked;
    }
  }

  /** Only the holder is in ioq_wait, and it is awake: nobody is recorded. */
  lemma HolderOnly(q: Queue, t: Tid)
    requires t in q.callers && !q.callers[t].blocked && InWait(q.callers[t].call)
    requires Sync(q)
    ensures q.lock.holder == Some(t) && q.consumer == None && q.producer == None && q.lock.value == 0 && q.lock.nr == 1
  {
  }

  /** A recorded waiter is blocked, so it can be woken; it keeps the lock until it runs. */
  lemma WokenWorks(q: Queue, w: Tid) returns (q': Queue)
    requires q.consumer == Some(w) || q.producer == Some(w)
    requires Sync(q)
    ensures Woken(q, w) == Went(q') && SameRing(q, q') && q'.lock == q.lock && q'.callers.Keys == q.callers.Keys
    ensures forall u :: u in q.callers && u != w ==> q'.callers[u] == q.callers[u]
    ensures q.consumer == Some(w) ==> q.producer == None && q'.consumer == Some(w) && Sync(q'.(consumer := None))
    ensures q.producer == Some(w) ==> q.consumer == None && q'.producer == Some(w) && Sync(q'.(producer := None))
    ensures q.lock.value == 0
  {
    q' := Woken(q, w).q;
  }

  // ---------- the calls ----------

  predicate AwakeAt(q: Queue, t: Tid, call: Call) {
    t in q.callers && q.callers[t] == Caller(call, false)
  }

  /** The loops do not depend on where the caller last stood. */
  lemma LoopsForget(q: Queue, t: Tid)
    requires Shape(q) && t in q.callers
    ensures GetLoop(q, t) == GetLoop(At(q, t, Away, false), t)
    ensures forall b :: PutLoop(q, t, b) == PutLoop(At(q, t, Away, false), t, b)
  {
    var q1 := At(q, t, Away, false);
    forall call, blocked ensures At(q1, t, call, blocked) == At(q, t, call, blocked) {
      assert q.callers[t := Caller(Away, false)][t := Caller(call, blocked)] == q.callers[t := Caller(call, blocked)];
    }
    forall call, blocked
      ensures q.callers[t := Caller(Away, false)][t := Caller(call, blocked)]
        == q.callers[t := Caller(call, blocked)] {}
  }

  lemma GetLoopWorks(q: Queue, t: Tid) returns (q': Queue)
    requires AwakeAt(q, t, Away) && RingOk(q)
    requires q.lock.value == 1 && q.lock.waiters != [] ==> LockWoken(q)
    requires Sync(q)
    ensures GetLoop(q, t) == Went(q') && QueueInv(q')
    ensures Empty(q) ==> SameRing(q, q') && (q'.consumer == q.consumer || q'.consumer == Some(t))
    ensures !Empty(q) ==> Contents(q) == [q'.returned[|q'.returned| - 1]] + Contents(q') && q'.consumer == q.consumer
  {
    if Empty(q) {
      q' := GetFromLockWorks(q, t);
      SameRingSame(q, q');
    } else {
      var q1 := q.(tail := NextPos(q.tail), returned := q.returned + [q.buf[q.tail]]);
      assert q.callers[t := Caller(Away, false)] == q.callers;
      TakenRing(q, q1);
      hide RingOk, Contents;
      if q.producer == None {
        q' := q1;
        assert Sync(q');
        KeepsWoken(q, q');
      } else {
        assert Sync(q1);
        var q2 := WokenWorks(q1, q.producer.value);
        q' := q2.(producer := None);
        SameRingSame(q1, q');
      }
    }
  }

  lemma SameRingSame(q: Queue, q': Queue)
    requires RingOk(q) && SameRing(q, q')
    ensures RingOk(q') && Contents(q') == Contents(q)
  {
    assert Contents(q') == Contents(q);
  }

  lemma KeepsWoken(q: Queue, q': Queue)
    requires q'.lock == q.lock && q'.callers == q.callers
    requires q.lock.value == 1 && q.lock.waiters != [] ==> LockWoken(q)
    ensures NoneStranded(q')
  {
  }

  lemma StoredWorks(q: Queue, b: char) returns (q': Queue)
    requires RingOk(q) && !Full(q)
    requires q.lock.value == 1 && q.lock.waiters != [] ==> LockWoken(q)
    requires Sync(q)
    ensures Stored(q, b) == Went(q') && QueueInv(q') && Contents(q') == Contents(q) + [b] && q'.consumer == None
            && q'.callers.Keys == q.callers.Keys
  {
    var q1 := q.(buf := q.buf[q.head := b], head := NextPos(q.head), accepted := q.accepted + [b]);
    StoredRing(q, q1, b);
    hide RingOk, Contents;
    if q.consumer == None {
      q' := q1;
      assert Sync(q');
      KeepsWoken(q, q');
    } else {
      assert Sync(q1);
      var q2 := WokenWorks(q1, q.consumer.value);
      q' := q2.(consumer := None);
      SameRingSame(q1, q');
    }
  }

  lemma PutLoopWorks(q: Queue, t: Tid, b: char) returns (q': Queue)
    requires AwakeAt(q, t, Away) && RingOk(q)
    requires q.lock.value == 1 && q.lock.waiters != [] ==> LockWoken(q)
    requires Sync(q)
    ensures PutLoop(q, t, b) == Went(q') && QueueInv(q')
    ensures Full(q) ==> SameRing(q, q') && Contents(q') == Contents(q) && q'.consumer == q.consumer
    ensures !Full(q) ==> Contents(q') == Contents(q) + [b] && q'.consumer == None
  {
    if Full(q) {
      q' := PutFromLockWorks(q, t, b);
      SameRingSame(q, q');
    } else {
      assert q.callers[t := Caller(Away, false)] == q.callers;
      q' := StoredWorks(q, b);
    }
  }

  /** No assertion of ioqueue.c or of the lock fails at any step, and the invariant stays. */
  lemma StepKeepsInv(q: Queue, e: Event)
    requires Shape(q) && Enabled(q, e)
    requires QueueInv(q)
    ensures Step(q, e).Went? && QueueInv(Step(q, e).q)
  {
    hide GetLoop, PutLoop, Stored, GetFromLock, PutFromLock, LockReleased, RingOk, HolderOk, WaitersOk, Contents;
    match e
    case Get(t) => var q' := GetLoopWorks(q, t);
    case Put(t, b) => var q' := PutLoopWorks(q, t, b);
    case Key(b) => if !Full(q) { var q' := StoredWorks(q, b); }
    case Resume(t) => ResumeKeepsInv(q, t);
  }

  lemma ResumeKeepsInv(q: Queue, t: Tid)
    requires Shape(q) && Enabled(q, Resume(t))
    requires QueueInv(q)
    ensures Step(q, Resume(t)).Went? && QueueInv(Step(q, Resume(t)).q)
  {
    hide GetLoop, PutLoop, Stored, GetFromLock, PutFromLock, LockReleased, RingOk, HolderOk, WaitersOk, Contents;
    match q.callers[t].call
    case Away =>
    case GetLock =>
      var q' := GetFromLockWorks(q, t);
      SameRingSame(q, q');
    case PutLock(b) =>
      var q' := PutFromLockWorks(q, t, b);
      SameRingSame(q, q');
    case GetWait =>
      var q1 := LeaveWait(q, t);
      var q' := GetLoopWorks(At(q1, t, Away, false), t);
    case PutWait(b) =>
      var q1 := LeaveWait(q, t);
      var q' := PutLoopWorks(At(q1, t, Away, false), t, b);
  }

  /** Out of ioq_wait and its lock, back to the test of the loop. */
  lemma LeaveWait(q: Queue, t: Tid) returns (q1: Queue)
    requires t in q.callers && !q.callers[t].blocked && InWait(q.callers[t].call)
    requires QueueInv(q)
    ensures LockReleased(q, t) == Went(q1) && Shape(q1) && Shape(q)
    ensures var q2 := At(q1, t, Away, false);
            && SameRing(q, q2) && RingOk(q2) && Sync(q2) && AwakeAt(q2, t, Away) && q2.consumer == None
            && (q2.lock.waiters != [] ==> LockWoken(q2))
            && GetLoop(q1, t) == GetLoop(q2, t) && forall b :: PutLoop(q1, t, b) == PutLoop(q2, t, b)
  {
    q1 := LockReleasedWorks(q, t);
    SameRingSame(q, At(q1, t, Away, false));
    hide HolderOk, WaitersOk;
    LoopsForget(q1, t);
  }

  // ---------- every run ----------

  function Run(q: Queue, es: seq<Event>): Outcome
    decreases |es|
  {
    if es == [] || !Shape(q) || !Enabled(q, es[0]) then Went(q)
    else var r := Step(q, es[0]); if r.Panic? then Panic else Run(r.q, es[1..])
  }

  function Fresh(ts: set<Tid>, buf: seq<char>): Queue {
    Queue(map t | t in ts :: Caller(Away, false), Lock(None, 1, [], 0), None, None, buf, 0, 0, [], [])
  }

  lemma FreshIsGood(ts: set<Tid>, buf: seq<char>)
    requires |buf| == BUFSIZE
    ensures QueueInv(Fresh(ts, buf))
  {
  }

  lemma {:induction false} EveryRunKeepsInv(q: Queue, es: seq<Event>)
    requires QueueInv(q)
    ensures Run(q, es).Went? && QueueInv(Run(q, es).q)
    decreases |es|
  {
    hide RingOk, HolderOk, WaitersOk, NoneStranded, Step;
    if es != [] && Enabled(q, es[0]) {
      ShapeFromInv(q);
      StepKeepsInv(q, es[0]);
      EveryRunKeepsInv(Step(q, es[0]).q, es[1..]);
    }
  }

  lemma ShapeFromInv(q: Queue)
    requires QueueInv(q)
    ensures Shape(q)
  {
  }

  /** First in, first out, at most 63 characters: in every run what was returned is a prefix of what
      was accepted, and a recorded waiter is blocked and holds the queue's lock. */
  lemma EveryRunIsFifo(ts: set<Tid>, buf: seq<char>, es: seq<Event>)
    requires |buf| == BUFSIZE
    ensures var r := Run(Fresh(ts, buf), es);
            && r.Went? && r.q.returned <= r.q.accepted && |r.q.accepted| - |r.q.returned| <= 63
            && (forall t :: r.q.consumer == Some(t) || r.q.producer == Some(t) ==>
                  t in r.q.callers && r.q.callers[t].blocked && r.q.lock.holder == Some(t))
  {
    hide Run;
    FreshIsGood(ts, buf);
    EveryRunKeepsInv(Fresh(ts, buf), es);
    FullIs63(Run(Fresh(ts, buf), es).q);
  }

  // ---------- does a consumer sleep only while the queue is empty? ----------

  predicate SleepsOnlyWhenEmpty(q: Queue) { q.consumer != None ==> Empty(q) }

  /** ioq_getchar does not test the queue again between lock_acquire and ioq_wait. The step that
      puts a consumer to sleep on a queue with something in it is exactly this one: it comes out of a
      wait for the lock, finds the lock free, and characters have arrived meanwhile. */
  lemma SleepsOnlyWhenEmptyIff(q: Queue, e: Event)
    requires Shape(q) && Enabled(q, e) && SleepsOnlyWhenEmpty(q)
    requires QueueInv(q)
    ensures Step(q, e).Went?
    ensures SleepsOnlyWhenEmpty(Step(q, e).q)
            <==> !(e.Resume? && q.callers[e.t].call == GetLock && q.lock.value == 1 && !Empty(q))
  {
    hide GetLoop, PutLoop, Stored, GetFromLock, PutFromLock, LockReleased, RingOk, HolderOk, WaitersOk, Contents, Full;
    match e
    case Get(t) => var q' := GetLoopWorks(q, t);
    case Put(t, b) => var q' := PutLoopWorks(q, t, b);
    case Key(b) => if !Full(q) { var q' := StoredWorks(q, b); }
    case Resume(t) =>
      match q.callers[t].call
      case GetLock => var q' := GetFromLockWorks(q, t); ValueIsBit(q);
      case PutLock(b) => var q' := PutFromLockWorks(q, t, b);
      case GetWait =>
        var q1 := LeaveWait(q, t);
        var q' := GetLoopWorks(At(q1, t, Away, false), t);
      case PutWait(b) =>
        var q1 := LeaveWait(q, t);
        var q' := PutLoopWorks(At(q1, t, Away, false), t, b);
  }

  lemma ValueIsBit(q: Queue)
    requires QueueInv(q)
    ensures q.lock.value == 0 || q.lock.value == 1
  {
  }

  /** Every reader is thread c, and whoever writes tests the queue first, as the keyboard handler does. */
  predicate Guarded(q: Queue, c: Tid, e: Event) {
    match e
    case Get(t) => t == c
    case Put(t, b) => !Full(q)
    case Key(b) => true
    case Resume(t) => true
  }

  /** All other threads are outside, and c waits for characters only, never for the lock. */
  ghost predicate OneReader(q: Queue, c: Tid) {
    && (forall t :: t in q.callers && t != c ==> q.callers[t].call == Away)
    && (c in q.callers ==> q.callers[c].call == Away || q.callers[c].call == GetWait)
    && SleepsOnlyWhenEmpty(q)
  }

  lemma GuardedStep(q: Queue, c: Tid, e: Event)
    requires Shape(q) && Enabled(q, e) && Guarded(q, c, e) && OneReader(q, c)
    requires QueueInv(q)
    ensures Step(q, e).Went? && OneReader(Step(q, e).q, c)
  {
    SleepsOnlyWhenEmptyIff(q, e);
    hide RingOk, NoneStranded;
  }

  function GuardedRun(q: Queue, c: Tid, es: seq<Event>): Outcome
    decreases |es|
  {
    if es == [] || !Shape(q) || !Enabled(q, es[0]) || !Guarded(q, c, es[0]) then Went(q)
    else var r := Step(q, es[0]); if r.Panic? then Panic else GuardedRun(r.q, c, es[1..])
  }

  /** With one reader and writers that test first, the reader is blocked only while the queue is empty. */
  lemma {:induction false} GuardedReaderIsNotStuck(q: Queue, c: Tid, es: seq<Event>)
    requires OneReader(q, c)
    requires QueueInv(q)
    ensures var r := GuardedRun(q, c, es);
            r.Went? && (c in r.q.callers && r.q.callers[c].blocked ==> Empty(r.q))
    decreases |es|
  {
    hide RingOk, HolderOk, NoneStranded, Step, OneReader, WaitersOk;
    ShapeFromInv(q);
    if es == [] || !Enabled(q, es[0]) || !Guarded(q, c, es[0]) {
      if c in q.callers && q.callers[c].blocked { BlockedIsRecorded(q, c); }
    } else {
      StepKeepsInv(q, es[0]);
      GuardedStep(q, c, es[0]);
      GuardedReaderIsNotStuck(Step(q, es[0]).q, c, es[1..]);
    }
  }

  lemma BlockedIsRecorded(q: Queue, c: Tid)
    requires OneReader(q, c) && c in q.callers && q.callers[c].blocked
    requires QueueInv(q)
    ensures Empty(q)
  {
    assert q.callers[c] == Caller(GetWait, true);
  }

  // A reader stuck on a queue with something in it: the writer fills the queue and blocks in ioq_wait
  // with the lock; the reader empties the queue, which wakes the writer, and blocks in the lock; the
  // writer leaves the lock and stores its character while no reader is recorded; the reader gets
  // the lock and sleeps.

  predicate RunsTo(q: Queue, es: seq<Event>, q': Queue)
    decreases |es|
  {
    if es == [] then q == q'
    else Shape(q) && Enabled(q, es[0]) && Step(q, es[0]).Went? && RunsTo(Step(q, es[0]).q, es[1..], q')
  }

  lemma {:induction false} RunsToIsRun(q: Queue, es: seq<Event>, q': Queue)
    requires RunsTo(q, es, q')
    ensures Run(q, es) == Went(q')
    decreases |es|
  {
    hide Step;
    if es != [] { RunsToIsRun(Step(q, es[0]).q, es[1..], q'); }
  }

  lemma {:induction false} RunsToMore(q: Queue, es: seq<Event>, q1: Queue, e: Event)
    requires RunsTo(q, es, q1) && Shape(q1) && Enabled(q1, e) && Step(q1, e).Went?
    ensures RunsTo(q, es + [e], Step(q1, e).q)
    decreases |es|
  {
    if es == [] {
      assert es + [e] == [e];
      assert RunsTo(Step(q1, e).q, [], Step(q1, e).q);
    } else {
      RunsToMore(Step(q, es[0]).q, es[1..], q1, e);
      hide Step;
      assert (es + [e])[1..] == es[1..] + [e];
    }
  }

  /** Reader 0 and writer 1, n characters, the calls and the lock as given. */
  predicate Scene(q: Queue, n: int, r: Caller, w: Caller, lock: Lock, producer: Option<Tid>) {
    && Shape(q) && Load(q) == n && q.callers == map[0 := r, 1 := w] && q.lock == lock
    && q.consumer == None && q.producer == producer
  }

  function Outside(): Caller { Caller(Away, false) }

  lemma FillStep(q: Queue, n: int)
    requires Scene(q, n, Outside(), Outside(), Lock(None, 1, [], 0), None) && n < 63
    ensures Enabled(q, Put(1, 'x')) && Step(q, Put(1, 'x')).Went?
    ensures Scene(Step(q, Put(1, 'x')).q, n + 1, Outside(), Outside(), Lock(None, 1, [], 0), None)
  {
    FullIs63(q);
    NextIsWrapped(q.head);
  }

  lemma {:induction false} Fill(buf: seq<char>, n: nat) returns (es: seq<Event>, q: Queue)
    requires |buf| == BUFSIZE && n <= 63
    ensures RunsTo(Fresh({0, 1}, buf), es, q) && Scene(q, n, Outside(), Outside(), Lock(None, 1, [], 0), None)
  {
    if n == 0 {
      es, q := [], Fresh({0, 1}, buf);
      assert q.callers == map[0 := Outside(), 1 := Outside()];
    } else {
      es, q := Fill(buf, n - 1);
      FillStep(q, n - 1);
      RunsToMore(Fresh({0, 1}, buf), es, q, Put(1, 'x'));
      es, q := es + [Put(1, 'x')], Step(q, Put(1, 'x')).q;
    }
  }

  lemma WriterBlocks(q: Queue)
    requires Scene(q, 63, Outside(), Outside(), Lock(None, 1, [], 0), None)
    ensures Enabled(q, Put(1, 'x')) && Step(q, Put(1, 'x')).Went?
    ensures Scene(Step(q, Put(1, 'x')).q, 63, Outside(), Caller(PutWait('x'), true), Lock(Some(1), 0, [], 1), Some(1))
  {
    FullIs63(q);
  }

  lemma DrainStep(q: Queue, n: int)
    requires Scene(q, n, Outside(), Caller(PutWait('x'), true), Lock(Some(1), 0, [], 1), Some(1))
             || Scene(q, n, Outside(), Caller(PutWait('x'), false), Lock(Some(1), 0, [], 1), None)
    requires 0 < n <= 63
    ensures Enabled(q, Get(0)) && Step(q, Get(0)).Went?
    ensures Scene(Step(q, Get(0)).q, n - 1, Outside(), Caller(PutWait('x'), false), Lock(Some(1), 0, [], 1), None)
  {
    FullIs63(q);
    NextIsWrapped(q.tail);
    assert q.callers[0 := Outside()] == q.callers;
  }

  lemma {:induction false} Drain(q0: Queue, es: seq<Event>, q: Queue, n: nat) returns (fs: seq<Event>, q': Queue)
    requires RunsTo(q0, es, q) && 0 < n <= 63
    requires Scene(q, n, Outside(), Caller(PutWait('x'), true), Lock(Some(1), 0, [], 1), Some(1))
             || Scene(q, n, Outside(), Caller(PutWait('x'), false), Lock(Some(1), 0, [], 1), None)
    ensures RunsTo(q0, fs, q') && Scene(q', 0, Outside(), Caller(PutWait('x'), false), Lock(Some(1), 0, [], 1), None)
    decreases n
  {
    DrainStep(q, n);
    RunsToMore(q0, es, q, Get(0));
    fs, q' := es + [Get(0)], Step(q, Get(0)).q;
    if n > 1 {
      fs, q' := Drain(q0, fs, q', n - 1);
    }
  }

  lemma ReaderBlocksInLock(q: Queue)
    requires Scene(q, 0, Outside(), Caller(PutWait('x'), false), Lock(Some(1), 0, [], 1), None)
    ensures Enabled(q, Get(0)) && Step(q, Get(0)).Went?
    ensures Scene(Step(q, Get(0)).q, 0, Caller(GetLock, true), Caller(PutWait('x'), false), Lock(Some(1), 0, [0], 1),
            None)
  {
    assert [] + [0] == [0];
  }

  lemma WriterStores(q: Queue)
    requires Scene(q, 0, Caller(GetLock, true), Caller(PutWait('x'), false), Lock(Some(1), 0, [0], 1), None)
    ensures Enabled(q, Resume(1)) && Step(q, Resume(1)).Went?
    ensures Scene(Step(q, Resume(1)).q, 1, Caller(GetLock, false), Outside(), Lock(None, 1, [], 0), None)
  {
    FullIs63(q);
    NextIsWrapped(q.head);
    var q1 := LockReleased(q, 1).q;
    assert q1.callers == map[0 := Caller(GetLock, false), 1 := Caller(PutWait('x'), false)];
    FullIs63(q1);
  }

  /** The promise that a single reader sleeps only while the queue is empty fails for a writer that
      blocks: here is a run. */
  lemma StuckReader(buf: seq<char>) returns (es: seq<Event>)
    requires |buf| == BUFSIZE
    ensures var r := Run(Fresh({0, 1}, buf), es);
            && r.Went? && 0 in r.q.callers && r.q.callers[0] == Caller(GetWait, true) && r.q.consumer == Some(0)
            && Shape(r.q) && |Contents(r.q)| == 1
  {
    var q0 := Fresh({0, 1}, buf);
    var q: Queue;
    hide Step, RunsTo, Run, Contents;
    es, q := Fill(buf, 63);
    WriterBlocks(q);
    RunsToMore(q0, es, q, Put(1, 'x'));
    es, q := es + [Put(1, 'x')], Step(q, Put(1, 'x')).q;
    es, q := Drain(q0, es, q, 63);
    ReaderBlocksInLock(q);
    RunsToMore(q0, es, q, Get(0));
    es, q := es + [Get(0)], Step(q, Get(0)).q;
    WriterStores(q);
    RunsToMore(q0, es, q, Resume(1));
    es, q := es + [Resume(1)], Step(q, Resume(1)).q;
    ReaderSleeps(q);
    RunsToMore(q0, es, q, Resume(0));
    es, q := es + [Resume(0)], Step(q, Resume(0)).q;
    RunsToIsRun(q0, es, q);
  }

  lemma ReaderSleeps(q: Queue)
    requires Scene(q, 1, Caller(GetLock, false), Outside(), Lock(None, 1, [], 0), None)
    ensures Enabled(q, Resume(0)) && Step(q, Resume(0)).Went?
    ensures var q' := Step(q, Resume(0)).q;
            0 in q'.callers && q'.callers[0] == Caller(GetWait, true) && q'.consumer == Some(0) && Shape(q')
                && |Contents(q')| == 1
  {
  }

  // ---------- the functions of ioqueue.c in place ----------

  /** Thread t has returned from its call, the recorded thread is awake, and nobody else has moved. */
  ghost predicate ReturnsAndWakes(before: map<Tid, Caller>, after: map<Tid, Caller>, t: Tid, waiter: Option<Tid>) {
    && after.Keys == before.Keys && t in after && after[t] == Caller(Away, false)
    && (waiter != None ==>
          && waiter.value in before && waiter.value != t
          && before[waiter.value].blocked && after[waiter.value] == Caller(before[waiter.value].call, false))
    && (forall u :: u in before && u != t && waiter != Some(u) ==> after[u] == before[u])
  }

  /** Thread t has blocked, behind the others that wait for the lock or, with the lock, in ioq_wait; nobody
      else has moved. */
  ghost predicate LockOrWait(before: map<Tid, Caller>, after: map<Tid, Caller>, l: Lock, l': Lock, t: Tid, inLock: Call,
      inWait: Call) {
    && after.Keys == before.Keys && t in after && after[t] == Caller(if l.value == 0 then inLock else inWait, true)
    && (forall u :: u in before && u != t ==> after[u] == before[u])
    && if l.value == 0 then l' == l.(waiters := l.waiters + [t])
       else l'.holder == Some(t) && l'.nr == 1 && l'.value == 0 && l'.waiters == l.waiters
  }

  /** `struct ioqueue` and the calls that are under way in it. */
  class Ioqueue {
    var callers: map<Tid, Caller>
    var lock: Lock
    var producer: Option<Tid>
    var consumer: Option<Tid>
    const buf: array<char>
    var head: int
    var tail: int
    ghost var accepted: seq<char>
    ghost var returned: seq<char>

    ghost function Q(): Queue
      reads this, buf
    {
      Queue(callers, lock, producer, consumer, buf[..], head, tail, accepted, returned)
    }

    /** `ioqueue_init`. */
    constructor (ts: set<Tid>)
      ensures QueueInv(Q()) && Contents(Q()) == [] && callers.Keys == ts && fresh(buf)
      ensures producer == None && consumer == None && lock == Lock(None, 1, [], 0)
      ensures forall t :: t in ts ==> callers[t] == Caller(Away, false)
    {
      callers := map t | t in ts :: Caller(Away, false);
      lock, producer, consumer, head, tail, accepted, returned := Lock(None, 1, [], 0), None, None, 0, 0, [], [];
      buf := new char[BUFSIZE];
      new;
      FreshIsGood(ts, buf[..]);
      assert Q() == Fresh(ts, buf[..]);
    }

    method IoqWakeup(waiter: Option<Tid>)
      requires waiter != None && waiter.value in callers && callers[waiter.value].blocked
      modifies this`callers
      ensures Woken(old(Q()), waiter.value) == Went(Q())
      ensures callers == old(callers)[waiter.value := Caller(old(callers)[waiter.value].call, false)]
    {
      callers := callers[waiter.value := callers[waiter.value].(blocked := false)];
    }

    /** `ioq_getchar` by thread t from the test of its loop to where it blocks or returns. */
    method GetChar(t: Tid) returns (byte: Option<char>)
      requires AwakeAt(Q(), t, Away) && RingOk(Q()) && Sync(Q())
      requires lock.value == 1 && lock.waiters != [] ==> LockWoken(Q())
      modifies this
      ensures GetLoop(old(Q()), t) == Went(Q()) && QueueInv(Q())
      ensures old(Contents(Q())) == [] ==> byte == None && Contents(Q()) == []
      ensures old(Contents(Q())) != [] ==>
              && byte == Some(old(Contents(Q()))[0])
              && Contents(Q()) == old(Contents(Q()))[1..]
              && ReturnsAndWakes(old(callers), callers, t, old(producer)) && producer == None
              && consumer == old(consumer) && lock == old(lock)
      ensures old(Contents(Q())) == [] ==>
              LockOrWait(old(callers), callers, old(lock), lock, t, GetLock, GetWait)
              && consumer == (if old(lock.value) == 0 then old(consumer) else Some(t)) && producer == old(producer)
    {
      hide RingOk, HolderOk, WaitersOk, NoneStranded, Contents, Woken, NextPos, LockWoken;
      ghost var q := Q();
      ghost var q' := GetLoopWorks(q, t);
      RingFacts(q);
      RingFacts(q');
      byte := None;
      if head == tail {
        FromLock(t, GetLock);
      } else {
        byte := Some(buf[tail]);
        returned := returned + [buf[tail]];
        tail := NextPos(tail);
        callers := callers[t := Caller(Away, false)];
        if producer != None {
          ProducerBlocked(q, t);
          IoqWakeup(producer);
          producer := None;
        }
      }
      assert Q() == q';
    }

    /** `ioq_putchar`, likewise. */
    method PutChar(t: Tid, b: char) returns (stored: bool)
      requires AwakeAt(Q(), t, Away) && RingOk(Q()) && Sync(Q())
      requires lock.value == 1 && lock.waiters != [] ==> LockWoken(Q())
      modifies this, buf
      ensures PutLoop(old(Q()), t, b) == Went(Q()) && QueueInv(Q())
      ensures stored <==> |old(Contents(Q()))| < 63
      ensures Contents(Q()) == old(Contents(Q())) + if stored then [b] else []
      ensures stored ==>
              && ReturnsAndWakes(old(callers), callers, t, old(consumer)) && consumer == None
              && producer == old(producer) && lock == old(lock)
      ensures !stored ==>
              LockOrWait(old(callers), callers, old(lock), lock, t, PutLock(b), PutWait(b))
              && producer == (if old(lock.value) == 0 then old(producer) else Some(t)) && consumer == old(consumer)
    {
      hide RingOk, HolderOk, WaitersOk, NoneStranded, Contents, Woken, LockWoken;
      ghost var q := Q();
      ghost var q' := PutLoopWorks(q, t, b);
      RingFacts(q);
      RingFacts(q');
      stored := NextPos(head) != tail;
      if !stored {
        FromLock(t, PutLock(b));
      } else {
        buf[head] := b;
        head := NextPos(head);
        accepted := accepted + [b];
        callers := callers[t := Caller(Away, false)];
        if consumer != None {
          ConsumerBlocked(q, t);
          IoqWakeup(consumer);
          consumer := None;
        }
      }
      assert Q() == q';
    }

    /** `lock_acquire` and, if the lock was free, `ioq_wait`. */
    method FromLock(t: Tid, call: Call)
      requires t in callers && !callers[t].blocked && !InWait(callers[t].call) && InLock(call) && Sync(Q())
      modifies this
      ensures (if call.GetLock? then GetFromLock(old(Q()), t) else PutFromLock(old(Q()), t, call.b)) == Went(Q())
      ensures LockOrWait(old(callers), callers, old(lock), lock, t, call,
                         if call.GetLock? then GetWait else PutWait(call.b))
      ensures consumer == if call.GetLock? && old(lock.value) != 0 then Some(t) else old(consumer)
      ensures producer == if call.PutLock? && old(lock.value) != 0 then Some(t) else old(producer)
    {
      if lock.value == 0 {
        assert t !in lock.waiters;
        lock := lock.(waiters := lock.waiters + [t]);
        callers := callers[t := Caller(call, true)];
      } else {
        NobodyWaits(Q());
        assert lock.value == 1 && lock.nr == 0;
        lock := Lock(Some(t), 0, lock.waiters, 1);
        if call.GetLock? {
          assert consumer == None;
          consumer := Some(t);
          callers := callers[t := Caller(GetWait, true)];
        } else {
          assert producer == None;
          producer := Some(t);
          callers := callers[t := Caller(PutWait(call.b), true)];
        }
      }
    }
  }

  lemma RingFacts(q: Queue)
    requires RingOk(q)
    ensures Shape(q) && (Empty(q) <==> Contents(q) == []) && (Full(q) <==> |Contents(q)| == 63) && |Contents(q)| <= 63
    ensures !Empty(q) ==> Contents(q)[0] == q.buf[q.tail]
  {
    FullIs63(q);
    if !Empty(q) {
      assert Contents(q)[0] == q.buf[Wrapped(q.tail + 0)];
    }
  }

  lemma ProducerBlocked(q: Queue, t: Tid)
    requires q.producer != None && AwakeAt(q, t, Away) && Sync(q)
    ensures q.producer.value in q.callers && q.producer.value != t && q.callers[q.producer.value].blocked
  {
  }

  lemma ConsumerBlocked(q: Queue, t: Tid)
    requires q.consumer != None && AwakeAt(q, t, Away) && Sync(q)
    ensures q.consumer.value in q.callers && q.consumer.value != t && q.callers[q.consumer.value].blocked
  {
  }
}
