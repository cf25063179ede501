/** Threads, the ready list and locks (v1-src/thread/thread.c, v1-src/thread/sync.c,
    v1-src/device/timer.c) as one state; every region the source runs with interrupts off, and every
    single access to a lock's fields, is one step. A failed ASSERT is a crash. */
module Sched {
  import opened Common

  type Tid = nat
  type Lid = nat

  datatype Status = Running | Ready | Blocked | Waiting | Hanging

  /** Where a thread stands: outside of sync.c, or at a point of lock_acquire or lock_release. */
  datatype Pc =
    | Out
    | Entering(l: Lid)    // before the loop of sema_down
    | Recheck(l: Lid)     // in the loop of sema_down after thread_block, with interrupts off
    | Taken(l: Lid)       // after sema_down: holder is to be written
    | Held(l: Lid)        // holder written: holder_repeat_nr is to be asserted 0
    | Count(l: Lid)       // holder_repeat_nr is to be set to 1
    | Last(l: Lid)        // lock_release: holder_repeat_nr is to be set to 0
    | Unheld(l: Lid)      // holder is to be set to NULL
    | Leaving(l: Lid)     // before sema_up

  /** `ticks` is the bit pattern of the source's int8_t, so every priority is covered. */
  datatype Thread = Thread(status: Status, priority: Byte, ticks: Byte, elapsed: Word, pc: Pc)

  datatype Lock = Lock(holder: Option<Tid>, value: Byte, waiters: seq<Tid>, nr: Word)

  /** The kernel's variables, and two histories: which thread went through a lock's sema_down and
      has not come to its sema_up, and each thread's lock_acquire calls less its lock_release calls. */
  datatype Sys = Sys(
    threads: map<Tid, Thread>,
    locks: map<Lid, Lock>,
    ready: seq<Tid>,
    cur: Tid,
    idle: Tid,
    clock: Word,
    owner: map<Lid, Tid>,
    nest: map<(Tid, Lid), nat>)

  datatype Result = Crash | Ok(s: Sys)

  // ---------- thread.c ----------

  predicate CanUnblock(st: Status) { st == Blocked || st == Waiting || st == Hanging }

  function WithStatus(s: Sys, t: Tid, st: Status): Sys
    requires t in s.threads
  {
    s.(threads := s.threads[t := s.threads[t].(status := st)])
  }

  function WithPc(s: Sys, t: Tid, pc: Pc): Sys
    requires t in s.threads
  {
    s.(threads := s.threads[t := s.threads[t].(pc := pc)])
  }

  /** `thread_unblock`. */
  function Unblocked(s: Sys, t: Tid): Result {
    if t !in s.threads || !CanUnblock(s.threads[t].status) || t in s.ready then Crash
    else Ok(WithStatus(s.(ready := [t] + s.ready), t, Ready))
  }

  /** The first half of `schedule`: a thread that could go on is queued with a fresh time slice. */
  function Requeued(s: Sys): Result {
    if s.cur !in s.threads then Crash
    else if s.threads[s.cur].status != Running then Ok(s)
    else if s.cur in s.ready then Crash
    else
      var t := s.threads[s.cur];
      Ok(s.(ready := s.ready + [s.cur], threads := s.threads[s.cur := t.(ticks := t.priority, status := Ready)]))
  }

  /** The second half: the first thread of the list runs. */
  function Dispatched(s: Sys): Result {
    if s.ready == [] || s.ready[0] !in s.threads then Crash
    else Ok(WithStatus(s.(ready := s.ready[1..], cur := s.ready[0]), s.ready[0], Running))
  }

  /** `schedule`. */
  function Scheduled(s: Sys): Result {
    var r := Requeued(s);
    if r.Crash? then Crash
    else
      var r1 := if r.s.ready == [] then Unblocked(r.s, r.s.idle) else r;
      if r1.Crash? then Crash else Dispatched(r1.s)
  }

  /** `thread_block`. */
  function BlockedAs(s: Sys, st: Status): Result {
    if s.cur !in s.threads || !CanUnblock(st) then Crash else Scheduled(WithStatus(s, s.cur, st))
  }

  /** `thread_start`: the new thread is ready. */
  function Started(s: Sys, t: Tid, prio: Byte): Result {
    if t in s.ready then Crash
    else Ok(s.(threads := s.threads[t := Thread(Ready, prio, prio, 0, Out)], ready := s.ready + [t]))
  }

  /** `intr_timer_handler`. */
  function Ticked(s: Sys): Result {
    if s.cur !in s.threads then Crash
    else
      var t := s.threads[s.cur];
      var t' := t.(elapsed := (t.elapsed + 1) % 0x1_0000_0000);
      var s1 := s.(threads := s.threads[s.cur := t'], clock := (s.clock + 1) % 0x1_0000_0000);
      if t.ticks == 0 then Scheduled(s1)
      else Ok(s1.(threads := s1.threads[s.cur := t'.(ticks := t.ticks - 1)]))
  }

  // ---------- sync.c ----------

  function Nest(nest: map<(Tid, Lid), nat>, t: Tid, l: Lid): nat { if (t, l) in nest then nest[(t, l)] else 0 }

  /** One pass through the loop of `sema_down` by the running thread; leaving the loop takes the
      semaphore. */
  function DownPass(s: Sys, l: Lid): Result {
    if s.cur !in s.threads || l !in s.locks then Crash
    else
      var k := s.locks[l];
      if k.value == 0 then
        if s.cur in k.waiters then Crash
        else BlockedAs(WithPc(s.(locks := s.locks[l := k.(waiters := k.waiters + [s.cur])]), s.cur, Recheck(l)),
            Blocked)
      else if k.value - 1 != 0 then Crash
      else Ok(WithPc(s.(locks := s.locks[l := k.(value := k.value - 1)], owner := s.owner[l := s.cur]), s.cur,
          Taken(l)))
  }

  /** `sema_up`, at the end of `lock_release`. */
  function Upped(s: Sys, l: Lid): Result {
    if s.cur !in s.threads || l !in s.locks || s.locks[l].value != 0 then Crash
    else
      var k := s.locks[l];
      var r := if k.waiters == [] then Ok(s)
          else Unblocked(s.(locks := s.locks[l := k.(waiters := k.waiters[1..])]), k.waiters[0]);
      if r.Crash? then Crash
      else
        var k' := r.s.locks[l];
        if k'.value + 1 != 1 then Crash
        else Ok(WithPc(r.s.(locks := r.s.locks[l := k'.(value := 1)], owner := r.s.owner - {l}), s.cur, Out))
  }

  /** The test at the head of `lock_acquire`; a holder only counts. */
  function AcquireTested(s: Sys, l: Lid): Result {
    if s.cur !in s.threads || l !in s.locks then Crash
    else
      var k := s.locks[l];
      if k.holder != Some(s.cur) then Ok(WithPc(s, s.cur, Entering(l)))
      else Ok(s.(locks := s.locks[l := k.(nr := (k.nr + 1) % 0x1_0000_0000)],
          nest := s.nest[(s.cur, l) := Nest(s.nest, s.cur, l) + 1]))
  }

  /** The assertion and the tests at the head of `lock_release`. */
  function ReleaseTested(s: Sys, l: Lid): Result {
    if s.cur !in s.threads || l !in s.locks || s.locks[l].holder != Some(s.cur)
        || Nest(s.nest, s.cur, l) == 0 then Crash
    else
      var k := s.locks[l];
      var s1 := s.(nest := s.nest[(s.cur, l) := Nest(s.nest, s.cur, l) - 1]);
      if k.nr > 1 then Ok(s1.(locks := s.locks[l := k.(nr := k.nr - 1)]))
      else if k.nr != 1 then Crash
      else Ok(WithPc(s1, s.cur, Last(l)))
  }

  /** The next step of a running thread that is inside sync.c. */
  function Continued(s: Sys): Result {
    if s.cur !in s.threads then Crash
    else match s.threads[s.cur].pc
      case Out => Ok(s)
      case Entering(l) => DownPass(s, l)
      case Recheck(l) => DownPass(s, l)
      case Leaving(l) => Upped(s, l)
      case Taken(l) =>
        if l !in s.locks then Crash
            else Ok(WithPc(s.(locks := s.locks[l := s.locks[l].(holder := Some(s.cur))]), s.cur, Held(l)))
      case Held(l) =>
        if l !in s.locks || s.locks[l].nr != 0 then Crash else Ok(WithPc(s, s.cur, Count(l)))
      case Count(l) =>
        if l !in s.locks then Crash
        else Ok(WithPc(s.(locks := s.locks[l := s.locks[l].(nr := 1)],
            nest := s.nest[(s.cur, l) := Nest(s.nest, s.cur, l) + 1]), s.cur, Out))
      case Last(l) =>
        if l !in s.locks then Crash else Ok(WithPc(s.(locks := s.locks[l := s.locks[l].(nr := 0)]), s.cur, Unheld(l)))
      case Unheld(l) =>
        if l !in s.locks then Crash
            else Ok(WithPc(s.(locks := s.locks[l := s.locks[l].(holder := None)]), s.cur, Leaving(l)))
  }

  // ---------- runs ----------

  datatype Event =
    | Timer                            // a timer interrupt
    | Start(t: Tid, prio: Byte)        // thread_start
    | Block(st: Status)                // thread_block outside of sync.c
    | Unblock(t: Tid)                  // thread_unblock outside of sync.c, by the running thread or a handler
    | Acquire(l: Lid)                  // lock_acquire is called
    | Release(l: Lid)                  // lock_release is called
    | Continue                         // the running thread goes on inside sync.c

  /** Interrupts are off only while a thread is inside the loop of sema_down; a thread blocks and
      is unblocked from outside only outside of sync.c; only the idle thread does nothing but
      block; lock_release is called as often as lock_acquire. */
  predicate Enabled(s: Sys, e: Event) {
    && s.cur in s.threads
    && var pc := s.threads[s.cur].pc;
       match e
       case Timer => !pc.Recheck?
       case Start(t, prio) => pc == Out && t !in s.threads && s.cur != s.idle
       case Block(st) => pc == Out && CanUnblock(st) && (s.cur == s.idle ==> st == Blocked)
       case Unblock(t) => !pc.Recheck? && t in s.threads && t != s.idle && s.threads[t].pc == Out
           && CanUnblock(s.threads[t].status)
       case Acquire(l) => pc == Out && s.cur != s.idle && l in s.locks && s.locks[l].nr < 0xFFFF_FFFF
       case Release(l) => pc == Out && s.cur != s.idle && l in s.locks && Nest(s.nest, s.cur, l) > 0
       case Continue => pc != Out
  }

  function Step(s: Sys, e: Event): Result {
    match e
    case Timer => Ticked(s)
    case Start(t, prio) => Started(s, t, prio)
    case Block(st) => BlockedAs(s, st)
    case Unblock(t) => Unblocked(s, t)
    case Acquire(l) => AcquireTested(s, l)
    case Release(l) => ReleaseTested(s, l)
    case Continue => Continued(s)
  }

  /** The state after a run; a run stops where an event is not enabled. */
  function Run(s: Sys, es: seq<Event>): Result
    decreases |es|
  {
    if es == [] then Ok(s)
    else if !Enabled(s, es[0]) then Ok(s)
    else var r := Step(s, es[0]); if r.Crash? then Crash else Run(r.s, es[1..])
  }

  // ---------- the invariant ----------

  predicate NoDup(xs: seq<Tid>) {
    forall i, j :: 0 <= i < j < |xs| ==> xs[i] != xs[j]
  }

  predicate Awake(st: Status) { st == Running || st == Ready }

  /** Exactly one thread is RUNNING; the READY ones are those on the ready list, once each. */
  ghost predicate ReadyOk(s: Sys) {
    && s.cur in s.threads && s.threads[s.cur].status == Running
    && (forall t :: t in s.threads && s.threads[t].status == Running ==> t == s.cur)
    && QueueOk(s)
  }

  ghost predicate QueueOk(s: Sys) {
    && (forall t :: t in s.ready <==> t in s.threads && s.threads[t].status == Ready)
    && NoDup(s.ready)
  }

  ghost predicate IdleOk(s: Sys) {
    s.idle in s.threads && s.threads[s.idle].pc == Out
        && (Awake(s.threads[s.idle].status) || s.threads[s.idle].status == Blocked)
  }

  /** A thread is on a lock's waiter list exactly while it is blocked in that lock's sema_down. */
  ghost predicate WaitOk(s: Sys) {
    && (forall l :: l in s.locks ==> NoDup(s.locks[l].waiters))
    && (forall t, l :: l in s.locks && t in s.locks[l].waiters ==>
          t in s.threads && s.threads[t].pc == Recheck(l) && s.threads[t].status == Blocked)
    && (forall t :: t in s.threads && s.threads[t].pc != Out ==>
          && s.threads[t].pc.l in s.locks
          && (Awake(s.threads[t].status)
              || (s.threads[t].pc.Recheck? && s.threads[t].status == Blocked
              && t in s.locks[s.threads[t].pc.l].waiters)))
  }

  /** The points of lock_acquire and lock_release between sema_down and sema_up. */
  predicate IsInside(pc: Pc) { pc.Taken? || pc.Held? || pc.Count? || pc.Last? || pc.Unheld? || pc.Leaving? }

  /** What a lock's fields are while thread t is inside, given where t stands. */
  predicate Fields(k: Lock, t: Tid, l: Lid, pc: Pc, nest: nat) {
    if pc == Taken(l) || pc == Leaving(l) then k.holder == None && k.nr == 0 && nest == 0
    else if pc == Held(l) || pc == Count(l) || pc == Unheld(l) then k.holder == Some(t) && k.nr == 0 && nest == 0
    else if pc == Last(l) then k.holder == Some(t) && k.nr == 1 && nest == 0
    else k.holder == Some(t) && k.nr == nest && nest > 0
  }

  /** At most one thread is inside, its nesting is counted, and the semaphore is 0 exactly then. */
  ghost predicate LockOk(s: Sys, l: Lid)
    requires l in s.locks
  {
    var k := s.locks[l];
    if l in s.owner then
      && k.value == 0 && s.owner[l] in s.threads
      && s.threads[s.owner[l]].pc != Entering(l) && s.threads[s.owner[l]].pc != Recheck(l)
      && Fields(k, s.owner[l], l, s.threads[s.owner[l]].pc, Nest(s.nest, s.owner[l], l))
    else k.value == 1 && k.holder == None && k.nr == 0
  }

  ghost predicate LocksOk(s: Sys) {
    && (forall l :: l in s.locks ==> LockOk(s, l))
    && (forall t :: t in s.threads && IsInside(s.threads[t].pc) ==>
        s.threads[t].pc.l in s.owner && s.owner[s.threads[t].pc.l] == t)
    && (forall t, l :: Nest(s.nest, t, l) > 0 ==> l in s.owner && s.owner[l] == t)
  }

  /** A free semaphore with waiters has a woken thread that is still to look at it. */
  ghost predicate NoWakeupLost(s: Sys) {
    forall l :: l in s.locks && s.locks[l].value == 1 && s.locks[l].waiters != [] ==>
      exists t :: t in s.threads && s.threads[t].pc == Recheck(l) && Awake(s.threads[t].status)
  }

  ghost predicate Inv(s: Sys) {
    ReadyOk(s) && IdleOk(s) && WaitOk(s) && LocksOk(s) && NoWakeupLost(s)
  }

  // ---------- schedule ----------

  /** What holds when `schedule` is called: the current thread is RUNNING or has just blocked. */
  ghost predicate BeforeSchedule(s: Sys) {
    && s.cur in s.threads && s.threads[s.cur].status != Ready
    && (forall t :: t in s.threads && s.threads[t].status == Running ==> t == s.cur)
    && QueueOk(s) && IdleOk(s)
  }

  ghost predicate NobodyRuns(s: Sys) {
    forall t :: t in s.threads ==> s.threads[t].status != Running
  }

  /** Threads inside sync.c sleep on or stay awake where they are; threads outside may change. */
  ghost predicate SameSleepers(s: Sys, s': Sys) {
    && s'.locks == s.locks && s'.owner == s.owner && s'.nest == s.nest && s'.idle == s.idle
    && (forall t :: t in s.threads ==> t in s'.threads && s'.threads[t].pc == s.threads[t].pc)
    && (forall t :: t in s'.threads && s'.threads[t].pc != Out ==>
          && t in s.threads
          && (Awake(s.threads[t].status) ==> Awake(s'.threads[t].status))
          && (!Awake(s.threads[t].status) ==> s'.threads[t].status == s.threads[t].status))
  }

  lemma RequeueWorks(s: Sys) returns (s': Sys)
    requires BeforeSchedule(s)
    ensures Requeued(s) == Ok(s') && QueueOk(s') && NobodyRuns(s') && IdleOk(s') && SameSleepers(s, s')
            && s'.cur == s.cur
  {
    s' := Requeued(s).s;
    if s.threads[s.cur].status == Running {
      assert s'.ready == s.ready + [s.cur];
    }
  }

  /** With nothing ready and nobody running, the idle thread is blocked. */
  lemma WakeIdleWorks(s: Sys) returns (s': Sys)
    requires QueueOk(s) && NobodyRuns(s) && IdleOk(s) && s.ready == []
    ensures Unblocked(s, s.idle) == Ok(s') && QueueOk(s') && NobodyRuns(s') && IdleOk(s') && SameSleepers(s, s')
            && s'.ready != []
  {
    assert s.threads[s.idle].status != Ready;
    s' := Unblocked(s, s.idle).s;
  }

  lemma DispatchWorks(s: Sys) returns (s': Sys)
    requires QueueOk(s) && NobodyRuns(s) && IdleOk(s) && s.ready != []
    ensures Dispatched(s) == Ok(s') && ReadyOk(s') && IdleOk(s') && SameSleepers(s, s')
  {
    assert s.ready[0] in s.ready;
    s' := Dispatched(s).s;
    TailOf(s.ready);
  }

  /** No assertion of `schedule` fails (the idle thread is blocked whenever nothing is ready), and
      afterwards exactly one thread runs. */
  lemma ScheduleWorks(s: Sys) returns (s': Sys)
    requires BeforeSchedule(s)
    ensures Scheduled(s) == Ok(s') && ReadyOk(s') && IdleOk(s') && SameSleepers(s, s')
  {
    hide QueueOk, IdleOk, Requeued, Dispatched, Unblocked, NobodyRuns, BeforeSchedule, ReadyOk;
    var s1 := RequeueWorks(s);
    if s1.ready == [] {
      s1 := WakeIdleWorks(s1);
    }
    s' := DispatchWorks(s1);
  }

  lemma SleepersKeepWaiters(s: Sys, s': Sys)
    requires SameSleepers(s, s') && WaitOk(s)
    ensures WaitOk(s')
  {
  }

  lemma SleepersKeepHolders(s: Sys, s': Sys)
    requires SameSleepers(s, s') && LocksOk(s)
    ensures LocksOk(s')
  {
    forall l | l in s'.locks ensures LockOk(s', l) {
      assert LockOk(s, l);
      hide LocksOk;
    }
  }

  /** Locks and waiters do not notice what threads outside do. */
  lemma SleepersKeepLocks(s: Sys, s': Sys)
    requires SameSleepers(s, s') && WaitOk(s) && LocksOk(s) && NoWakeupLost(s)
    ensures WaitOk(s') && LocksOk(s') && NoWakeupLost(s')
  {
    hide WaitOk, LocksOk, NoWakeupLost;
    SleepersKeepWaiters(s, s');
    SleepersKeepHolders(s, s');
    StillWoken(s, s');
  }

  /** A woken thread that stays woken. */
  lemma StillWoken(s: Sys, s': Sys)
    requires NoWakeupLost(s)
    requires forall l :: l in s'.locks && s'.locks[l].value == 1 && s'.locks[l].waiters != [] ==>
             l in s.locks && s.locks[l].value == 1 && s.locks[l].waiters != []
    requires forall t :: t in s.threads && s.threads[t].pc.Recheck? && Awake(s.threads[t].status) ==>
      t in s'.threads && s'.threads[t].pc == s.threads[t].pc && Awake(s'.threads[t].status)
    ensures NoWakeupLost(s')
  {
    forall l | l in s'.locks && s'.locks[l].value == 1 && s'.locks[l].waiters != []
      ensures exists t :: t in s'.threads && s'.threads[t].pc == Recheck(l) && Awake(s'.threads[t].status)
    {
      var t :| t in s.threads && s.threads[t].pc == Recheck(l) && Awake(s.threads[t].status);
      assert s'.threads[t].pc == Recheck(l);
    }
  }

  /** `schedule` in a state whose locks are right. */
  lemma ScheduleKeepsInv(s: Sys) returns (s': Sys)
    requires BeforeSchedule(s) && WaitOk(s) && LocksOk(s) && NoWakeupLost(s)
    ensures Scheduled(s) == Ok(s') && Inv(s')
  {
    hide BeforeSchedule, WaitOk, LocksOk, NoWakeupLost, Scheduled, SameSleepers;
    s' := ScheduleWorks(s);
    SleepersKeepLocks(s, s');
  }

  lemma TimerKeepsInv(s: Sys)
    requires Enabled(s, Timer)
    requires Inv(s)
    ensures Ticked(s).Ok? && Inv(Ticked(s).s)
  {
    hide ReadyOk, IdleOk, WaitOk, LocksOk, NoWakeupLost, Scheduled, SameSleepers;
    var t := s.threads[s.cur];
    var t' := t.(elapsed := (t.elapsed + 1) % 0x1_0000_0000);
    if t.ticks == 0 {
      var s1 := s.(threads := s.threads[s.cur := t'], clock := (s.clock + 1) % 0x1_0000_0000);
      CountersOnly(s, s1, t');
      BeforeScheduleFromInv(s1);
      var s2 := ScheduleKeepsInv(s1);
    } else {
      CountersOnly(s, Ticked(s).s, t'.(ticks := t.ticks - 1));
    }
  }

  /** Counting ticks keeps everything else. */
  lemma CountersOnly(s: Sys, s': Sys, t': Thread)
    requires s.cur in s.threads && t'.status == s.threads[s.cur].status && t'.pc == s.threads[s.cur].pc
    requires s' == s.(threads := s.threads[s.cur := t'], clock := s'.clock)
    requires Inv(s)
    ensures Inv(s')
  {
    hide WaitOk, LocksOk, NoWakeupLost;
    SleepersKeepLocks(s, s');
  }

  lemma BeforeScheduleFromInv(s: Sys)
    requires Inv(s)
    ensures BeforeSchedule(s)
  {
    hide WaitOk, LocksOk, NoWakeupLost, QueueOk, IdleOk;
  }

  lemma StartKeepsInv(s: Sys, t: Tid, prio: Byte)
    requires Enabled(s, Start(t, prio))
    requires Inv(s)
    ensures Started(s, t, prio).Ok? && Inv(Started(s, t, prio).s)
  {
    hide WaitOk, LocksOk, NoWakeupLost;
    assert t !in s.ready;
    SleepersKeepLocks(s, Started(s, t, prio).s);
  }

  lemma BlockKeepsInv(s: Sys, st: Status)
    requires Enabled(s, Block(st))
    requires Inv(s)
    ensures BlockedAs(s, st).Ok? && Inv(BlockedAs(s, st).s)
  {
    hide WaitOk, LocksOk, NoWakeupLost, Scheduled;
    SleepersKeepLocks(s, WithStatus(s, s.cur, st));
    var s' := ScheduleKeepsInv(WithStatus(s, s.cur, st));
  }

  lemma UnblockKeepsInv(s: Sys, t: Tid)
    requires Enabled(s, Unblock(t))
    requires Inv(s)
    ensures Unblocked(s, t).Ok? && Inv(Unblocked(s, t).s)
  {
    hide WaitOk, LocksOk, NoWakeupLost;
    assert t !in s.ready;
    SleepersKeepLocks(s, Unblocked(s, t).s);
  }

  // ---------- lock_acquire and lock_release ----------

  /** The running thread moves inside sync.c at lock l, and only that lock's fields change. */
  ghost predicate LockMove(s: Sys, s': Sys, l: Lid) {
    && s.cur in s.threads && s.threads[s.cur].status == Running && s.cur != s.idle && l in s.locks
        && s'.locks.Keys == s.locks.Keys
    && s'.cur == s.cur && s'.idle == s.idle && s'.ready == s.ready && s'.threads.Keys == s.threads.Keys
    && (forall t :: t in s.threads && t != s.cur ==> s'.threads[t] == s.threads[t])
    && s'.threads[s.cur].status == Running && !s'.threads[s.cur].pc.Recheck?
    && (s.threads[s.cur].pc == Out || s.threads[s.cur].pc.l == l)
        && (s'.threads[s.cur].pc == Out || s'.threads[s.cur].pc.l == l)
    && s'.locks[l].waiters == s.locks[l].waiters
    && (forall k :: k in s.locks && k != l ==> s'.locks[k] == s.locks[k])
    && (forall k :: k != l ==> (k in s'.owner <==> k in s.owner) && (k in s.owner ==> s'.owner[k] == s.owner[k]))
    && (forall t: Tid, k: Lid :: (t, k) != (s.cur, l) ==> Nest(s'.nest, t, k) == Nest(s.nest, t, k))
    && (l in s.owner && s.owner[l] != s.cur ==> l in s'.owner && s'.owner[l] == s.owner[l])
  }

  /** What remains to be shown of such a move. */
  ghost predicate MoveOk(s': Sys, l: Lid) {
    && l in s'.locks && s'.cur in s'.threads && LockOk(s', l)
    && (IsInside(s'.threads[s'.cur].pc) || Nest(s'.nest, s'.cur, l) > 0 ==> l in s'.owner && s'.owner[l] == s'.cur)
  }

  lemma MoveKeepsLocks(s: Sys, s': Sys, l: Lid)
    requires LockMove(s, s', l) && MoveOk(s', l) && LocksOk(s)
    ensures LocksOk(s')
  {
    hide Fields;
    forall k | k in s'.locks ensures LockOk(s', k) {
      if k != l {
        MoveKeepsOtherLock(s, s', l, k);
      }
    }
    forall t: Tid, k: Lid | Nest(s'.nest, t, k) > 0 ensures k in s'.owner && s'.owner[k] == t {
      if (t, k) != (s.cur, l) {
        assert Nest(s.nest, t, k) > 0;
      }
    }
  }

  lemma MoveKeepsOtherLock(s: Sys, s': Sys, l: Lid, k: Lid)
    requires LockMove(s, s', l) && LocksOk(s) && k in s.locks && k != l
    ensures LockOk(s', k)
  {
    assert LockOk(s, k);
    hide LocksOk;
    if k in s.owner {
      assert Nest(s'.nest, s.owner[k], k) == Nest(s.nest, s.owner[k], k);
    }
  }

  lemma MoveKeepsWaiters(s: Sys, s': Sys, l: Lid)
    requires LockMove(s, s', l) && WaitOk(s)
    ensures WaitOk(s')
  {
    assert SameWaiters(s, s') by { hide WaitOk, NoDup; }
    hide LockMove;
    WaitersFollow(s, s');
  }

  /** All waiter lists are the same; only the running thread stands somewhere else, and it waits nowhere. */
  ghost predicate SameWaiters(s: Sys, s': Sys) {
    && s.cur in s.threads && s.threads[s.cur].status == Running
    && s'.locks.Keys == s.locks.Keys && (forall k :: k in s.locks ==> s'.locks[k].waiters == s.locks[k].waiters)
    && s'.threads.Keys == s.threads.Keys && (forall t :: t in s.threads && t != s.cur ==> s'.threads[t] == s.threads[t])
    && s'.threads[s.cur].status == Running && (s'.threads[s.cur].pc != Out ==> s'.threads[s.cur].pc.l in s.locks)
  }

  lemma WaitersFollow(s: Sys, s': Sys)
    requires SameWaiters(s, s') && WaitOk(s)
    ensures WaitOk(s')
  {
    hide NoDup;
  }

  /** Some woken thread is to look at lock l. */
  ghost predicate HasWoken(s: Sys, l: Lid) {
    exists t :: t in s.threads && s.threads[t].pc == Recheck(l) && Awake(s.threads[t].status)
  }

  lemma MoveKeepsWoken(s: Sys, s': Sys, l: Lid)
    requires LockMove(s, s', l) && NoWakeupLost(s)
    requires s'.locks[l].value == 1 && s'.locks[l].waiters != [] ==> HasWoken(s', l)
    ensures NoWakeupLost(s')
  {
    forall k | k in s'.locks && s'.locks[k].value == 1 && s'.locks[k].waiters != []
      ensures exists t :: t in s'.threads && s'.threads[t].pc == Recheck(k) && Awake(s'.threads[t].status)
    {
      if k != l {
        var t :| t in s.threads && s.threads[t].pc == Recheck(k) && Awake(s.threads[t].status);
        assert s'.threads[t].pc == Recheck(k);
      }
    }
  }

  lemma MoveKeepsQueue(s: Sys, s': Sys, l: Lid)
    requires LockMove(s, s', l) && ReadyOk(s) && IdleOk(s)
    ensures ReadyOk(s') && IdleOk(s')
  {
  }

  lemma MoveWithWoken(s: Sys, s': Sys, l: Lid)
    requires LockMove(s, s', l) && MoveOk(s', l)
    requires s'.locks[l].value == 1 && s'.locks[l].waiters != [] ==> HasWoken(s', l)
    requires Inv(s)
    ensures Inv(s')
  {
    hide LocksOk, WaitOk, MoveOk, NoWakeupLost, HasWoken;
    MoveKeepsWoken(s, s', l);
    MoveKeepsLocks(s, s', l);
    MoveKeepsWaiters(s, s', l);
    MoveKeepsQueue(s, s', l);
    hide ReadyOk, IdleOk, LockMove;
  }

  lemma MoveKeepsInv(s: Sys, s': Sys, l: Lid)
    requires LockMove(s, s', l) && MoveOk(s', l) && s'.locks[l].value <= s.locks[l].value
    requires s.threads[s.cur].pc.Recheck? ==> s'.locks[l].value == 0
    requires Inv(s)
    ensures Inv(s')
  {
    if s'.locks[l].value == 1 && s'.locks[l].waiters != [] {
      WokenBefore(s, l);
      var t :| t in s.threads && s.threads[t].pc == Recheck(l) && Awake(s.threads[t].status);
      assert s'.threads[t].pc == Recheck(l);
      assert HasWoken(s', l);
    }
    hide Inv, LockMove, MoveOk;
    MoveWithWoken(s, s', l);
  }

  lemma WokenBefore(s: Sys, l: Lid)
    requires l in s.locks && s.locks[l].waiters != [] && s.locks[l].value != 0
    requires Inv(s)
    ensures HasWoken(s, l)
  {
    hide ReadyOk, IdleOk, WaitOk;
    assert LockOk(s, l);
  }

  lemma LockFacts(s: Sys, l: Lid)
    requires l in s.locks
    requires Inv(s)
    ensures LockOk(s, l) && s.cur in s.threads && s.threads[s.cur].status == Running
    ensures IsInside(s.threads[s.cur].pc) ==>
            && s.threads[s.cur].pc.l in s.owner
            && s.owner[s.threads[s.cur].pc.l] == s.cur
    ensures Nest(s.nest, s.cur, l) > 0 ==> l in s.owner && s.owner[l] == s.cur
    ensures s.threads[s.cur].pc != Out ==> s.threads[s.cur].pc.l in s.locks && s.cur != s.idle
    ensures s.cur !in s.locks[l].waiters && s.cur !in s.ready
  {
    hide NoWakeupLost;
  }

  /** An acquire by the holder counts; by anybody else it goes on to the semaphore. */
  lemma AcquireKeepsInv(s: Sys, l: Lid)
    requires Enabled(s, Acquire(l))
    requires Inv(s)
    ensures AcquireTested(s, l).Ok? && Inv(AcquireTested(s, l).s)
  {
    hide Inv;
    LockFacts(s, l);
    MoveKeepsInv(s, AcquireTested(s, l).s, l);
  }

  lemma ReleaseKeepsInv(s: Sys, l: Lid)
    requires Enabled(s, Release(l))
    requires Inv(s)
    ensures ReleaseTested(s, l).Ok? && Inv(ReleaseTested(s, l).s)
  {
    hide Inv;
    LockFacts(s, l);
    MoveKeepsInv(s, ReleaseTested(s, l).s, l);
  }

  /** The steps of lock_acquire after sema_down: the assertion that the count is 0 holds. */
  lemma AcquireStepKeepsInv(s: Sys)
    requires Enabled(s, Continue)
    requires var pc := s.threads[s.cur].pc; pc.Taken? || pc.Held? || pc.Count?
    requires Inv(s)
    ensures Continued(s).Ok? && Inv(Continued(s).s)
  {
    hide Inv, DownPass, Upped;
    var l := s.threads[s.cur].pc.l;
    PcLockExists(s);
    LockFacts(s, l);
    MoveKeepsInv(s, Continued(s).s, l);
  }

  /** The steps of lock_release before sema_up. */
  lemma ReleaseStepKeepsInv(s: Sys)
    requires Enabled(s, Continue)
    requires var pc := s.threads[s.cur].pc; pc.Last? || pc.Unheld?
    requires Inv(s)
    ensures Continued(s).Ok? && Inv(Continued(s).s)
  {
    hide Inv;
    var l := s.threads[s.cur].pc.l;
    PcLockExists(s);
    LockFacts(s, l);
    MoveKeepsInv(s, Continued(s).s, l);
  }

  lemma PcLockExists(s: Sys)
    requires s.cur in s.threads && s.threads[s.cur].pc != Out
    requires Inv(s)
    ensures s.threads[s.cur].pc.l in s.locks
  {
    hide NoWakeupLost, LocksOk, ReadyOk;
  }

  /** Taking the semaphore: nobody else is inside. */
  lemma TakeKeepsInv(s: Sys, l: Lid)
    requires s.cur in s.threads && l in s.locks
             && (s.threads[s.cur].pc == Entering(l) || s.threads[s.cur].pc == Recheck(l)) && s.locks[l].value != 0
    requires Inv(s)
    ensures DownPass(s, l).Ok? && Inv(DownPass(s, l).s)
  {
    hide Inv;
    LockFacts(s, l);
    MoveKeepsInv(s, DownPass(s, l).s, l);
  }

  /** The state in which `sema_down` calls `schedule`. */
  function Enqueued(s: Sys, l: Lid): Sys
    requires s.cur in s.threads && l in s.locks
  {
    var k := s.locks[l];
    WithStatus(WithPc(s.(locks := s.locks[l := k.(waiters := k.waiters + [s.cur])]), s.cur, Recheck(l)), s.cur, Blocked)
  }

  lemma EnqueuedWaiters(s: Sys, l: Lid)
    requires s.cur in s.threads && l in s.locks
             && (s.threads[s.cur].pc == Entering(l) || s.threads[s.cur].pc == Recheck(l)) && s.locks[l].value == 0
    requires Inv(s)
    ensures WaitOk(Enqueued(s, l))
  {
    hide NoWakeupLost, LocksOk, ReadyOk, LockOk, IdleOk;
    LockFacts(s, l);
    var s' := Enqueued(s, l);
    assert s'.locks[l].waiters == s.locks[l].waiters + [s.cur];
    assert NoDup(s'.locks[l].waiters);
    hide NoDup;
  }

  lemma EnqueuedLocks(s: Sys, l: Lid)
    requires s.cur in s.threads && l in s.locks
             && (s.threads[s.cur].pc == Entering(l) || s.threads[s.cur].pc == Recheck(l)) && s.locks[l].value == 0
    requires Inv(s)
    ensures LocksOk(Enqueued(s, l))
  {
    hide NoWakeupLost, WaitOk, ReadyOk, IdleOk;
    LockFacts(s, l);
    var s' := Enqueued(s, l);
    forall k | k in s'.locks ensures LockOk(s', k) {
      assert LockOk(s, k);
      hide LocksOk;
    }
  }

  lemma EnqueuedWoken(s: Sys, l: Lid)
    requires s.cur in s.threads && l in s.locks
             && (s.threads[s.cur].pc == Entering(l) || s.threads[s.cur].pc == Recheck(l)) && s.locks[l].value == 0
    requires Inv(s)
    ensures NoWakeupLost(Enqueued(s, l)) && BeforeSchedule(Enqueued(s, l))
  {
    hide LocksOk, WaitOk, LockOk;
    LockFacts(s, l);
    var s' := Enqueued(s, l);
    forall k | k in s'.locks && s'.locks[k].value == 1 && s'.locks[k].waiters != []
      ensures exists t :: t in s'.threads && s'.threads[t].pc == Recheck(k) && Awake(s'.threads[t].status)
    {
      var t :| t in s.threads && s.threads[t].pc == Recheck(k) && Awake(s.threads[t].status);
      assert s'.threads[t].pc == Recheck(k) && t != s.cur;
    }
  }

  /** Going to sleep on a taken semaphore. */
  lemma SleepKeepsInv(s: Sys, l: Lid)
    requires s.cur in s.threads && l in s.locks
             && (s.threads[s.cur].pc == Entering(l) || s.threads[s.cur].pc == Recheck(l)) && s.locks[l].value == 0
    requires Inv(s)
    ensures DownPass(s, l).Ok? && Inv(DownPass(s, l).s)
  {
    hide Inv, WaitOk, LocksOk, NoWakeupLost, BeforeSchedule, Scheduled, LockOk;
    LockFacts(s, l);
    EnqueuedWaiters(s, l);
    EnqueuedLocks(s, l);
    EnqueuedWoken(s, l);
    var s' := ScheduleKeepsInv(Enqueued(s, l));
  }

  /** The first waiter is woken; it still has to look at the semaphore. */
  lemma WakeKeepsInv(s: Sys, l: Lid) returns (s': Sys)
    requires l in s.locks && s.locks[l].waiters != [] && s.locks[l].value == 0
    requires Inv(s)
    ensures Unblocked(s.(locks := s.locks[l := s.locks[l].(waiters := s.locks[l].waiters[1..])]), s.locks[l].waiters[0])
            == Ok(s')
    ensures Inv(s') && HasWoken(s', l) && s'.cur == s.cur && s'.owner == s.owner && s'.nest == s.nest
    ensures s'.locks == s.locks[l := s.locks[l].(waiters := s.locks[l].waiters[1..])]
    ensures s.cur in s.threads && s.cur in s'.threads && s'.threads[s.cur] == s.threads[s.cur]
  {
    hide LocksOk, WaitOk, NoWakeupLost, ReadyOk, IdleOk;
    var k := s.locks[l];
    var w := k.waiters[0];
    FirstWaiter(s, l);
    var s0 := s.(locks := s.locks[l := k.(waiters := k.waiters[1..])]);
    WakeReady(s, s0, w);
    s' := Unblocked(s0, w).s;
    assert s'.threads[w].pc == Recheck(l) && Awake(s'.threads[w].status);
    WakeWaiters(s, s', l, w);
    WakeLocks(s, s', l, w);
  }

  lemma FirstWaiter(s: Sys, l: Lid)
    requires l in s.locks && s.locks[l].waiters != []
    requires Inv(s)
    ensures var w := s.locks[l].waiters[0];
            w in s.threads && s.threads[w].pc == Recheck(l) && s.threads[w].status == Blocked && w != s.cur
    ensures s.cur in s.threads
  {
    hide LocksOk, NoWakeupLost, IdleOk;
    assert s.locks[l].waiters[0] in s.locks[l].waiters;
  }

  lemma WakeReady(s: Sys, s0: Sys, w: Tid)
    requires w in s.threads && s.threads[w].status == Blocked && s0 == s.(locks := s0.locks)
    requires Inv(s)
    ensures Unblocked(s0, w).Ok? && ReadyOk(Unblocked(s0, w).s) && IdleOk(Unblocked(s0, w).s)
  {
    hide LocksOk, WaitOk, NoWakeupLost;
    assert w !in s.ready;
  }

  ghost predicate Woke(s: Sys, s': Sys, l: Lid, w: Tid) {
    && l in s.locks && s.locks[l].waiters != [] && w == s.locks[l].waiters[0] && w in s.threads
    && s'.threads == s.threads[w := s.threads[w].(status := Ready)]
    && s'.locks == s.locks[l := s.locks[l].(waiters := s.locks[l].waiters[1..])]
    && s'.owner == s.owner && s'.nest == s.nest
  }

  lemma WakeWaiters(s: Sys, s': Sys, l: Lid, w: Tid)
    requires Woke(s, s', l, w) && WaitOk(s)
    ensures WaitOk(s')
  {
    var xs := s.locks[l].waiters;
    TailOf(xs);
    hide NoDup;
    forall k | k in s'.locks && k != l ensures w !in s'.locks[k].waiters {
      assert w in xs;
    }
  }

  lemma TailOf(xs: seq<Tid>)
    requires xs != [] && NoDup(xs)
    ensures NoDup(xs[1..]) && xs[0] !in xs[1..] && forall t :: t in xs <==> t == xs[0] || t in xs[1..]
  {
    assert xs == [xs[0]] + xs[1..];
    forall i | 0 <= i < |xs[1..]| ensures xs[1..][i] != xs[0] { assert xs[1..][i] == xs[i + 1]; }
  }

  lemma WakeLocks(s: Sys, s': Sys, l: Lid, w: Tid)
    requires Woke(s, s', l, w) && LocksOk(s) && NoWakeupLost(s) && s.locks[l].value == 0
    ensures LocksOk(s') && NoWakeupLost(s')
  {
    assert NoWakeupLost(s') by { hide LocksOk; StillWoken(s, s'); }
    hide NoWakeupLost;
    forall k | k in s'.locks ensures LockOk(s', k) {
      assert LockOk(s, k);
      hide LocksOk;
    }
  }

  /** `sema_up` wakes the first waiter, who still has to look at the free semaphore. */
  lemma UpKeepsInv(s: Sys, l: Lid)
    requires s.cur in s.threads && l in s.locks && s.threads[s.cur].pc == Leaving(l)
    requires Inv(s)
    ensures Upped(s, l).Ok? && Inv(Upped(s, l).s)
  {
    hide Inv, Unblocked, HasWoken;
    LockFacts(s, l);
    if s.locks[l].waiters == [] {
      MoveWithWoken(s, Upped(s, l).s, l);
    } else {
      var s1 := WakeKeepsInv(s, l);
      LockFacts(s1, l);
      var s' := Upped(s, l).s;
      WokenStays(s1, s', l);
      MoveWithWoken(s1, s', l);
    }
  }

  lemma WokenStays(s: Sys, s': Sys, l: Lid)
    requires HasWoken(s, l) && s.cur in s.threads && !s.threads[s.cur].pc.Recheck?
    requires forall t :: t in s.threads && t != s.cur ==> t in s'.threads && s'.threads[t] == s.threads[t]
    ensures HasWoken(s', l)
  {
  }

  // ---------- every run ----------

  /** No ASSERT fails at any step, and the invariant stays. */
  lemma StepKeepsInv(s: Sys, e: Event)
    requires Enabled(s, e)
    requires Inv(s)
    ensures Step(s, e).Ok? && Inv(Step(s, e).s)
  {
    hide Inv, Ticked, Started, BlockedAs, Unblocked, AcquireTested, ReleaseTested, DownPass, Upped;
    match e
    case Timer => TimerKeepsInv(s);
    case Start(t, prio) => StartKeepsInv(s, t, prio);
    case Block(st) => BlockKeepsInv(s, st);
    case Unblock(t) => UnblockKeepsInv(s, t);
    case Acquire(l) => AcquireKeepsInv(s, l);
    case Release(l) => ReleaseKeepsInv(s, l);
    case Continue =>
      PcLockExists(s);
      match s.threads[s.cur].pc
      case Entering(l) => if s.locks[l].value == 0 { SleepKeepsInv(s, l); } else { TakeKeepsInv(s, l); }
      case Recheck(l) => if s.locks[l].value == 0 { SleepKeepsInv(s, l); } else { TakeKeepsInv(s, l); }
      case Leaving(l) => UpKeepsInv(s, l);
      case Taken(_) => AcquireStepKeepsInv(s);
      case Held(_) => AcquireStepKeepsInv(s);
      case Count(_) => AcquireStepKeepsInv(s);
      case Last(_) => ReleaseStepKeepsInv(s);
      case Unheld(_) => ReleaseStepKeepsInv(s);
  }

  /** Over every run from a good state: no assertion fails and the invariant holds at the end. */
  lemma {:induction false} EveryRunIsSafe(s: Sys, es: seq<Event>)
    requires Inv(s)
    ensures Run(s, es).Ok? && Inv(Run(s, es).s)
    decreases |es|
  {
    hide Inv, Step;
    if es != [] && Enabled(s, es[0]) {
      StepKeepsInv(s, es[0]);
      EveryRunIsSafe(Step(s, es[0]).s, es[1..]);
    }
  }

  /** What the invariant says about two threads and a lock: both inside is impossible, each general
      tag is on at most one list, and semaphores are 0 or 1. */
  lemma MutualExclusion(s: Sys, l: Lid, t: Tid, u: Tid)
    requires l in s.locks && t in s.threads && u in s.threads
    requires Inv(s)
    ensures Nest(s.nest, t, l) > 0 && Nest(s.nest, u, l) > 0 ==> t == u
    ensures s.locks[l].value == 0 || s.locks[l].value == 1
    ensures s.threads[t].pc == Out && s.threads[u].pc == Out && Nest(s.nest, t, l) > 0
            ==> s.locks[l].holder == Some(t) && s.locks[l].nr == Nest(s.nest, t, l)
    ensures t in s.locks[l].waiters ==> t !in s.ready
    ensures forall k :: k in s.locks && k != l && t in s.locks[l].waiters ==> t !in s.locks[k].waiters
    ensures t in s.locks[l].waiters ==> Nest(s.nest, t, l) == 0
  {
    assert LockOk(s, l);
    hide NoWakeupLost;
  }

  // ---------- the initial state ----------

  function FreeLock(): Lock { Lock(None, 1, [], 0) }

  /** The state after `thread_init`: main runs, init and then idle are ready, all locks are free. */
  function Booted(ids: set<Lid>): Sys {
    Sys(map[0 := Thread(Running, 31, 31, 0, Out), 1 := Thread(Ready, 31, 31, 0, Out),
        2 := Thread(Ready, 10, 10, 0, Out)],
        map l | l in ids :: FreeLock(), [1, 2], 0, 2, 0, map[], map[])
  }

  lemma BootedIsGood(ids: set<Lid>)
    ensures Inv(Booted(ids))
  {
    var s := Booted(ids);
    assert s.ready == [1, 2];
    forall l | l in s.locks ensures LockOk(s, l) {}
  }

  // ---------- round robin ----------

  /** After n timer interrupts. */
  function AfterTicks(s: Sys, n: nat): Result
    decreases n
  {
    if n == 0 then Ok(s) else var r := AfterTicks(s, n - 1); if r.Crash? then Crash else Ticked(r.s)
  }

  /** The interrupts until the ready thread at position k runs: what is left of the running
      thread's slice and of those before it, and one each for the switch. */
  function TicksUntil(s: Sys, k: nat): nat
    requires k < |s.ready| && s.cur in s.threads && forall t :: t in s.ready ==> t in s.threads
  {
    if k == 0 then s.threads[s.cur].ticks + 1 else TicksUntil(s, k - 1) + s.threads[s.ready[k - 1]].ticks + 1
  }

  lemma {:induction false} TicksAdd(s: Sys, a: nat, b: nat)
    ensures AfterTicks(s, a + b) == if AfterTicks(s, a).Crash? then Crash else AfterTicks(AfterTicks(s, a).s, b)
    decreases b
  {
    hide Ticked;
    if b > 0 {
      TicksAdd(s, a, b - 1);
      assert a + b - 1 == a + (b - 1);
    }
  }

  /** Within a slice the same thread goes on. */
  lemma {:induction false} WithinSlice(s: Sys, n: nat) returns (s': Sys)
    requires s.cur in s.threads && n <= s.threads[s.cur].ticks
    requires ReadyOk(s) && IdleOk(s)
    ensures AfterTicks(s, n) == Ok(s') && s'.cur == s.cur && s'.ready == s.ready && ReadyOk(s') && IdleOk(s')
    ensures s'.cur in s'.threads && s'.threads[s.cur].ticks == s.threads[s.cur].ticks - n
    ensures forall t :: t in s.threads && t != s.cur ==> t in s'.threads && s'.threads[t] == s.threads[t]
    decreases n
  {
    if n == 0 {
      s' := s;
    } else {
      hide IdleOk, QueueOk;
      var s1 := WithinSlice(s, n - 1);
      s' := Ticked(s1).s;
      IdleCounts(s1, s');
    }
  }

  lemma IdleCounts(s: Sys, s': Sys)
    requires IdleOk(s) && QueueOk(s) && s.cur in s.threads && Ticked(s) == Ok(s') && s.threads[s.cur].ticks > 0
    ensures IdleOk(s') && QueueOk(s')
  {
  }

  /** `schedule` by a running thread while others are ready. */
  lemma ScheduleRotates(s: Sys)
    requires s.cur in s.threads && s.threads[s.cur].status == Running && s.cur !in s.ready
    requires s.ready != [] && s.ready[0] in s.threads
    ensures Scheduled(s).Ok?
    ensures var s' := Scheduled(s).s;
            && s'.cur == s.ready[0] && s'.ready == s.ready[1..] + [s.cur] && s'.threads.Keys == s.threads.Keys
            && s'.threads[s.cur].ticks == s.threads[s.cur].priority
            && forall t :: t in s.threads && t != s.cur ==> s'.threads[t].ticks == s.threads[t].ticks
  {
    assert s.ready + [s.cur] == [s.ready[0]] + (s.ready[1..] + [s.cur]);
  }

  /** At the end of the slice the first ready thread runs and the other goes to the end. */
  lemma EndOfSlice(s: Sys) returns (s': Sys)
    requires s.ready != [] && s.cur in s.threads && s.threads[s.cur].ticks == 0
    requires ReadyOk(s) && IdleOk(s)
    ensures Ticked(s) == Ok(s') && s'.cur == s.ready[0] && s'.ready == s.ready[1..] + [s.cur] && ReadyOk(s')
            && IdleOk(s')
    ensures s.cur in s'.threads && s'.threads[s.cur].ticks == s.threads[s.cur].priority
    ensures forall t :: t in s.threads && t != s.cur ==> t in s'.threads && s'.threads[t].ticks == s.threads[t].ticks
  {
    hide Scheduled, SameSleepers;
    var t := s.threads[s.cur];
    var t' := t.(elapsed := (t.elapsed + 1) % 0x1_0000_0000);
    var s1 := s.(threads := s.threads[s.cur := t'], clock := (s.clock + 1) % 0x1_0000_0000);
    CountedBeforeSchedule(s, s1, t');
    hide ReadyOk, IdleOk, BeforeSchedule;
    ScheduleRotates(s1);
    s' := ScheduleWorks(s1);
  }

  lemma CountedBeforeSchedule(s: Sys, s1: Sys, t': Thread)
    requires s.cur in s.threads && s.ready != [] && t'.status == s.threads[s.cur].status && t'.pc == s.threads[s.cur].pc
    requires s1 == s.(threads := s.threads[s.cur := t'], clock := s1.clock)
    requires ReadyOk(s) && IdleOk(s)
    ensures BeforeSchedule(s1) && s1.cur !in s1.ready && s1.ready[0] in s1.threads
            && s1.threads[s1.cur].status == Running
  {
    hide NoDup;
    assert s.ready[0] in s.ready;
  }

  lemma {:induction false} TicksUntilNext(s: Sys, s': Sys, k: nat)
    requires 0 < k < |s.ready| && ReadyOk(s) && ReadyOk(s') && s'.cur == s.ready[0]
             && s'.ready == s.ready[1..] + [s.cur]
    requires forall t :: t in s.threads && t != s.cur ==> t in s'.threads && s'.threads[t].ticks == s.threads[t].ticks
    ensures TicksUntil(s, k) == s.threads[s.cur].ticks + 1 + TicksUntil(s', k - 1)
    decreases k
  {
    assert s.ready[k - 1] in s.ready && s.ready[0] in s.ready;
    if k > 1 {
      TicksUntilNext(s, s', k - 1);
      assert s'.ready[k - 2] == s.ready[k - 1];
    }
  }

  /** Thread x runs after n timer interrupts, and not before. */
  ghost predicate RunsAfter(s: Sys, x: Tid, n: nat) {
    && AfterTicks(s, n).Ok? && AfterTicks(s, n).s.cur == x
    && forall m: nat :: m < n ==> AfterTicks(s, m).Ok? && AfterTicks(s, m).s.cur != x
  }

  lemma RunsLater(s: Sys, s': Sys, x: Tid, d: nat, n: nat)
    requires AfterTicks(s, d) == Ok(s') && RunsAfter(s', x, n)
    requires forall m: nat :: m < d ==> AfterTicks(s, m).Ok? && AfterTicks(s, m).s.cur != x
    ensures RunsAfter(s, x, d + n)
  {
    hide AfterTicks;
    forall m: nat ensures AfterTicks(s, d + m) == AfterTicks(s', m) {
      TicksAdd(s, d, m);
    }
    forall m: nat | m < d + n ensures AfterTicks(s, m).Ok? && AfterTicks(s, m).s.cur != x {
      if m >= d {
        assert AfterTicks(s, d + (m - d)) == AfterTicks(s', m - d);
      }
    }
  }

  /** While only timer interrupts come, the ready thread at position k runs after exactly
      TicksUntil(s, k) of them, and not before. */
  lemma {:induction false} RoundRobin(s: Sys, k: nat)
    requires k < |s.ready|
    requires ReadyOk(s) && IdleOk(s)
    ensures RunsAfter(s, s.ready[k], TicksUntil(s, k))
    decreases k
  {
    hide IdleOk, QueueOk, Ticked;
    var slice: nat := s.threads[s.cur].ticks;
    var x := s.ready[k];
    ReadyIsOther(s, k);
    var s1 := WithinSlice(s, slice);
    var s2 := EndOfSlice(s1);
    forall m: nat | m < slice + 1 ensures AfterTicks(s, m).Ok? && AfterTicks(s, m).s.cur != x {
      var w := WithinSlice(s, m);
    }
    if k == 0 {
      assert RunsAfter(s2, x, 0);
      RunsLater(s, s2, x, slice + 1, 0);
    } else {
      assert s2.ready[k - 1] == x;
      ReadyIsOther(s2, k - 1);
      RoundRobin(s2, k - 1);
      RunsLater(s, s2, x, slice + 1, TicksUntil(s2, k - 1));
      TicksUntilNext(s, s2, k);
    }
  }

  lemma ReadyIsOther(s: Sys, k: nat)
    requires k < |s.ready| && ReadyOk(s)
    ensures s.ready[k] != s.cur && forall t :: t in s.ready ==> t in s.threads
  {
    assert s.ready[k] in s.ready;
  }

  /** The clock counts the interrupts, modulo 2^32. */
  lemma {:induction false} ClockCounts(s: Sys, n: nat)
    requires AfterTicks(s, n).Ok?
    ensures AfterTicks(s, n).s.clock == (s.clock + n) % 0x1_0000_0000
    decreases n
  {
    if n > 0 {
      ClockCounts(s, n - 1);
      TickCounts(AfterTicks(s, n - 1).s);
      NextCount(s.clock, n - 1);
    }
  }

  lemma TickCounts(s: Sys)
    requires Ticked(s).Ok?
    ensures Ticked(s).s.clock == (s.clock + 1) % 0x1_0000_0000
  {
  }

  lemma NextCount(c: int, n: int)
    ensures ((c + n) % 0x1_0000_0000 + 1) % 0x1_0000_0000 == (c + (n + 1)) % 0x1_0000_0000
  {
  }

  /** A woken thread goes to the front: it is the one that the next `schedule` runs, before all that
      were ready, whether the running thread goes on later or blocks now. */
  lemma WokenRunsNext(s: Sys, t: Tid, st: Status)
    requires t in s.threads && CanUnblock(s.threads[t].status) && t != s.cur && CanUnblock(st)
    requires ReadyOk(s) && IdleOk(s)
    ensures Unblocked(s, t).Ok?
    ensures var s1 := Unblocked(s, t).s;
            && Scheduled(s1).Ok? && Scheduled(s1).s.cur == t && Scheduled(s1).s.ready == s.ready + [s.cur]
            && BlockedAs(s1, st).Ok? && BlockedAs(s1, st).s.cur == t && BlockedAs(s1, st).s.ready == s.ready
  {
    assert t !in s.ready;
    var s1 := Unblocked(s, t).s;
    assert s1.ready == [t] + s.ready && s.cur !in s1.ready;
    assert s1.ready + [s.cur] == [t] + (s.ready + [s.cur]);
  }

  /** Semaphores are first come, first served: who goes to sleep queues behind all waiters, and
      sema_up wakes the one that has waited longest. */
  lemma LongestWaiterIsWoken(s: Sys, l: Lid)
    requires s.cur in s.threads && l in s.locks && s.threads[s.cur].pc == Leaving(l) && s.locks[l].waiters != []
    requires Inv(s)
    ensures Upped(s, l).Ok?
    ensures var s', w := Upped(s, l).s, s.locks[l].waiters[0];
            && l in s'.locks && s'.locks[l].waiters == s.locks[l].waiters[1..] && s'.locks[l].value == 1
            && w in s'.threads && s'.threads[w].status == Ready && s'.ready == [w] + s.ready
  {
    hide Inv;
    UpKeepsInv(s, l);
    FirstWaiter(s, l);
  }

  lemma SleeperQueuesLast(s: Sys, l: Lid)
    requires s.cur in s.threads && l in s.locks
             && (s.threads[s.cur].pc == Entering(l) || s.threads[s.cur].pc == Recheck(l)) && s.locks[l].value == 0
    requires Inv(s)
    ensures DownPass(s, l).Ok? && l in DownPass(s, l).s.locks
            && DownPass(s, l).s.locks[l].waiters == s.locks[l].waiters + [s.cur]
  {
    hide Inv, Scheduled, BeforeSchedule, WaitOk, LocksOk, NoWakeupLost;
    LockFacts(s, l);
    EnqueuedWoken(s, l);
    var s' := ScheduleWorks(Enqueued(s, l));
  }
}
