/** The functions of thread.c, sync.c and timer.c that change the kernel's variables in place, each
    against the step of Sched.dfy that it makes. Their `assert`s are the source's ASSERTs. */
module Threads {
  import opened Common
  import opened Sched

  class Kernel {
    var threads: map<Tid, Thread>
    var locks: map<Lid, Lock>
    var ready: seq<Tid>
    var cur: Tid
    var idle: Tid
    var clock: Word
    ghost var owner: map<Lid, Tid>
    ghost var nest: map<(Tid, Lid), nat>

    ghost function S(): Sys
      reads this
    {
      Sys(threads, locks, ready, cur, idle, clock, owner, nest)
    }

    /** `thread_init`. */
    constructor (ids: set<Lid>)
      ensures S() == Booted(ids) && Inv(S())
      ensures threads.Keys == {0, 1, 2} && cur == 0 && idle == 2 && ready == [1, 2] && clock == 0
      ensures threads[0].status == Running && threads[1].status == Ready && threads[2].status == Ready
      ensures threads[0].priority == 31 && threads[1].priority == 31 && threads[2].priority == 10
      ensures forall t :: t in threads ==>
              threads[t].ticks == threads[t].priority && threads[t].elapsed == 0 && threads[t].pc == Out
      ensures locks.Keys == ids && owner == map[] && nest == map[]
      ensures forall l :: l in ids ==>
              locks[l].holder == None && locks[l].value == 1 && locks[l].waiters == [] && locks[l].nr == 0
    {
      threads := map[0 := Thread(Running, 31, 31, 0, Out), 1 := Thread(Ready, 31, 31, 0, Out),
          2 := Thread(Ready, 10, 10, 0, Out)];
      locks := map l | l in ids :: FreeLock();
      ready, cur, idle, clock, owner, nest := [1, 2], 0, 2, 0, map[], map[];
      new;
      BootedIsGood(ids);
    }

    method SetStatus(t: Tid, st: Status)
      requires t in threads
      modifies this`threads
      ensures S() == WithStatus(old(S()), t, st)
    {
      threads := threads[t := threads[t].(status := st)];
    }

    method SetPc(t: Tid, pc: Pc)
      requires t in threads
      modifies this`threads
      ensures S() == WithPc(old(S()), t, pc)
    {
      threads := threads[t := threads[t].(pc := pc)];
    }

    method ThreadUnblock(t: Tid)
      requires t in threads && CanUnblock(threads[t].status) && QueueOk(S())
      modifies this`threads, this`ready
      ensures Unblocked(old(S()), t) == Ok(S())
      ensures ready == [t] + old(ready)
      ensures threads == old(threads)[t := old(threads)[t].(status := Ready)]
    {
      assert threads[t].status == Blocked || threads[t].status == Waiting || threads[t].status == Hanging;
      if threads[t].status != Ready {
        assert t !in ready;
        ready := [t] + ready;
        SetStatus(t, Ready);
      }
    }

    method Schedule()
      requires BeforeSchedule(S())
      modifies this`threads, this`ready, this`cur
      ensures Scheduled(old(S())) == Ok(S()) && ReadyOk(S()) && IdleOk(S()) && SameSleepers(old(S()), S())
      ensures old(cur) in old(threads) && cur in threads && threads.Keys == old(threads.Keys)
      ensures var list := if old(threads[cur].status) == Running then old(ready + [cur]) else old(ready);
              if list == [] then cur == idle && ready == [] else cur == list[0] && ready == list[1..]
      ensures forall t :: t in threads ==> threads[t] == Rescheduled(old(threads)[t], t == old(cur), t == cur)
    {
      hide QueueOk, IdleOk, Unblocked, NobodyRuns, SameSleepers, BeforeSchedule, ReadyOk;
      ghost var s := S();
      ghost var s' := ScheduleWorks(s);
      ghost var s1 := RequeueWorks(s);
      Requeue();
      if ready == [] {
        ghost var s2 := WakeIdleWorks(s1);
        IdleCanWake(s1);
        ThreadUnblock(idle);
      }
      ghost var s3 := DispatchWorks(S());
      Dispatch();
      WhoRunsNext(s, S());
    }

    /** The first half of `schedule`. */
    method Requeue()
      requires BeforeSchedule(S())
      modifies this`threads, this`ready
      ensures Requeued(old(S())) == Ok(S()) && cur in old(threads)
      ensures old(threads[cur].status) != Running ==> ready == old(ready) && threads == old(threads)
      ensures old(threads[cur].status) == Running ==>
              && ready == old(ready) + [cur]
              && threads == old(threads)[cur := old(threads)[cur].(status := Ready,
                                                                  ticks := old(threads)[cur].priority)]
    {
      hide QueueOk, IdleOk, BeforeSchedule;
      CurBefore(S());
      if threads[cur].status == Running {
        assert cur !in ready;
        ready := ready + [cur];
        threads := threads[cur := threads[cur].(ticks := threads[cur].priority)];
        SetStatus(cur, Ready);
      }
    }

    /** The second half: the first thread of the list is current. */
    method Dispatch()
      requires ready != [] && ready[0] in threads
      modifies this`threads, this`ready, this`cur
      ensures Dispatched(old(S())) == Ok(S())
      ensures cur == old(ready[0]) && ready == old(ready[1..])
      ensures threads == old(threads)[cur := old(threads)[cur].(status := Running)]
    {
      var next := ready[0];
      ready := ready[1..];
      SetStatus(next, Running);
      cur := next;
    }

    method ThreadBlock(st: Status)
      requires Enabled(S(), Block(st)) && Inv(S())
      modifies this`threads, this`ready, this`cur
      ensures Step(old(S()), Block(st)) == Ok(S()) && Inv(S())
      ensures old(cur) in old(threads) && threads.Keys == old(threads.Keys)
      ensures if old(ready) == [] then cur == idle && ready == [] else cur == old(ready[0]) && ready == old(ready[1..])
      ensures old(cur) != cur ==> threads[old(cur)] == old(threads[cur]).(status := st)
      ensures old(cur) == cur ==> threads[cur] == old(threads[cur]) && cur == idle
      ensures threads[cur] == old(threads)[cur].(status := Running)
      ensures forall t :: t in threads && t != old(cur) && t != cur ==> threads[t] == old(threads)[t]
    {
      hide Inv, Enabled, BeforeSchedule, Scheduled, ReadyOk, IdleOk, SameSleepers;
      BlockKeepsInv(S(), st);
      BlockFacts(S(), st);
      assert st == Blocked || st == Waiting || st == Hanging;
      SetStatus(cur, st);
      Schedule();
    }

    method ThreadStart(t: Tid, prio: Byte)
      requires Enabled(S(), Start(t, prio)) && Inv(S())
      modifies this`threads, this`ready
      ensures Step(old(S()), Start(t, prio)) == Ok(S()) && Inv(S())
      ensures t !in old(threads) && threads.Keys == old(threads.Keys) + {t} && ready == old(ready) + [t]
      ensures threads[t].status == Ready && threads[t].priority == prio && threads[t].ticks == prio
              && threads[t].elapsed == 0 && threads[t].pc == Out
      ensures forall u :: u in old(threads) ==> threads[u] == old(threads)[u]
    {
      StartKeepsInv(S(), t, prio);
      hide WaitOk, LocksOk, NoWakeupLost, IdleOk;
      assert t !in ready;
      threads := threads[t := Thread(Ready, prio, prio, 0, Out)];
      ready := ready + [t];
    }

    method IntrTimerHandler()
      requires Enabled(S(), Timer) && Inv(S())
      modifies this`threads, this`ready, this`cur, this`clock
      ensures Step(old(S()), Timer) == Ok(S()) && Inv(S())
      ensures clock == (old(clock) + 1) % 0x1_0000_0000
      ensures old(cur) in old(threads) && threads.Keys == old(threads.Keys)
      ensures old(threads[cur].ticks) > 0 ==>
              && cur == old(cur) && ready == old(ready)
              && threads[cur].status == Running && threads[cur].ticks == old(threads[cur].ticks) - 1
      ensures old(threads[cur].ticks) == 0 ==>
              && cur == old(ready + [cur])[0] && ready == old(ready + [cur])[1..]
              && threads[cur].status == Running
              && (cur != old(cur) ==> threads[old(cur)].status == Ready)
              && threads[old(cur)].ticks == threads[old(cur)].priority
      ensures threads[old(cur)].elapsed == (old(threads[cur].elapsed) + 1) % 0x1_0000_0000
      ensures threads[old(cur)].priority == old(threads[cur].priority) && threads[old(cur)].pc == old(threads[cur].pc)
      ensures cur != old(cur) ==> threads[cur] == old(threads)[cur].(status := Running)
      ensures forall t :: t in threads && t != old(cur) && t != cur ==> threads[t] == old(threads)[t]
    {
      hide Inv, Enabled, BeforeSchedule, Scheduled, ReadyOk, IdleOk, SameSleepers;
      TimerKeepsInv(S());
      BeforeScheduleFromInv(S());
      CurBefore(S());
      CurRuns(S());
      ghost var s := S();
      threads := threads[cur := threads[cur].(elapsed := (threads[cur].elapsed + 1) % 0x1_0000_0000)];
      clock := (clock + 1) % 0x1_0000_0000;
      if threads[cur].ticks == 0 {
        CountersOnly(s, S(), threads[cur]);
        BeforeScheduleFromInv(S());
        Schedule();
      } else {
        threads := threads[cur := threads[cur].(ticks := threads[cur].ticks - 1)];
      }
    }

    /** One pass of the loop of `sema_down` and, when the value is not 0, the end of that function. */
    method SemaDownPass(l: Lid)
      requires cur in threads && l in locks && (threads[cur].pc == Entering(l) || threads[cur].pc == Recheck(l))
               && Inv(S())
      modifies this
      ensures DownPass(old(S()), l) == Ok(S()) && Inv(S())
      ensures idle == old(idle) && clock == old(clock) && nest == old(nest)
      ensures threads.Keys == old(threads.Keys) && locks.Keys == old(locks.Keys)
      ensures forall k :: k in locks && k != l ==> locks[k] == old(locks)[k]
      ensures locks[l].holder == old(locks[l].holder) && locks[l].nr == old(locks[l].nr)
      ensures old(locks[l].value) == 0 ==>
              && locks[l].value == 0 && locks[l].waiters == old(locks[l].waiters + [cur]) && owner == old(owner)
              && (if old(ready) == [] then cur == idle && ready == []
                  else cur == old(ready[0]) && ready == old(ready[1..]))
              && cur != old(cur)
              && threads[old(cur)] == old(threads[cur]).(status := Blocked, pc := Recheck(l))
              && threads[cur] == old(threads)[cur].(status := Running)
      ensures old(locks[l].value) != 0 ==>
              && old(locks[l].value) == 1 && locks[l].value == 0 && locks[l].waiters == old(locks[l].waiters)
              && owner == old(owner[l := cur]) && cur == old(cur) && ready == old(ready)
              && threads[cur] == old(threads[cur]).(pc := Taken(l))
      ensures forall t :: t in threads && t != old(cur) && t != cur ==> threads[t] == old(threads)[t]
    {
      hide Inv, WaitOk, LocksOk, NoWakeupLost, BeforeSchedule, Scheduled, SameSleepers, IdleOk, ReadyOk;
      ghost var s := S();
      LockFacts(s, l);
      CurRuns(s);
      if locks[l].value == 0 {
        SleepKeepsInv(s, l);
        EnqueuedWoken(s, l);
        assert cur !in locks[l].waiters;
        locks := locks[l := locks[l].(waiters := locks[l].waiters + [cur])];
        SetPc(cur, Recheck(l));
        SetStatus(cur, Blocked);
        Schedule();
      } else {
        TakeKeepsInv(s, l);
        locks := locks[l := locks[l].(value := locks[l].value - 1)];
        assert locks[l].value == 0;
        owner := owner[l := cur];
        SetPc(cur, Taken(l));
      }
    }

    /** `sema_up` on a lock's semaphore. */
    method SemaUp(l: Lid)
      requires cur in threads && l in locks && threads[cur].pc == Leaving(l) && Inv(S())
      modifies this
      ensures Upped(old(S()), l) == Ok(S()) && Inv(S())
      ensures cur == old(cur) && idle == old(idle) && clock == old(clock) && nest == old(nest)
      ensures threads.Keys == old(threads.Keys) && locks.Keys == old(locks.Keys) && owner == old(owner) - {l}
      ensures forall k :: k in locks && k != l ==> locks[k] == old(locks)[k]
      ensures locks[l].value == 1 && locks[l].holder == old(locks[l].holder) && locks[l].nr == old(locks[l].nr)
      ensures threads[cur] == old(threads[cur]).(pc := Out)
      ensures old(locks[l].waiters) == [] ==>
              && locks[l].waiters == [] && ready == old(ready)
              && forall t :: t in threads && t != cur ==> threads[t] == old(threads)[t]
      ensures old(locks[l].waiters) != [] ==>
              var w := old(locks[l].waiters[0]);
              && w in threads && w != cur
              && locks[l].waiters == old(locks[l].waiters[1..]) && ready == [w] + old(ready)
              && threads[w] == old(threads)[w].(status := Ready)
              && forall t :: t in threads && t != cur && t != w ==> threads[t] == old(threads)[t]
    {
      hide Inv, Unblocked, HasWoken;
      ghost var s := S();
      UpKeepsInv(s, l);
      LockFacts(s, l);
      assert locks[l].value == 0;
      if locks[l].waiters != [] {
        FirstWaiter(s, l);
        ghost var s1 := WakeKeepsInv(s, l);
        QueueFromInv(s, locks[l := locks[l].(waiters := locks[l].waiters[1..])]);
        var w := locks[l].waiters[0];
        locks := locks[l := locks[l].(waiters := locks[l].waiters[1..])];
        ThreadUnblock(w);
      }
      locks := locks[l := locks[l].(value := locks[l].value + 1)];
      assert locks[l].value == 1;
      owner := owner - {l};
      SetPc(cur, Out);
    }

    /** The test at the head of `lock_acquire`. */
    method LockAcquire(l: Lid)
      requires Enabled(S(), Acquire(l)) && Inv(S())
      modifies this
      ensures Step(old(S()), Acquire(l)) == Ok(S()) && Inv(S())
      ensures cur == old(cur) && ready == old(ready) && idle == old(idle) && clock == old(clock)
              && owner == old(owner)
      ensures old(cur) in old(threads) && l in old(locks)
      ensures old(locks[l].holder) != Some(cur) ==>
              && locks == old(locks) && nest == old(nest)
              && threads == old(threads)[cur := old(threads[cur]).(pc := Entering(l))]
      ensures old(locks[l].holder) == Some(cur) ==>
              && threads == old(threads) && nest == old(nest)[(cur, l) := old(Nest(nest, cur, l)) + 1]
              && locks == old(locks)[l := old(locks[l]).(nr := old(locks[l].nr) + 1)]
    {
      hide Inv;
      AcquireKeepsInv(S(), l);
      if locks[l].holder != Some(cur) {
        SetPc(cur, Entering(l));
      } else {
        nest := nest[(cur, l) := Nest(nest, cur, l) + 1];
        locks := locks[l := locks[l].(nr := (locks[l].nr + 1) % 0x1_0000_0000)];
      }
    }

    /** `lock_release` up to its first write. */
    method LockRelease(l: Lid)
      requires Enabled(S(), Release(l)) && Inv(S())
      modifies this
      ensures Step(old(S()), Release(l)) == Ok(S()) && Inv(S())
      ensures cur == old(cur) && ready == old(ready) && idle == old(idle) && clock == old(clock)
              && owner == old(owner)
      ensures old(cur) in old(threads) && l in old(locks) && old(locks[l].holder) == Some(cur)
      ensures old(Nest(nest, cur, l)) > 0 && nest == old(nest)[(cur, l) := old(Nest(nest, cur, l)) - 1]
      ensures old(locks[l].nr) > 1 ==>
              threads == old(threads) && locks == old(locks)[l := old(locks[l]).(nr := old(locks[l].nr) - 1)]
      ensures old(locks[l].nr) <= 1 ==>
              && old(locks[l].nr) == 1 && locks == old(locks)
              && threads == old(threads)[cur := old(threads[cur]).(pc := Last(l))]
    {
      hide Inv;
      ReleaseKeepsInv(S(), l);
      LockFacts(S(), l);
      assert locks[l].holder == Some(cur);
      nest := nest[(cur, l) := Nest(nest, cur, l) - 1];
      if locks[l].nr > 1 {
        locks := locks[l := locks[l].(nr := locks[l].nr - 1)];
      } else {
        assert locks[l].nr == 1;
        SetPc(cur, Last(l));
      }
    }

    /** The single accesses to a lock's fields by which lock_acquire ends and lock_release goes on. */
    method TouchLock()
      requires Enabled(S(), Continue) && Inv(S())
      requires threads[cur].pc.Taken? || threads[cur].pc.Held? || threads[cur].pc.Count? || threads[cur].pc.Last?
               || threads[cur].pc.Unheld?
      modifies this
      ensures Step(old(S()), Continue) == Ok(S()) && Inv(S())
      ensures cur == old(cur) && ready == old(ready) && idle == old(idle) && clock == old(clock)
              && owner == old(owner)
      ensures cur in old(threads) && threads.Keys == old(threads.Keys)
      ensures forall t :: t in threads && t != cur ==> threads[t] == old(threads)[t]
      ensures var pc := old(threads[cur].pc);
              var next := if pc.Taken? then Held(pc.l) else if pc.Held? then Count(pc.l) else if pc.Count? then Out
                          else if pc.Last? then Unheld(pc.l) else Leaving(pc.l);
              && pc != Out && threads[cur] == old(threads[cur]).(pc := next)
              && pc.l in old(locks) && locks.Keys == old(locks.Keys)
              && (forall k :: k in locks && k != pc.l ==> locks[k] == old(locks)[k])
              && locks[pc.l].value == old(locks)[pc.l].value && locks[pc.l].waiters == old(locks)[pc.l].waiters
              && locks[pc.l].holder == (if pc.Taken? then Some(cur) else if pc.Unheld? then None
                                        else old(locks)[pc.l].holder)
              && locks[pc.l].nr == (if pc.Count? then 1 else if pc.Last? then 0 else old(locks)[pc.l].nr)
              && (pc.Held? ==> old(locks)[pc.l].nr == 0)
              && nest == if pc.Count? then old(nest)[(cur, pc.l) := old(Nest(nest, cur, pc.l)) + 1] else old(nest)
    {
      hide Inv, Ticked, Started, BlockedAs, Unblocked, AcquireTested, ReleaseTested, DownPass, Upped;
      ghost var s := S();
      StepKeepsInv(s, Continue);
      PcLockExists(s);
      LockFacts(s, threads[cur].pc.l);
      match threads[cur].pc {
        case Taken(l) =>
          locks := locks[l := locks[l].(holder := Some(cur))];
          SetPc(cur, Held(l));
        case Held(l) =>
          assert locks[l].nr == 0;
          SetPc(cur, Count(l));
        case Count(l) =>
          locks := locks[l := locks[l].(nr := 1)];
          nest := nest[(cur, l) := Nest(nest, cur, l) + 1];
          SetPc(cur, Out);
        case Last(l) =>
          locks := locks[l := locks[l].(nr := 0)];
          SetPc(cur, Unheld(l));
        case Unheld(l) =>
          locks := locks[l := locks[l].(holder := None)];
          SetPc(cur, Leaving(l));
      }
    }
  }

  /** A thread after `schedule`: the one that was current and running is READY with a fresh slice, unless
      it is the next one too; the next one is RUNNING; nothing else about a thread changes. */
  function Rescheduled(t: Thread, wasCurrent: bool, isNext: bool): Thread {
    var queued := wasCurrent && t.status == Running;
    Thread(if isNext then Running else if queued then Ready else t.status, t.priority,
           if queued then t.priority else t.ticks, t.elapsed, t.pc)
  }

  /** The next thread is the first of the list, after the current one was appended if it could go on, or
      the idle thread when the list is empty. */
  lemma WhoRunsNext(s: Sys, s': Sys)
    requires BeforeSchedule(s) && Scheduled(s) == Ok(s')
    ensures s'.threads.Keys == s.threads.Keys && s'.cur in s'.threads
    ensures var list := if s.threads[s.cur].status == Running then s.ready + [s.cur] else s.ready;
            if list == [] then s'.cur == s.idle && s'.ready == [] else s'.cur == list[0] && s'.ready == list[1..]
    ensures forall t :: t in s.threads ==> s'.threads[t] == Rescheduled(s.threads[t], t == s.cur, t == s'.cur)
  {
  }

  lemma CurBefore(s: Sys)
    requires BeforeSchedule(s)
    ensures s.cur in s.threads && s.cur !in s.ready
  {
    hide IdleOk;
  }

  lemma BlockFacts(s: Sys, st: Status)
    requires Enabled(s, Block(st)) && Inv(s)
    ensures s.cur in s.threads && CanUnblock(st) && BeforeSchedule(WithStatus(s, s.cur, st))
    ensures s.threads[s.cur].status == Running && s.cur !in s.ready
  {
    hide WaitOk, LocksOk, NoWakeupLost;
  }

  lemma CurRuns(s: Sys)
    requires Inv(s)
    ensures s.cur in s.threads && s.threads[s.cur].status == Running && s.cur !in s.ready
  {
    hide WaitOk, LocksOk, NoWakeupLost, IdleOk;
  }

  lemma QueueFromInv(s: Sys, locks: map<Lid, Lock>)
    requires Inv(s)
    ensures QueueOk(s.(locks := locks))
  {
    hide WaitOk, LocksOk, NoWakeupLost, IdleOk;
  }

  lemma IdleCanWake(s: Sys)
    requires QueueOk(s) && NobodyRuns(s) && IdleOk(s) && s.ready == []
    ensures s.idle in s.threads && CanUnblock(s.threads[s.idle].status)
  {
    assert s.threads[s.idle].status != Ready;
  }
}
