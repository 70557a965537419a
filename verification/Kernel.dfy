/** The same steps as code that changes the kernel's variables in place: the run
    queue, the thread table, semaphores and the sleep list.  Each method is proved
    to do what the function of module Threads says, and `Step`, which is any one of
    them, keeps the invariants of modules Scheduling and Monitors. */
module Kernel {
  import opened T = Threads
  import Scheduling
  import Monitors

  class Kernel {
    var threads: seq<Thread>
    var current: nat
    var idle: nat
    var readyList: seq<nat>
    var semas: seq<Sema>
    var locks: seq<Lock>
    var conds: seq<seq<nat>>
    var sleepList: seq<nat>
    var ticks: int

    ghost function Now(): State
      reads this
    {
      State(threads, current, idle, readyList, semas, locks, conds, sleepList, ticks)
    }

    method SetStatus(t: nat, status: Status)
      requires t < |threads|
      modifies this`threads
      ensures threads == old(threads)[t := old(threads)[t].(status := status)]
    {
      threads := threads[t := threads[t].(status := status)];
    }

    /** `next_thread_to_run`. */
    method NextThreadToRun() returns (t: nat)
      modifies this`readyList
      ensures t == T.NextThread(old(Now()))
      ensures readyList == if old(readyList) == [] then [] else old(readyList)[1..]
    {
      if readyList == [] {
        t := idle;
      } else {
        t := readyList[0];
        readyList := readyList[1..];
      }
    }

    /** `schedule` with `thread_schedule_tail`. */
    method Schedule()
      requires T.InRange(Now())
      modifies this`readyList, this`current, this`threads
      ensures Now() == T.Schedule(old(Now()))
    {
      var next := NextThreadToRun();
      current := next;
      SetStatus(next, Running);
    }

    method ThreadBlock()
      requires T.InRange(Now())
      modifies this`readyList, this`current, this`threads
      ensures Now() == T.Away(old(Now()), old(threads)[old(current)].(status := Blocked))
    {
      SetStatus(current, Blocked);
      Schedule();
    }

    method ThreadUnblock(t: nat)
      requires t < |threads|
      modifies this`readyList, this`threads
      ensures Now() == T.Unblock(old(Now()), t)
    {
      readyList := readyList + [t];
      SetStatus(t, Ready);
    }

    method ThreadYield()
      requires T.InRange(Now())
      modifies this`readyList, this`current, this`threads
      ensures Now() == T.Yield(old(Now()))
    {
      if current != idle {
        readyList := readyList + [current];
      }
      SetStatus(current, Ready);
      Schedule();
    }

    method ThreadExit()
      requires T.InRange(Now())
      modifies this`readyList, this`current, this`threads
      ensures Now() == T.Away(old(Now()), old(threads)[old(current)].(status := Dying))
    {
      SetStatus(current, Dying);
      Schedule();
    }

    method ThreadCreate() returns (t: nat)
      modifies this`readyList, this`threads
      ensures Now() == T.Create(old(Now())) && t == |old(threads)|
    {
      t := |threads|;
      threads := threads + [Thread(Blocked, Outside, false, {})];
      ThreadUnblock(t);
    }

    /** One round of the loop in `sema_down`: the value is taken, or the thread goes
        to the end of the wait list and blocks. */
    method SemaDown(k: nat, next: Pos, held: set<nat>) returns (done: bool)
      requires T.InRange(Now()) && k < |semas|
      modifies this`readyList, this`current, this`threads, this`semas
      ensures Now() == T.Down(old(Now()), k, next, held) && done == (old(semas)[k].value > 0)
    {
      done := semas[k].value != 0;
      if !done {
        semas := semas[k := semas[k].(waiters := semas[k].waiters + [current])];
        threads := threads[current := threads[current].(woken := false)];
        ThreadBlock();
      } else {
        semas := semas[k := semas[k].(value := semas[k].value - 1, downs := semas[k].downs + 1)];
        threads := threads[current := threads[current].(pos := next, held := held, woken := false)];
      }
    }

    method SemaUp(k: nat)
      requires T.CanUp(Now(), k)
      modifies this`readyList, this`threads, this`semas
      ensures Now() == T.Up(old(Now()), k)
    {
      var waiters := semas[k].waiters;
      if waiters != [] {
        semas := semas[k := semas[k].(waiters := waiters[1..])];
        threads := threads[waiters[0] := threads[waiters[0]].(woken := true)];
        ThreadUnblock(waiters[0]);
      }
      semas := semas[k := semas[k].(value := semas[k].value + 1, ups := semas[k].ups + 1)];
    }

    /** `timer_sleep`: the thread goes where its deadline belongs in the sleep list,
        and blocks. */
    method TimerSleep(n: int)
      requires T.InRange(Now()) && T.SleepersInRange(Now())
      modifies this`readyList, this`current, this`threads, this`sleepList
      ensures Now() == if n <= 0 then old(Now()) else T.Sleep(old(Now()), n)
    {
      if n <= 0 {
        return;
      }
      var until := ticks + n;
      var e: nat := 0;
      while e < |sleepList| && T.Until(threads[sleepList[e]]) <= until
        invariant e <= |sleepList|
        invariant forall j :: 0 <= j < e ==> T.Until(threads[sleepList[j]]) <= until
      {
        e := e + 1;
      }
      InsertPointIs(threads, sleepList, until, e);
      sleepList := sleepList[..e] + [current] + sleepList[e..];
      threads := threads[current := threads[current].(pos := Sleeping(until), woken := false)];
      ThreadBlock();
    }

    /** `timer_interrupt`: the clock ticks, and sleepers are taken off the front of
        the sleep list as long as their time has come. */
    method TimerInterrupt()
      requires T.SleepersInRange(Now())
      modifies this`readyList, this`threads, this`sleepList, this`ticks
      ensures Now() == T.Tick(old(Now()))
    {
      ticks := ticks + 1;
      ghost var s := Now();
      while sleepList != []
        invariant T.SleepersInRange(Now()) && T.WakeSleepers(Now()) == T.WakeSleepers(s)
        decreases |sleepList|
      {
        var t := sleepList[0];
        if ticks < T.Until(threads[t]) {
          break;
        }
        sleepList := sleepList[1..];
        ThreadUnblock(t);
      }
    }

    /** The running thread goes on to another point of its call. */
    method GoOn(pos: Pos, held: set<nat>)
      requires current < |threads|
      modifies this`threads
      ensures Now() == T.Go(old(Now()), pos, held)
    {
      threads := threads[current := threads[current].(pos := pos, held := held, woken := false)];
    }

    method SetHolder(l: nat, h: Holder)
      requires l < |locks|
      modifies this`locks
      ensures Now() == T.SetHolder(old(Now()), l, h)
    {
      locks := locks[l := locks[l].(holder := h)];
    }

    /** The start of `cond_wait`: a semaphore of the thread's own joins the condition's
        list. */
    method CondWait(c: nat, l: nat)
      requires current < |threads| && c < |conds|
      modifies this`threads, this`semas, this`conds
      ensures Now() == T.Go(old(Now()).(semas := old(semas) + [Sema(0, [], 0, 0, 0, Own(current, Queued(c)))],
                                        conds := old(conds)[c := old(conds)[c] + [|old(semas)|]]),
                            WaitQueued(l, |old(semas)|), old(threads)[current].held)
    {
      var w := |semas|;
      semas := semas + [Sema(0, [], 0, 0, 0, Own(current, Queued(c)))];
      conds := conds[c := conds[c] + [w]];
      GoOn(WaitQueued(l, w), threads[current].held);
    }

    /** The start of `cond_signal`: the first semaphore leaves the condition's list. */
    method CondSignal(c: nat)
      requires current < |threads| && c < |conds|
      requires conds[c] != [] ==> conds[c][0] < |semas| && semas[conds[c][0]].role.Own?
      modifies this`threads, this`semas, this`conds
      ensures Now() == if old(conds)[c] == [] then old(Now())
                       else T.Go(T.SetStage(old(Now()), old(conds)[c][0], Popped(current))
                                   .(conds := old(conds)[c := old(conds)[c][1..]]),
                                 Signalling(old(conds)[c][0]), old(threads)[current].held)
    {
      if conds[c] != [] {
        var w := conds[c][0];
        conds := conds[c := conds[c][1..]];
        semas := semas[w := semas[w].(role := Own(semas[w].role.thread, Popped(current)))];
        GoOn(Signalling(w), threads[current].held);
      }
    }

    /** The next step of the call the running thread is in. */
    method Continue()
      requires T.InRange(Now()) && T.CanContinue(Now(), threads[current].pos)
      modifies this
      ensures Now() == T.Next(old(Now()), old(threads)[old(current)])
    {
      var th := threads[current];
      match th.pos
      case Downing(k) =>
        var _ := SemaDown(k, Outside, th.held);
      case Acquiring(l, k) =>
        var _ := SemaDown(k, Acquired(l), th.held + {l});
      case Acquired(l) =>
        SetHolder(l, Holder(current));
        GoOn(Outside, th.held);
      case Releasing(l) =>
        SemaUp(locks[l].sema);
        GoOn(Outside, th.held - {l});
      case WaitQueued(l, w) =>
        SetHolder(l, Nobody);
        GoOn(WaitReleasing(l, w), th.held);
      case WaitReleasing(l, w) =>
        SemaUp(locks[l].sema);
        GoOn(WaitDown(l, w), th.held - {l});
      case WaitDown(l, w) =>
        var _ := SemaDown(w, Acquiring(l, locks[l].sema), th.held);
      case Signalling(w) =>
        SemaUp(w);
        semas := semas[w := semas[w].(role := Own(semas[w].role.thread, Raised))];
        GoOn(Outside, th.held);
      case Sleeping(_) => GoOn(Outside, th.held);
    }

    /** Any step: it is what the model says, and it keeps the scheduler, the locks and
        the condition variables in order. */
    method Step(a: Action)
      requires Scheduling.Inv(Now()) && Monitors.Mon(Now()) && T.Enabled(Now(), a)
      modifies this
      ensures Now() == T.Do(old(Now()), a)
      ensures Scheduling.Inv(Now()) && Monitors.Mon(Now())
    {
      hide Scheduling.Inv, Monitors.Mon, T.Away, T.Up, T.Down, T.Sleep, T.WakeSleepers, T.Next;
      Scheduling.StepKeeps(Now(), a);
      Monitors.StepMon(Now(), a);
      match a
      case YieldNow => ThreadYield();
      case Exit => ThreadExit();
      case CreateThread =>
        var _ := ThreadCreate();
      case IdleBlock => ThreadBlock();
      case SemaDown(k) => GoOn(Downing(k), threads[current].held);
      case SemaUp(k) => SemaUp(k);
      case LockAcquire(l) => GoOn(Acquiring(l, locks[l].sema), threads[current].held);
      case LockRelease(l) =>
        SetHolder(l, Nobody);
        GoOn(Releasing(l), threads[current].held);
      case CondWait(c, l) => CondWait(c, l);
      case CondSignal(c, l) => CondSignal(c);
      case TimerSleep(n) => TimerSleep(n);
      case Continue => Continue();
      case TimerInterrupt => TimerInterrupt();
    }
  }

  /** The insertion point is where the deadlines up to it are no later and the next
      one is later. */
  lemma {:induction false} InsertPointIs(threads: seq<Thread>, q: seq<nat>, until: int, e: nat)
    requires (forall j :: 0 <= j < |q| ==> q[j] < |threads|) && e <= |q|
    requires forall j :: 0 <= j < e ==> T.Until(threads[q[j]]) <= until
    requires e < |q| ==> until < T.Until(threads[q[e]])
    ensures T.InsertPoint(threads, q, until) == e
  {
    if e > 0 {
      InsertPointIs(threads, q[1..], until, e - 1);
    }
  }
}
