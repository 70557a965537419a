/** The kernel's threads as steps: what happens with interrupts off is one step of
    the running thread, and a timer interrupt may come between any two steps
    (`pintos/src/threads/thread.c`, `pintos/src/threads/synch.c` and
    `project4/src/devices/timer.c`). */
module Threads {
  datatype Status = Running | Ready | Blocked | Dying

  /** Where a thread is inside a synchronization call: what it has yet to do. */
  datatype Pos =
    | Outside
    | Downing(sema: nat)                            // sema_down
    | Acquiring(lock: nat, sema: nat)               // lock_acquire, in its sema_down
    | Acquired(lock: nat)                           // ... before the holder is set
    | Releasing(lock: nat)                          // lock_release, before its sema_up
    | WaitQueued(lock: nat, own: nat)               // cond_wait, before its lock_release
    | WaitReleasing(lock: nat, own: nat)            // ... before that one's sema_up
    | WaitDown(lock: nat, own: nat)                 // ... in sema_down of its own semaphore
    | Signalling(own: nat)                          // cond_signal, before its sema_up
    | Sleeping(until: int)                          // timer_sleep

  /** `woken`: taken off a wait list and not back at the test yet.  `held`: the
      locks whose semaphore this thread has downed and not upped. */
  datatype Thread = Thread(status: Status, pos: Pos, woken: bool, held: set<nat>)

  /** What a condition variable's semaphore has seen: it is on the list of
      condition `cond`, thread `signaller` has taken it off, or it has been upped. */
  datatype Stage = Queued(cond: nat) | Popped(signaller: nat) | Raised

  datatype Role = Plain | OfLock(lock: nat) | Own(thread: nat, stage: Stage)

  /** A semaphore; how often it was upped and downed is counted beside it. */
  datatype Sema = Sema(value: nat, waiters: seq<nat>, initial: nat, ups: nat, downs: nat, role: Role)

  datatype Holder = Nobody | Holder(thread: nat)

  datatype Lock = Lock(sema: nat, holder: Holder)

  datatype State = State(threads: seq<Thread>, current: nat, idle: nat, ready: seq<nat>, semas: seq<Sema>,
                         locks: seq<Lock>, conds: seq<seq<nat>>, sleepers: seq<nat>, ticks: int)

  // ---- The scheduler ----

  predicate InRange(s: State) {
    s.current < |s.threads| && s.idle < |s.threads| && forall i :: 0 <= i < |s.ready| ==> s.ready[i] < |s.threads|
  }

  /** `next_thread_to_run`. */
  function NextThread(s: State): nat {
    if s.ready == [] then s.idle else s.ready[0]
  }

  /** `schedule` and `thread_schedule_tail`. */
  function Schedule(s: State): State
    requires InRange(s)
  {
    var next := NextThread(s);
    s.(current := next, ready := if s.ready == [] then [] else s.ready[1..],
       threads := s.threads[next := s.threads[next].(status := Running)])
  }

  /** The running thread has become `th` and gives up the processor. */
  function Away(s: State, th: Thread): State
    requires InRange(s)
  {
    Schedule(s.(threads := s.threads[s.current := th],
                ready := if th.status == Ready && s.current != s.idle then s.ready + [s.current] else s.ready))
  }

  /** `thread_yield`. */
  function Yield(s: State): State
    requires InRange(s)
  {
    Away(s, s.threads[s.current].(status := Ready))
  }

  /** `thread_unblock`. */
  function Unblock(s: State, t: nat): State
    requires t < |s.threads|
  {
    s.(threads := s.threads[t := s.threads[t].(status := Ready)], ready := s.ready + [t])
  }

  /** `thread_create`. */
  function Create(s: State): State {
    s.(threads := s.threads + [Thread(Ready, Outside, false, {})], ready := s.ready + [|s.threads|])
  }

  /** The running thread is at `pos` and holds `held`. */
  function Go(s: State, pos: Pos, held: set<nat>): State
    requires s.current < |s.threads|
  {
    s.(threads := s.threads[s.current := s.threads[s.current].(pos := pos, held := held, woken := false)])
  }

  // ---- Semaphores ----

  /** `sema_up`: a waiting thread, if any, becomes ready, and the value rises. */
  function Up(s: State, k: nat): State
    requires k < |s.semas| && (s.semas[k].waiters != [] ==> s.semas[k].waiters[0] < |s.threads|)
  {
    var q := s.semas[k];
    if q.waiters == [] then s.(semas := s.semas[k := q.(value := q.value + 1, ups := q.ups + 1)])
    else
      var t := q.waiters[0];
      Unblock(s.(semas := s.semas[k := q.(value := q.value + 1, ups := q.ups + 1, waiters := q.waiters[1..])],
                 threads := s.threads[t := s.threads[t].(woken := true)]), t)
  }

  /** One test in the loop of `sema_down`: the running thread goes on to `next`
      holding `held`, or to the end of the wait list. */
  function Down(s: State, k: nat, next: Pos, held: set<nat>): State
    requires InRange(s) && k < |s.semas|
  {
    var q := s.semas[k];
    if q.value > 0 then Go(s.(semas := s.semas[k := q.(value := q.value - 1, downs := q.downs + 1)]), next, held)
    else
      Away(s.(semas := s.semas[k := q.(waiters := q.waiters + [s.current])]),
           s.threads[s.current].(status := Blocked, woken := false))
  }

  // ---- The timer ----

  predicate SleepersInRange(s: State) {
    forall j :: 0 <= j < |s.sleepers| ==> s.sleepers[j] < |s.threads|
  }

  function Until(th: Thread): int {
    if th.pos.Sleeping? then th.pos.until else 0
  }

  /** `list_insert_ordered` by deadline: before the first later one. */
  function InsertPoint(threads: seq<Thread>, q: seq<nat>, until: int): (i: nat)
    requires forall j :: 0 <= j < |q| ==> q[j] < |threads|
    ensures i <= |q|
    ensures forall j :: 0 <= j < i ==> Until(threads[q[j]]) <= until
    ensures i < |q| ==> until < Until(threads[q[i]])
  {
    if q == [] || until < Until(threads[q[0]]) then 0 else 1 + InsertPoint(threads, q[1..], until)
  }

  /** `timer_sleep` for `n` > 0 ticks. */
  function Sleep(s: State, n: int): State
    requires InRange(s) && SleepersInRange(s)
  {
    var until := s.ticks + n;
    var i := InsertPoint(s.threads, s.sleepers, until);
    Away(s.(sleepers := s.sleepers[..i] + [s.current] + s.sleepers[i..]),
         s.threads[s.current].(status := Blocked, pos := Sleeping(until), woken := false))
  }

  /** The loop of `timer_interrupt`: sleepers whose time has come become ready. */
  function WakeSleepers(s: State): State
    requires SleepersInRange(s)
    decreases |s.sleepers|
  {
    if s.sleepers == [] || s.ticks < Until(s.threads[s.sleepers[0]]) then s
    else WakeSleepers(Unblock(s.(sleepers := s.sleepers[1..]), s.sleepers[0]))
  }

  function Tick(s: State): State
    requires SleepersInRange(s)
  {
    WakeSleepers(s.(ticks := s.ticks + 1))
  }

  // ---- Actions ----

  datatype Action =
    | YieldNow                          // thread_yield, also on return from an interrupt
    | Exit
    | CreateThread
    | IdleBlock                         // the idle thread's loop
    | SemaDown(sema: nat)
    | SemaUp(sema: nat)
    | LockAcquire(lock: nat)
    | LockRelease(lock: nat)
    | CondWait(cond: nat, lock: nat)
    | CondSignal(cond: nat, lock: nat)
    | TimerSleep(n: int)
    | Continue                          // the next step of the call the thread is in
    | TimerInterrupt

  /** What the code itself demands: a call comes from a thread outside any call, its
      argument exists, and the holder of a lock is as the code asserts. */
  predicate Enabled(s: State, a: Action) {
    && InRange(s)
    && (if a.TimerInterrupt? then SleepersInRange(s)
        else if a.YieldNow? then true
        else if a.IdleBlock? then s.current == s.idle && s.threads[s.current].pos == Outside
        else if a.Continue? then s.current != s.idle && CanContinue(s, s.threads[s.current].pos)
        else s.current != s.idle && s.threads[s.current].pos == Outside && CanCall(s, a))
  }

  predicate CanCall(s: State, a: Action) {
    match a
    case SemaDown(k) => k < |s.semas| && s.semas[k].role == Plain
    case SemaUp(k) => CanUp(s, k) && s.semas[k].role == Plain
    case LockAcquire(l) => l < |s.locks| && s.locks[l].holder != Holder(s.current)
    case LockRelease(l) => l < |s.locks| && s.locks[l].holder == Holder(s.current)
    case CondWait(c, l) => c < |s.conds| && l < |s.locks| && s.locks[l].holder == Holder(s.current)
    case CondSignal(c, l) =>
      && c < |s.conds| && l < |s.locks| && s.locks[l].holder == Holder(s.current)
      && (s.conds[c] != [] ==> s.conds[c][0] < |s.semas| && s.semas[s.conds[c][0]].role.Own?)
    case TimerSleep(n) => SleepersInRange(s)
    case Exit => true
    case CreateThread => true
    case YieldNow => true
    case IdleBlock => true
    case Continue => true
    case TimerInterrupt => true
  }

  predicate CanUp(s: State, k: nat) {
    k < |s.semas| && (s.semas[k].waiters != [] ==> s.semas[k].waiters[0] < |s.threads|)
  }

  predicate CanContinue(s: State, pos: Pos) {
    match pos
    case Outside => false
    case Downing(k) => k < |s.semas|
    case Acquiring(l, k) => k < |s.semas|
    case Acquired(l) => l < |s.locks|
    case Releasing(l) => l < |s.locks| && CanUp(s, s.locks[l].sema)
    case WaitQueued(l, w) => l < |s.locks|
    case WaitReleasing(l, w) => l < |s.locks| && CanUp(s, s.locks[l].sema)
    case WaitDown(l, w) => l < |s.locks| && w < |s.semas|
    case Signalling(w) => CanUp(s, w) && s.semas[w].role.Own?
    case Sleeping(_) => true
  }

  function SetHolder(s: State, l: nat, h: Holder): State
    requires l < |s.locks|
  {
    s.(locks := s.locks[l := s.locks[l].(holder := h)])
  }

  function SetStage(s: State, w: nat, stage: Stage): State
    requires w < |s.semas| && s.semas[w].role.Own?
  {
    s.(semas := s.semas[w := s.semas[w].(role := Own(s.semas[w].role.thread, stage))])
  }

  function Do(s: State, a: Action): State
    requires Enabled(s, a)
  {
    var th := s.threads[s.current];
    match a
    case YieldNow => Yield(s)
    case Exit => Away(s, th.(status := Dying))
    case CreateThread => Create(s)
    case IdleBlock => Away(s, th.(status := Blocked))
    case SemaDown(k) => Go(s, Downing(k), th.held)
    case SemaUp(k) => Up(s, k)
    case LockAcquire(l) => Go(s, Acquiring(l, s.locks[l].sema), th.held)
    case LockRelease(l) => Go(SetHolder(s, l, Nobody), Releasing(l), th.held)
    case CondWait(c, l) =>
      var w := |s.semas|;
      Go(s.(semas := s.semas + [Sema(0, [], 0, 0, 0, Own(s.current, Queued(c)))], conds := s.conds[c := s.conds[c] + [w]]),
         WaitQueued(l, w), th.held)
    case CondSignal(c, l) =>
      if s.conds[c] == [] then s
      else
        var w := s.conds[c][0];
        Go(SetStage(s, w, Popped(s.current)).(conds := s.conds[c := s.conds[c][1..]]), Signalling(w), th.held)
    case TimerSleep(n) => if n <= 0 then s else Sleep(s, n)
    case Continue => Next(s, th)
    case TimerInterrupt => Tick(s)
  }

  /** The next step of the call a thread is in. */
  function Next(s: State, th: Thread): State
    requires InRange(s) && CanContinue(s, th.pos)
  {
    match th.pos
    case Downing(k) => Down(s, k, Outside, th.held)
    case Acquiring(l, k) => Down(s, k, Acquired(l), th.held + {l})
    case Acquired(l) => Go(SetHolder(s, l, Holder(s.current)), Outside, th.held)
    case Releasing(l) => Go(Up(s, s.locks[l].sema), Outside, th.held - {l})
    case WaitQueued(l, w) => Go(SetHolder(s, l, Nobody), WaitReleasing(l, w), th.held)
    case WaitReleasing(l, w) => Go(Up(s, s.locks[l].sema), WaitDown(l, w), th.held - {l})
    case WaitDown(l, w) => Down(s, w, Acquiring(l, s.locks[l].sema), th.held)
    case Signalling(w) => Go(SetStage(Up(s, w), w, Raised), Outside, th.held)
    case Sleeping(_) => Go(s, Outside, th.held)
    case Outside => s
  }
}
