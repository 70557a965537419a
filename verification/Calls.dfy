/** What each synchronization call has achieved when it returns, whatever the other
    threads and the timer do meanwhile (`pintos/src/threads/synch.c`). */
module Calls {
  import opened Basics
  import opened Threads
  import opened Scheduling
  import opened Monitors

  // ---- Calls as parts of runs ----

  /** Thread `t` is inside a call in every state of the run but the last, and outside
      any in the last. */
  ghost predicate ReturnsAfter(s: State, run: seq<Action>, t: nat)
    requires Runs(s, run)
    decreases |run|
  {
    t < |s.threads| &&
    if run == [] then s.threads[t].pos.Outside?
    else !s.threads[t].pos.Outside? && ReturnsAfter(Do(s, run[0]), run[1..], t)
  }

  /** The run begins with a call of the running thread and ends when that returns. */
  ghost predicate WholeCall(s: State, run: seq<Action>) {
    run != [] && Runs(s, run) && ReturnsAfter(Do(s, run[0]), run[1..], s.current)
  }

  function Downs(s: State, k: nat): int { if k < |s.semas| then s.semas[k].downs else 0 }

  function Ups(s: State, k: nat): int { if k < |s.semas| then s.semas[k].ups else 0 }

  /** How often thread `t` itself has downed semaphore `k`, and upped it. */
  ghost function DownsBy(s: State, run: seq<Action>, t: nat, k: nat): int
    requires Runs(s, run)
    decreases |run|
  {
    if run == [] then 0
    else
      var z := Do(s, run[0]);
      (if s.current == t then Downs(z, k) - Downs(s, k) else 0) + DownsBy(z, run[1..], t, k)
  }

  ghost function UpsBy(s: State, run: seq<Action>, t: nat, k: nat): int
    requires Runs(s, run)
    decreases |run|
  {
    if run == [] then 0
    else
      var z := Do(s, run[0]);
      (if s.current == t then Ups(z, k) - Ups(s, k) else 0) + UpsBy(z, run[1..], t, k)
  }

  predicate IsCall(a: Action) {
    a.SemaDown? || a.SemaUp? || a.LockAcquire? || a.LockRelease? || a.CondWait? || a.CondSignal?
  }

  // ---- How far a call has come ----

  /** What thread `t` holds at each point of the call `a` that it began in state `o`. */
  predicate Phase(o: State, a: Action, z: State, t: nat)
    requires t < |o.threads| && IsCall(a) && CanCall(o, a)
  {
    t < |z.threads| &&
    var was, now, pos := o.threads[t].held, z.threads[t].held, z.threads[t].pos;
    match a
    case SemaDown(k) => now == was && (pos == Downing(k) || pos == Outside)
    case SemaUp(_) => now == was && pos == Outside
    case LockAcquire(l) =>
      if pos == Acquiring(l, o.locks[l].sema) then now == was
      else (pos == Acquired(l) || pos == Outside) && now == was + {l}
    case LockRelease(l) =>
      if pos == Releasing(l) then now == was else pos == Outside && now == was - {l}
    case CondWait(_, l) =>
      var w := |o.semas|;
      if pos == WaitQueued(l, w) || pos == WaitReleasing(l, w) then now == was
      else if pos == WaitDown(l, w) then now == was - {l}
      else
        && w < |z.semas| && z.semas[w].role == Own(t, Raised)
        && if pos == Acquiring(l, o.locks[l].sema) then now == was - {l}
           else (pos == Acquired(l) || pos == Outside) && now == (was - {l}) + {l}
    case CondSignal(c, _) =>
      now == was && (pos == Outside || (o.conds[c] != [] && pos == Signalling(o.conds[c][0])))
    case _ => true
  }

  /** How often it has downed and upped semaphore `k` by then. */
  function DownsAt(o: State, a: Action, pos: Pos, k: nat): int
    requires IsCall(a) && CanCall(o, a)
  {
    match a
    case SemaDown(j) => if k == j && pos.Outside? then 1 else 0
    case LockAcquire(l) => if k == o.locks[l].sema && (pos.Acquired? || pos.Outside?) then 1 else 0
    case CondWait(_, l) =>
      (if k == o.locks[l].sema && (pos.Acquired? || pos.Outside?) then 1 else 0)
      + (if k == |o.semas| && (pos.Acquiring? || pos.Acquired? || pos.Outside?) then 1 else 0)
    case _ => 0
  }

  function UpsAt(o: State, a: Action, pos: Pos, k: nat): int
    requires IsCall(a) && CanCall(o, a)
  {
    match a
    case SemaUp(j) => if k == j then 1 else 0
    case LockRelease(l) => if k == o.locks[l].sema && pos.Outside? then 1 else 0
    case CondWait(_, l) => if k == o.locks[l].sema && !pos.WaitQueued? && !pos.WaitReleasing? then 1 else 0
    case CondSignal(c, _) => if o.conds[c] != [] && k == o.conds[c][0] && pos.Outside? then 1 else 0
    case _ => 0
  }

  // ---- Steps ----

  /** A step of another thread, or one that only gives up the processor, or a tick,
      leaves a thread where it is. */
  lemma StepOthers(s: State, a: Action, t: nat)
    requires Enabled(s, a) && t < |s.threads| && (t != s.current || a.YieldNow? || a.TimerInterrupt?)
    ensures var z := Do(s, a); t < |z.threads| && z.threads[t].pos == s.threads[t].pos && z.threads[t].held == s.threads[t].held
  {
    hide Up, Away, Down;
    var th := s.threads[s.current];
    match a
    case YieldNow => AwayQuiet(s, th.(status := Ready));
    case Exit => AwayQuiet(s, th.(status := Dying));
    case IdleBlock => AwayQuiet(s, th.(status := Blocked));
    case SemaUp(k) => UpQuiet(s, k);
    case TimerSleep(n) => if n > 0 { SleepOthers(s, n, t); }
    case Continue => NextOthers(s, t);
    case TimerInterrupt => WakeQuiet(s.(ticks := s.ticks + 1));
    case _ =>
  }

  lemma SleepOthers(s: State, n: int, t: nat)
    requires InRange(s) && SleepersInRange(s) && t < |s.threads| && t != s.current
    ensures var z := Sleep(s, n); t < |z.threads| && z.threads[t].pos == s.threads[t].pos && z.threads[t].held == s.threads[t].held
  {}

  lemma NextOthers(s: State, t: nat)
    requires InRange(s) && CanContinue(s, s.threads[s.current].pos) && t < |s.threads| && t != s.current
    ensures var z := Next(s, s.threads[s.current]);
            t < |z.threads| && z.threads[t].pos == s.threads[t].pos && z.threads[t].held == s.threads[t].held
  {
    hide Up, Down;
    var th := s.threads[s.current];
    match th.pos
    case Downing(k) => DownQuiet(s, k, Outside, th.held);
    case Acquiring(l, k) => DownQuiet(s, k, Acquired(l), th.held + {l});
    case WaitDown(l, w) => DownQuiet(s, w, Acquiring(l, s.locks[l].sema), th.held);
    case Releasing(l) => UpQuiet(s, s.locks[l].sema);
    case WaitReleasing(l, w) => UpQuiet(s, s.locks[l].sema);
    case Signalling(w) => UpQuiet(s, w);
    case _ =>
  }

  /** No step gives a lock another semaphore, or takes a raised one back. */
  ghost predicate Fixed(s: State, z: State) {
    && |z.locks| == |s.locks| && |z.semas| >= |s.semas| && |z.threads| >= |s.threads|
    && (forall l :: 0 <= l < |s.locks| ==> z.locks[l].sema == s.locks[l].sema)
    && (forall w :: 0 <= w < |s.semas| && s.semas[w].role.Own? && s.semas[w].role.stage.Raised? ==> z.semas[w].role == s.semas[w].role)
  }

  lemma StepFixed(s: State, a: Action)
    requires Inv(s) && Mon(s) && Enabled(s, a)
    ensures Fixed(s, Do(s, a))
  {
    hide Up, Away, Down, Inv, Mon;
    var th := s.threads[s.current];
    match a
    case YieldNow => AwayQuiet(s, th.(status := Ready));
    case Exit => AwayQuiet(s, th.(status := Dying));
    case IdleBlock => AwayQuiet(s, th.(status := Blocked));
    case SemaUp(k) => UpQuiet(s, k);
    case TimerSleep(n) => if n > 0 { SleepFixed(s, n); }
    case Continue => NextFixed(s);
    case TimerInterrupt => WakeQuiet(s.(ticks := s.ticks + 1));
    case CondSignal(c, _) => if s.conds[c] != [] { FrontQueued(s, c); }
    case _ =>
  }

  lemma SleepFixed(s: State, n: int)
    requires InRange(s) && SleepersInRange(s)
    ensures Fixed(s, Sleep(s, n)) && Sleep(s, n).semas == s.semas
  {}

  lemma FrontQueued(s: State, c: nat)
    requires Mon(s) && c < |s.conds| && s.conds[c] != []
    ensures var w := s.conds[c][0]; w < |s.semas| && s.semas[w].role.Own? && s.semas[w].role.stage == Queued(c)
  {
    assert CondOk(s, c);
  }

  lemma NextFixed(s: State)
    requires Mon(s) && InRange(s) && CanContinue(s, s.threads[s.current].pos)
    ensures Fixed(s, Next(s, s.threads[s.current]))
  {
    CurrentPos(s);
    hide Up, Down, Mon, Fixed;
    var th := s.threads[s.current];
    match th.pos
    case Downing(k) => DownFixed(s, k, Outside, th.held);
    case Acquiring(l, k) => DownFixed(s, k, Acquired(l), th.held + {l});
    case WaitDown(l, w) => DownFixed(s, w, Acquiring(l, s.locks[l].sema), th.held);
    case Releasing(l) => UpFixed(s, s.locks[l].sema, Outside, th.held - {l});
    case WaitReleasing(l, w) => UpFixed(s, s.locks[l].sema, WaitDown(l, w), th.held - {l});
    case Signalling(w) => RaiseFixed(s, w);
    case _ => GoFixed(s);
  }

  lemma DownFixed(s: State, k: nat, next: Pos, held: set<nat>)
    requires InRange(s) && k < |s.semas|
    ensures Fixed(s, Down(s, k, next, held))
  {
    hide Down;
    DownQuiet(s, k, next, held);
  }

  lemma UpFixed(s: State, k: nat, pos: Pos, held: set<nat>)
    requires CanUp(s, k) && s.current < |s.threads|
    ensures Up(s, k).current < |Up(s, k).threads| && Fixed(s, Go(Up(s, k), pos, held))
  {
    hide Up;
    UpQuiet(s, k);
  }

  lemma RaiseFixed(s: State, w: nat)
    requires CanUp(s, w) && s.current < |s.threads| && s.semas[w].role.Own? && !s.semas[w].role.stage.Raised?
    ensures Up(s, w).current < |Up(s, w).threads| && w < |Up(s, w).semas| && Up(s, w).semas[w].role.Own?
    ensures Fixed(s, Go(SetStage(Up(s, w), w, Raised), Outside, s.threads[s.current].held))
  {
    hide Up;
    UpQuiet(s, w);
  }

  /** A step between the two. */
  lemma GoFixed(s: State)
    requires s.current < |s.threads| && InRange(s) && CanContinue(s, s.threads[s.current].pos)
    requires var p := s.threads[s.current].pos; p.Acquired? || p.WaitQueued? || p.Sleeping?
    ensures Fixed(s, Next(s, s.threads[s.current]))
  {}

  /** Giving up the processor and ticking leave all semaphores as they are. */
  lemma QuietSemas(s: State, a: Action)
    requires Enabled(s, a) && (a.YieldNow? || a.TimerInterrupt?)
    ensures Do(s, a).semas == s.semas
  {
    if a.TimerInterrupt? {
      WakeQuiet(s.(ticks := s.ticks + 1));
    }
  }

  /** A condition variable's own semaphore that can be downed has been raised. */
  lemma WaitedRaised(s: State, t: nat, l: nat, w: nat)
    requires Inv(s) && Mon(s) && t < |s.threads| && s.threads[t].pos == WaitDown(l, w) && w < |s.semas| && s.semas[w].value > 0
    ensures s.semas[w].role == Own(t, Raised)
  {
    hide LockOk, CondOk, Lists, Timely, ThreadsOk;
    assert PosOk(s, t) && OwnOk(s, w) && Covered(s.threads, s.semas[w], w);
  }

  lemma CallStarts(o: State, a: Action)
    requires Inv(o) && Mon(o) && IsCall(a) && Enabled(o, a)
    ensures var z, t := Do(o, a), o.current;
            && Phase(o, a, z, t)
            && forall k: nat :: Downs(z, k) - Downs(o, k) == DownsAt(o, a, z.threads[t].pos, k)
                             && Ups(z, k) - Ups(o, k) == UpsAt(o, a, z.threads[t].pos, k)
  {
    hide Up, Inv, Mon;
    match a
    case SemaUp(k) => UpQuiet(o, k);
    case _ =>
  }

  ghost predicate Moves(o: State, a: Action, s: State, z: State, t: nat)
    requires t < |o.threads| && IsCall(a) && CanCall(o, a) && t < |s.threads|
  {
    && Phase(o, a, z, t)
    && forall k: nat ::
         && Downs(z, k) - Downs(s, k) == DownsAt(o, a, z.threads[t].pos, k) - DownsAt(o, a, s.threads[t].pos, k)
         && Ups(z, k) - Ups(s, k) == UpsAt(o, a, z.threads[t].pos, k) - UpsAt(o, a, s.threads[t].pos, k)
  }

  /** The next step of a call on a semaphore or of a signal takes it to its next point ... */
  lemma PlainMoves(o: State, a: Action, s: State)
    requires Inv(s) && Mon(s) && InRange(s) && s.current != s.idle && CanContinue(s, s.threads[s.current].pos)
    requires s.current < |o.threads| && IsCall(a) && CanCall(o, a) && Phase(o, a, s, s.current) && Fixed(o, s)
    requires a.SemaDown? || a.SemaUp? || a.CondSignal?
    ensures Moves(o, a, s, Next(s, s.threads[s.current]), s.current)
  {
    hide Up, Down, Inv, Mon;
    var t, th := s.current, s.threads[s.current];
    CurrentPos(s);
    match th.pos
    case Downing(k) => DownQuiet(s, k, Outside, th.held);
    case Signalling(w) => UpQuiet(s, w);
  }

  /** ... and so of `lock_acquire` ... */
  lemma AcquireMoves(o: State, a: Action, s: State)
    requires Inv(s) && Mon(s) && InRange(s) && s.current != s.idle && CanContinue(s, s.threads[s.current].pos)
    requires s.current < |o.threads| && IsCall(a) && CanCall(o, a) && Phase(o, a, s, s.current) && Fixed(o, s)
    requires a.LockAcquire?
    ensures Moves(o, a, s, Next(s, s.threads[s.current]), s.current)
  {
    hide Up, Down, Inv, Mon;
    var t, th := s.current, s.threads[s.current];
    CurrentPos(s);
    if th.pos.Acquiring? {
      DownQuiet(s, th.pos.sema, Acquired(th.pos.lock), th.held + {th.pos.lock});
    }
  }

  /** ... and of `lock_release` ... */
  lemma ReleaseMoves(o: State, a: Action, s: State)
    requires Inv(s) && Mon(s) && InRange(s) && s.current != s.idle && CanContinue(s, s.threads[s.current].pos)
    requires s.current < |o.threads| && IsCall(a) && CanCall(o, a) && Phase(o, a, s, s.current) && Fixed(o, s)
    requires a.LockRelease?
    ensures Moves(o, a, s, Next(s, s.threads[s.current]), s.current)
  {
    hide Up, Down, Inv, Mon;
    var t, th := s.current, s.threads[s.current];
    CurrentPos(s);
    UpQuiet(s, s.locks[th.pos.lock].sema);
  }

  /** ... and of `cond_wait`, until it turns to the lock ... */
  lemma WaitMoves(o: State, a: Action, s: State)
    requires Inv(s) && Mon(s) && InRange(s) && s.current != s.idle && CanContinue(s, s.threads[s.current].pos)
    requires s.current < |o.threads| && IsCall(a) && CanCall(o, a) && Phase(o, a, s, s.current) && Fixed(o, s)
    requires a.CondWait? && !s.threads[s.current].pos.Acquiring? && !s.threads[s.current].pos.Acquired?
    ensures Moves(o, a, s, Next(s, s.threads[s.current]), s.current)
  {
    hide Up, Down, Inv, Mon;
    var t, th := s.current, s.threads[s.current];
    CurrentPos(s);
    match th.pos
    case WaitDown(l, w) =>
      DownQuiet(s, w, Acquiring(l, s.locks[l].sema), th.held);
      if s.semas[w].value > 0 {
        WaitedRaised(s, t, l, w);
      }
    case WaitReleasing(l, w) => UpQuiet(s, s.locks[l].sema);
    case _ =>
  }

  /** ... and after that. */
  lemma WaitAcquires(o: State, a: Action, s: State)
    requires Inv(s) && Mon(s) && InRange(s) && s.current != s.idle && CanContinue(s, s.threads[s.current].pos)
    requires s.current < |o.threads| && IsCall(a) && CanCall(o, a) && Phase(o, a, s, s.current) && Fixed(o, s)
    requires a.CondWait? && (s.threads[s.current].pos.Acquiring? || s.threads[s.current].pos.Acquired?)
    ensures Moves(o, a, s, Next(s, s.threads[s.current]), s.current)
  {
    hide Up, Down, Inv, Mon;
    var t, th := s.current, s.threads[s.current];
    CurrentPos(s);
    if th.pos.Acquiring? {
      DownQuiet(s, th.pos.sema, Acquired(th.pos.lock), th.held + {th.pos.lock});
    }
  }

  lemma CallMoves(o: State, a: Action, s: State)
    requires Inv(s) && Mon(s) && InRange(s) && s.current != s.idle && CanContinue(s, s.threads[s.current].pos)
    requires s.current < |o.threads| && IsCall(a) && CanCall(o, a) && Phase(o, a, s, s.current) && Fixed(o, s)
    ensures Moves(o, a, s, Next(s, s.threads[s.current]), s.current)
  {
    hide Inv, Mon, Moves, CanContinue, Next, CanCall;
    match a
    case LockAcquire(_) => AcquireMoves(o, a, s);
    case LockRelease(_) => ReleaseMoves(o, a, s);
    case CondWait(_, _) =>
      if s.threads[s.current].pos.Acquiring? || s.threads[s.current].pos.Acquired? {
        WaitAcquires(o, a, s);
      } else {
        WaitMoves(o, a, s);
      }
    case _ => PlainMoves(o, a, s);
  }

  /** Any step that is not the call's next leaves it where it is. */
  lemma CallStays(o: State, a: Action, s: State, b: Action, t: nat)
    requires Inv(s) && Mon(s) && Enabled(s, b) && (t != s.current || b.YieldNow? || b.TimerInterrupt?)
    requires t < |o.threads| && IsCall(a) && CanCall(o, a) && Phase(o, a, s, t)
    ensures var z := Do(s, b); Phase(o, a, z, t) && z.threads[t].pos == s.threads[t].pos
    ensures t == s.current ==> Do(s, b).semas == s.semas
  {
    hide Do, Inv, Mon, Enabled;
    StepOthers(s, b, t);
    StepFixed(s, b);
    if t == s.current {
      QuietSemas(s, b);
    }
  }

  lemma FixedTrans(a: State, b: State, c: State)
    requires Fixed(a, b) && Fixed(b, c)
    ensures Fixed(a, c)
  {}

  /** From any point of a call to its end. */
  lemma {:induction false} CallEnds(o: State, a: Action, s: State, run: seq<Action>, t: nat, k: nat)
    requires Inv(s) && Mon(s) && Runs(s, run) && ReturnsAfter(s, run, t)
    requires t < |o.threads| && IsCall(a) && CanCall(o, a) && Phase(o, a, s, t) && Fixed(o, s)
    ensures var z := End(s, run);
            && Inv(z) && Mon(z) && Phase(o, a, z, t) && z.threads[t].pos.Outside? && Fixed(o, z)
            && DownsAt(o, a, s.threads[t].pos, k) + DownsBy(s, run, t, k) == DownsAt(o, a, Outside, k)
            && UpsAt(o, a, s.threads[t].pos, k) + UpsBy(s, run, t, k) == UpsAt(o, a, Outside, k)
    decreases |run|
  {
    hide Inv, Mon, Do, Phase, Fixed, DownsAt, UpsAt, Enabled;
    if run != [] {
      var z := Do(s, run[0]);
      StepKeeps(s, run[0]);
      StepMon(s, run[0]);
      StepFixed(s, run[0]);
      FixedTrans(o, s, z);
      InCall(s, run[0], t);
      if t == s.current && run[0].Continue? {
        CallMoves(o, a, s);
        IsNext(s);
      } else {
        CallStays(o, a, s, run[0], t);
      }
      CallEnds(o, a, z, run[1..], t, k);
    }
  }

  /** A thread inside a call can only go on with it, or give up the processor. */
  lemma InCall(s: State, a: Action, t: nat)
    requires Enabled(s, a) && t < |s.threads| && !s.threads[t].pos.Outside?
    ensures t != s.current || a.YieldNow? || a.TimerInterrupt? || a.Continue?
    ensures a.Continue? ==> s.current != s.idle && CanContinue(s, s.threads[s.current].pos)
    ensures InRange(s)
  {}

  lemma IsNext(s: State)
    requires Enabled(s, Continue)
    ensures Do(s, Continue) == Next(s, s.threads[s.current])
  {}

  // ---- When it returns ----

  lemma CallDone(s: State, run: seq<Action>, k: nat)
    requires Inv(s) && Mon(s) && WholeCall(s, run) && IsCall(run[0])
    ensures var z := End(s, run);
            && Mon(z) && Phase(s, run[0], z, s.current) && z.threads[s.current].pos.Outside? && Fixed(s, z)
            && DownsBy(s, run, s.current, k) == DownsAt(s, run[0], Outside, k)
            && UpsBy(s, run, s.current, k) == UpsAt(s, run[0], Outside, k)
  {
    hide Inv, Mon, Do, Phase, Fixed, DownsAt, UpsAt;
    var a := run[0];
    CallStarts(s, a);
    StepKeeps(s, a);
    StepMon(s, a);
    StepFixed(s, a);
    assert Enabled(s, a) && CanCall(s, a);
    CallEnds(s, a, Do(s, a), run[1..], s.current, k);
  }

  /** The lock of `held` whose holder a thread outside any call is. */
  lemma HolderIs(z: State, t: nat, l: nat)
    requires Mon(z) && t < |z.threads| && z.threads[t].pos.Outside? && l < |z.locks|
    ensures z.locks[l].holder == Holder(t) <==> l in z.threads[t].held
  {
    hide PosOk, OwnOk, CondOk;
    assert LockOk(z, l);
  }

  /** `lock_acquire` returns with the lock, and with every other lock as before; it
      has downed the lock's semaphore once and done nothing to any other. */
  lemma AcquireDone(s: State, run: seq<Action>, l: nat, k: nat)
    requires Inv(s) && Mon(s) && WholeCall(s, run) && run[0] == LockAcquire(l)
    ensures var z, t := End(s, run), s.current;
            && t < |z.threads| && z.threads[t].held == s.threads[t].held + {l}
            && l < |z.locks| && z.locks[l].holder == Holder(t)
            && DownsBy(s, run, t, k) == (if k == z.locks[l].sema then 1 else 0) && UpsBy(s, run, t, k) == 0
  {
    hide Inv, Mon;
    CallDone(s, run, k);
    HolderIs(End(s, run), s.current, l);
  }

  /** `lock_release` returns without it; it has upped the semaphore once. */
  lemma ReleaseDone(s: State, run: seq<Action>, l: nat, k: nat)
    requires Inv(s) && Mon(s) && WholeCall(s, run) && run[0] == LockRelease(l)
    ensures var z, t := End(s, run), s.current;
            && t < |z.threads| && z.threads[t].held == s.threads[t].held - {l}
            && l < |z.locks| && z.locks[l].holder != Holder(t)
            && UpsBy(s, run, t, k) == (if k == z.locks[l].sema then 1 else 0) && DownsBy(s, run, t, k) == 0
  {
    hide Inv, Mon;
    CallDone(s, run, k);
    HolderIs(End(s, run), s.current, l);
  }

  /** `cond_wait` returns with the lock it was called with, which it has given up and
      taken back once each, and not before its own semaphore was raised by a signal. */
  lemma WaitDone(s: State, run: seq<Action>, c: nat, l: nat, k: nat)
    requires Inv(s) && Mon(s) && WholeCall(s, run) && run[0] == CondWait(c, l)
    ensures var z, t, w := End(s, run), s.current, |s.semas|;
            && t < |z.threads| && l in z.threads[t].held && z.threads[t].held == s.threads[t].held
            && l < |z.locks| && z.locks[l].holder == Holder(t)
            && w < |z.semas| && z.semas[w].role == Own(t, Raised)
            && DownsBy(s, run, t, k) == (if k == z.locks[l].sema || k == w then 1 else 0)
            && UpsBy(s, run, t, k) == (if k == z.locks[l].sema then 1 else 0)
  {
    CallerHolds(s, l);
    hide Inv, Mon;
    CallDone(s, run, k);
    HolderIs(End(s, run), s.current, l);
  }

  lemma CallerHolds(s: State, l: nat)
    requires Mon(s) && l < |s.locks| && s.locks[l].holder == Holder(s.current)
    ensures s.current < |s.threads| && l in s.threads[s.current].held && s.locks[l].sema < |s.semas|
  {
    hide PosOk, OwnOk, CondOk;
    assert LockOk(s, l);
  }

  /** `cond_signal` returns after one up of the first waiter's semaphore, if there was
      a waiter, and of no other. */
  lemma SignalDone(s: State, run: seq<Action>, c: nat, l: nat, k: nat)
    requires Inv(s) && Mon(s) && WholeCall(s, run) && run[0] == CondSignal(c, l)
    ensures var z, t := End(s, run), s.current;
            && t < |z.threads| && z.threads[t].held == s.threads[t].held && c < |s.conds|
            && UpsBy(s, run, t, k) == (if s.conds[c] != [] && k == s.conds[c][0] then 1 else 0) && DownsBy(s, run, t, k) == 0
  {
    hide Inv, Mon;
    CallDone(s, run, k);
  }

  /** `sema_down` returns after one down of its semaphore ... */
  lemma DownDone(s: State, run: seq<Action>, j: nat, k: nat)
    requires Inv(s) && Mon(s) && WholeCall(s, run) && run[0] == SemaDown(j)
    ensures var z, t := End(s, run), s.current;
            && t < |z.threads| && z.threads[t].held == s.threads[t].held
            && DownsBy(s, run, t, k) == (if k == j then 1 else 0) && UpsBy(s, run, t, k) == 0
  {
    hide Inv, Mon;
    CallDone(s, run, k);
  }

  /** ... and `sema_up` after one up, at once. */
  lemma UpDone(s: State, run: seq<Action>, j: nat, k: nat)
    requires Inv(s) && Mon(s) && WholeCall(s, run) && run[0] == SemaUp(j)
    ensures var z, t := End(s, run), s.current;
            && t < |z.threads| && z.threads[t].held == s.threads[t].held && |run| == 1
            && UpsBy(s, run, t, k) == (if k == j then 1 else 0) && DownsBy(s, run, t, k) == 0
  {
    hide Inv, Mon;
    CallDone(s, run, k);
    CallStarts(s, run[0]);
  }
}
