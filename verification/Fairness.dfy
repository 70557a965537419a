/** Who comes first: the wait lists of semaphores and condition variables are served in
    the order of arrival, and threads that are made, yield or exit have their place in
    the run queue, or none (`pintos/src/threads/synch.c`, `pintos/src/threads/thread.c`). */
module Fairness {
  import opened Basics
  import opened Threads
  import opened Scheduling
  import opened Monitors

  // ---- Semaphores ----

  /** What a step does to the wait list of a semaphore that is not upped, and of one
      that is. */
  ghost predicate Served(s: State, z: State, k: nat)
    requires k < |s.semas|
  {
    && k < |z.semas|
    && (if z.semas[k].ups == s.semas[k].ups then s.semas[k].waiters <= z.semas[k].waiters
        else
          && z.semas[k].ups == s.semas[k].ups + 1
          && (s.semas[k].waiters != [] ==>
                var t := s.semas[k].waiters[0];
                && s.semas[k].waiters[1..] <= z.semas[k].waiters
                && t < |z.threads| && z.threads[t].status.Ready? && t in z.ready))
  }

  lemma ServedUp(s: State, j: nat, k: nat)
    requires CanUp(s, j) && k < |s.semas|
    ensures Served(s, Up(s, j), k) && |Up(s, j).semas| == |s.semas|
  {}

  lemma ServedDown(s: State, j: nat, next: Pos, held: set<nat>, k: nat)
    requires InRange(s) && j < |s.semas| && k < |s.semas|
    ensures Served(s, Down(s, j, next, held), k)
  {}

  lemma ServedNext(s: State, k: nat)
    requires InRange(s) && CanContinue(s, s.threads[s.current].pos) && k < |s.semas|
    ensures Served(s, Next(s, s.threads[s.current]), k)
  {
    hide Up, Down;
    var th := s.threads[s.current];
    match th.pos
    case Downing(j) => ServedDown(s, j, Outside, th.held, k);
    case Acquiring(l, j) => ServedDown(s, j, Acquired(l), th.held + {l}, k);
    case WaitDown(l, w) => ServedDown(s, w, Acquiring(l, s.locks[l].sema), th.held, k);
    case Releasing(l) =>
      UpQuiet(s, s.locks[l].sema);
      ServedUp(s, s.locks[l].sema, k);
    case WaitReleasing(l, w) =>
      UpQuiet(s, s.locks[l].sema);
      ServedUp(s, s.locks[l].sema, k);
    case Signalling(w) =>
      UpQuiet(s, w);
      ServedUp(s, w, k);
    case _ =>
  }

  lemma StepServes(s: State, a: Action, k: nat)
    requires Enabled(s, a) && k < |s.semas|
    ensures Served(s, Do(s, a), k)
  {
    hide Up, Next;
    match a
    case SemaUp(j) => ServedUp(s, j, k);
    case Continue => ServedNext(s, k);
    case TimerInterrupt => WakeQuiet(s.(ticks := s.ticks + 1));
    case _ =>
  }

  lemma {:induction false} UpsRise(s: State, run: seq<Action>, k: nat)
    requires Runs(s, run) && k < |s.semas|
    ensures k < |End(s, run).semas| && s.semas[k].ups <= End(s, run).semas[k].ups
    decreases |run|
  {
    hide Do, Enabled;
    if run != [] {
      StepServes(s, run[0], k);
      UpsRise(Do(s, run[0]), run[1..], k);
    }
  }

  /** A run in which semaphore `k` is upped n times takes the first n off its wait list
      and leaves the others, in their order, in front of whoever comes later. */
  lemma {:induction false} WaitPosition(s: State, run: seq<Action>, k: nat)
    requires Runs(s, run) && k < |s.semas| && k < |End(s, run).semas|
    requires End(s, run).semas[k].ups - s.semas[k].ups <= |s.semas[k].waiters|
    ensures var n := End(s, run).semas[k].ups - s.semas[k].ups;
            0 <= n && s.semas[k].waiters[n..] <= End(s, run).semas[k].waiters
    decreases |run|
  {
    hide Do, Enabled, Served;
    UpsRise(s, run, k);
    if run != [] {
      var z := Do(s, run[0]);
      StepServes(s, run[0], k);
      ServedParts(s, z, k);
      UpsRise(z, run[1..], k);
      var served, n := z.semas[k].ups != s.semas[k].ups, End(s, run).semas[k].ups - z.semas[k].ups;
      WaitPosition(z, run[1..], k);
      WaitStep(s.semas[k].waiters, z.semas[k].waiters, served, n, End(s, run).semas[k].waiters);
    }
  }

  lemma ServedParts(s: State, z: State, k: nat)
    requires k < |s.semas| && Served(s, z, k)
    ensures k < |z.semas|
    ensures var p, q := s.semas[k].waiters, z.semas[k].waiters;
            if z.semas[k].ups == s.semas[k].ups then p <= q
            else z.semas[k].ups == s.semas[k].ups + 1 && |p| <= |q| + 1 && (p != [] ==> p[1..] <= q)
  {}

  lemma WaitStep(p: seq<nat>, q: seq<nat>, served: bool, n: nat, r: seq<nat>)
    requires if served then p != [] ==> p[1..] <= q else p <= q
    requires n + (if served then 1 else 0) <= |p| && n <= |q| && q[n..] <= r
    ensures p[n + (if served then 1 else 0)..] <= r
  {
    if served {
      assert p[1..][n..] == p[n + 1..];
      FrontOf(p[1..], q, n, r);
    } else {
      FrontOf(p, q, n, r);
    }
  }

  lemma FrontOf(p: seq<nat>, q: seq<nat>, n: nat, r: seq<nat>)
    requires p <= q && n <= |p| && q[n..] <= r
    ensures p[n..] <= r
  {
    assert p[n..] <= q[n..];
  }

  /** So the thread at index i of a wait list is woken at exactly the (i+1)-th up. */
  lemma WokenInTurn(s: State, run: seq<Action>, a: Action, k: nat, i: nat)
    requires Inv(s) && Runs(s, run) && Enabled(End(s, run), a) && k < |s.semas| && i < |s.semas[k].waiters|
    requires k < |End(s, run).semas| && End(s, run).semas[k].ups == s.semas[k].ups + i
    requires k < |Do(End(s, run), a).semas| && Do(End(s, run), a).semas[k].ups > End(s, run).semas[k].ups
    ensures var t, y, z := s.semas[k].waiters[i], End(s, run), Do(End(s, run), a);
            && t in y.semas[k].waiters && t !in y.ready && t < |y.threads| && y.threads[t].status.Blocked?
            && t in z.ready && t < |z.threads| && z.threads[t].status.Ready?
  {
    hide Do, Enabled;
    var y := End(s, run);
    WaitPosition(s, run, k);
    RunKeeps(s, run);
    StepServes(y, a, k);
    assert s.semas[k].waiters[i..][0] == y.semas[k].waiters[0];
    WaitsBlocked(y, k);
  }

  lemma WaitsBlocked(s: State, k: nat)
    requires Inv(s) && k < |s.semas| && s.semas[k].waiters != []
    ensures var t := s.semas[k].waiters[0]; t < |s.threads| && s.threads[t].status.Blocked? && t !in s.ready
  {
    hide AllCovered, Timely, ThreadsOk;
    assert ListOk(s.threads, s.idle, s.semas[k].waiters, InSema(k)) && ListOk(s.threads, s.idle, s.ready, InReady);
  }

  // ---- Condition variables ----

  predicate Signals(a: Action, c: nat) { a.CondSignal? && a.cond == c }

  /** How often the run signals condition `c`. */
  function SignalCount(run: seq<Action>, c: nat): nat {
    if run == [] then 0 else (if Signals(run[0], c) then 1 else 0) + SignalCount(run[1..], c)
  }

  lemma StepSignals(s: State, a: Action, c: nat)
    requires Enabled(s, a) && c < |s.conds|
    ensures var z := Do(s, a);
            && c < |z.conds|
            && (if !Signals(a, c) then s.conds[c] <= z.conds[c]
                else s.conds[c] != [] ==>
                  var w := s.conds[c][0];
                  && z.conds[c] == s.conds[c][1..]
                  && w < |z.semas| && z.semas[w].role.Own? && z.semas[w].role.stage == Popped(s.current)
                  && s.current < |z.threads| && z.threads[s.current].pos == Signalling(w))
  {
    hide Up, Down;
    match a
    case SemaUp(j) => UpQuiet(s, j);
    case Continue => NextConds(s);
    case TimerInterrupt => WakeQuiet(s.(ticks := s.ticks + 1));
    case _ =>
  }

  lemma NextConds(s: State)
    requires InRange(s) && CanContinue(s, s.threads[s.current].pos)
    ensures Next(s, s.threads[s.current]).conds == s.conds
  {
    hide Up, Down;
    var th := s.threads[s.current];
    match th.pos
    case Downing(k) => DownQuiet(s, k, Outside, th.held);
    case Acquiring(l, k) => DownQuiet(s, k, Acquired(l), th.held + {l});
    case WaitDown(l, w) => DownQuiet(s, w, Acquiring(l, s.locks[l].sema), th.held);
    case Releasing(l) => UpQuiet(s, s.locks[l].sema);
    case WaitReleasing(l, w) => UpQuiet(s, s.locks[l].sema);
    case Signalling(w) => UpQuiet(s, w);
    case _ =>
  }

  /** A run that signals a condition n times takes the first n off its list and leaves
      the others, in their order, in front of whoever comes later. */
  lemma {:induction false} SignalPosition(s: State, run: seq<Action>, c: nat)
    requires Runs(s, run) && c < |s.conds| && SignalCount(run, c) <= |s.conds[c]|
    ensures c < |End(s, run).conds| && s.conds[c][SignalCount(run, c)..] <= End(s, run).conds[c]
    decreases |run|
  {
    hide Do, Enabled;
    if run != [] {
      var z, n := Do(s, run[0]), SignalCount(run[1..], c);
      StepSignals(s, run[0], c);
      SignalPosition(z, run[1..], c);
      if Signals(run[0], c) {
        assert s.conds[c][1..][n..] == s.conds[c][n + 1..];
      } else {
        FrontOf(s.conds[c], z.conds[c], n, End(s, run).conds[c]);
      }
    }
  }

  /** So the waiter at index i of a condition's list is the one that the (i+1)-th
      signal is for. */
  lemma SignalledInTurn(s: State, run: seq<Action>, c: nat, l: nat, i: nat)
    requires Runs(s, run) && c < |s.conds| && i < |s.conds[c]| && SignalCount(run, c) == i
    requires Enabled(End(s, run), CondSignal(c, l))
    ensures var w, y, z := s.conds[c][i], End(s, run), Do(End(s, run), CondSignal(c, l));
            && w < |z.semas| && z.semas[w].role.Own? && z.semas[w].role.stage == Popped(y.current)
            && y.current < |z.threads| && z.threads[y.current].pos == Signalling(w)
  {
    hide Do, Enabled;
    SignalPosition(s, run, c);
    StepSignals(End(s, run), CondSignal(c, l), c);
    assert s.conds[c][i..][0] == End(s, run).conds[c][0];
  }

  // ---- Places in the run queue ----

  /** A thread that is made runs for the first time after all that were ready. */
  lemma CreatedInTurn(s: State, run: seq<Action>)
    requires Enabled(s, CreateThread) && Runs(Do(s, CreateThread), run)
    requires SwitchCount(Do(s, CreateThread), run) == |s.ready| + 1
    ensures var z, t := End(Do(s, CreateThread), run), |s.threads|; z.current == t
  {
    var y := Do(s, CreateThread);
    assert y.ready == s.ready + [|s.threads|];
    hide Do;
    QueuePosition(y, run);
  }

  lemma YieldQueue(s: State)
    requires Enabled(s, YieldNow) && s.current != s.idle
    ensures var y, all := Do(s, YieldNow), s.ready + [s.current]; y.current == all[0] && y.ready == all[1..]
  {}

  /** A thread that yields runs again after all that were ready. */
  lemma YieldsInTurn(s: State, run: seq<Action>)
    requires Enabled(s, YieldNow) && s.current != s.idle && Runs(Do(s, YieldNow), run)
    requires SwitchCount(Do(s, YieldNow), run) == |s.ready|
    ensures End(Do(s, YieldNow), run).current == s.current
  {
    YieldQueue(s);
    var all := s.ready + [s.current];
    hide Do, Enabled, SwitchCount, Runs, End;
    QueuePosition(Do(s, YieldNow), run);
    assert all[|s.ready|] == s.current;
    assert |s.ready| > 0 ==> all[1..][|s.ready| - 1] == s.current;
  }

  /** A thread that has exited never runs again. */
  lemma {:induction false} ExitIsFinal(s: State, run: seq<Action>, t: nat)
    requires Inv(s) && Runs(s, run) && t < |s.threads| && s.threads[t].status.Dying?
    ensures var z := End(s, run); t < |z.threads| && z.threads[t].status.Dying? && z.current != t && t !in z.ready
    decreases |run|
  {
    hide Do, Enabled;
    DyingElsewhere(s, t);
    if run != [] {
      StepDying(s, run[0], t);
      StepKeeps(s, run[0]);
      hide Inv;
      ExitIsFinal(Do(s, run[0]), run[1..], t);
    }
  }

  lemma DyingElsewhere(s: State, t: nat)
    requires Inv(s) && t < |s.threads| && s.threads[t].status.Dying?
    ensures Elsewhere(s, t) && t !in s.ready && !Asleep(s, t)
  {
    hide AllCovered, Timely;
    assert forall k :: 0 <= k < |s.semas| ==> ListOk(s.threads, s.idle, s.semas[k].waiters, InSema(k));
    assert ThreadOk(s.threads[t], t == s.idle, |s.semas|);
  }

  lemma StepDying(s: State, a: Action, t: nat)
    requires Inv(s) && Enabled(s, a) && t < |s.threads| && s.threads[t].status.Dying?
    ensures t < |Do(s, a).threads| && Do(s, a).threads[t].status.Dying?
  {
    DyingElsewhere(s, t);
    if a.TimerInterrupt? {
      TickKeeps(s);
    } else {
      ElsewhereStays(s, a, t);
    }
  }

  /** `thread_exit`: and so it is of the thread that calls it. */
  lemma ExitsForGood(s: State, run: seq<Action>)
    requires Inv(s) && Enabled(s, Exit) && Runs(Do(s, Exit), run)
    ensures var z, t := End(Do(s, Exit), run), s.current;
            t < |z.threads| && z.threads[t].status.Dying? && z.current != t && t !in z.ready
  {
    StepKeeps(s, Exit);
    ExitDies(s);
    ExitIsFinal(Do(s, Exit), run, s.current);
  }

  lemma ExitDies(s: State)
    requires Inv(s) && Enabled(s, Exit)
    ensures s.current < |Do(s, Exit).threads| && Do(s, Exit).threads[s.current].status.Dying?
  {
    hide AllCovered, Timely;
    CurrentNotReady(s);
  }
}
