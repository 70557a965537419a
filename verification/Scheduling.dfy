/** What every step of the threads keeps: one thread runs, every list holds
    exactly the threads it should, no wakeup of a semaphore is lost, and sleepers
    wake on their tick. */
module Scheduling {
  import opened Basics
  import opened Threads

  // ---- Who is on which list ----

  datatype Place = Nowhere | InReady | InSema(sema: nat) | InSleep

  /** Where a thread in this condition belongs. */
  function PlaceOf(th: Thread, isIdle: bool): Place {
    match th.status
    case Ready => if isIdle then Nowhere else InReady
    case Blocked =>
      (match th.pos
       case Downing(k) => InSema(k)
       case Acquiring(_, k) => InSema(k)
       case WaitDown(_, w) => InSema(w)
       case Sleeping(_) => InSleep
       case _ => Nowhere)
    case _ => Nowhere
  }

  /** A list holds the threads that belong there, each once. */
  ghost predicate ListOk(threads: seq<Thread>, idle: nat, q: seq<nat>, p: Place) {
    && (forall i :: 0 <= i < |q| ==> q[i] < |threads| && PlaceOf(threads[q[i]], q[i] == idle) == p)
    && NoDup(q)
    && (forall t :: 0 <= t < |threads| && PlaceOf(threads[t], t == idle) == p ==> t in q)
  }

  /** How a list follows when thread `t` comes to another place. */
  ghost predicate Follows(q: seq<nat>, r: seq<nat>, t: nat, before: bool, after: bool) {
    if before == after then r == q
    else if before then q != [] && q[0] == t && r == q[1..]
    else exists i :: 0 <= i <= |q| && r == q[..i] + [t] + q[i..]
  }

  lemma ListFollows(threads: seq<Thread>, idle: nat, q: seq<nat>, r: seq<nat>, p: Place, t: nat, th: Thread)
    requires t < |threads| && ListOk(threads, idle, q, p)
    requires Follows(q, r, t, PlaceOf(threads[t], t == idle) == p, PlaceOf(th, t == idle) == p)
    ensures ListOk(threads[t := th], idle, r, p)
  {
    var before, after := PlaceOf(threads[t], t == idle) == p, PlaceOf(th, t == idle) == p;
    if before && !after {
      ListPop(threads, idle, q, p, th);
    } else if !before && after {
      var i :| 0 <= i <= |q| && r == q[..i] + [t] + q[i..];
      ListInsert(threads, idle, q, p, t, th, i);
    }
  }

  lemma ListPop(threads: seq<Thread>, idle: nat, q: seq<nat>, p: Place, th: Thread)
    requires ListOk(threads, idle, q, p) && q != [] && PlaceOf(th, q[0] == idle) != p
    ensures ListOk(threads[q[0] := th], idle, q[1..], p)
  {
    forall u | 0 <= u < |threads| && u != q[0] && PlaceOf(threads[u], u == idle) == p
      ensures u in q[1..]
    {
      assert u in q;
    }
  }

  lemma ListInsert(threads: seq<Thread>, idle: nat, q: seq<nat>, p: Place, t: nat, th: Thread, i: nat)
    requires t < |threads| && ListOk(threads, idle, q, p) && i <= |q|
    requires PlaceOf(threads[t], t == idle) != p && PlaceOf(th, t == idle) == p
    ensures ListOk(threads[t := th], idle, q[..i] + [t] + q[i..], p)
  {
    hide NoDup, PlaceOf;
    var r := q[..i] + [t] + q[i..];
    assert t !in q;
    Inserted(q, t, i);
    forall j | 0 <= j < |r|
      ensures r[j] < |threads| && PlaceOf(threads[t := th][r[j]], r[j] == idle) == p
    {
      assert r[j] in r;
    }
  }

  /** A list with one more member. */
  lemma Inserted(q: seq<nat>, t: nat, i: nat)
    requires i <= |q| && t !in q
    ensures forall u :: u in q[..i] + [t] + q[i..] <==> u in q || u == t
    ensures NoDup(q) ==> NoDup(q[..i] + [t] + q[i..])
  {
    var r := q[..i] + [t] + q[i..];
    assert q == q[..i] + q[i..] && r[i] == t;
    if NoDup(q) {
      forall j, k | 0 <= j < k < |r|
        ensures r[j] != r[k]
      {
        assert j != i ==> r[j] == q[if j < i then j else j - 1];
        assert k != i ==> r[k] == q[if k < i then k else k - 1];
      }
    }
  }

  ghost predicate Lists(s: State) {
    && ListOk(s.threads, s.idle, s.ready, InReady)
    && ListOk(s.threads, s.idle, s.sleepers, InSleep)
    && (forall k :: 0 <= k < |s.semas| ==> ListOk(s.threads, s.idle, s.semas[k].waiters, InSema(k)))
  }

  /** Thread `t` becomes `th`, and the lists follow. */
  ghost predicate Moved(s: State, z: State, t: nat, th: Thread) {
    && t < |s.threads| && z.threads == s.threads[t := th] && z.idle == s.idle && |z.semas| == |s.semas|
    && var was, now := PlaceOf(s.threads[t], t == s.idle), PlaceOf(th, t == s.idle);
       && Follows(s.ready, z.ready, t, was == InReady, now == InReady)
       && Follows(s.sleepers, z.sleepers, t, was == InSleep, now == InSleep)
       && (forall k :: 0 <= k < |s.semas| ==>
             Follows(s.semas[k].waiters, z.semas[k].waiters, t, was == InSema(k), now == InSema(k)))
  }

  lemma ListsFollow(s: State, z: State, t: nat, th: Thread)
    requires Lists(s) && Moved(s, z, t, th)
    ensures Lists(z)
  {
    hide ListOk, Follows;
    ListFollows(s.threads, s.idle, s.ready, z.ready, InReady, t, th);
    ListFollows(s.threads, s.idle, s.sleepers, z.sleepers, InSleep, t, th);
    forall k | 0 <= k < |s.semas|
      ensures ListOk(z.threads, z.idle, z.semas[k].waiters, InSema(k))
    {
      ListFollows(s.threads, s.idle, s.semas[k].waiters, z.semas[k].waiters, InSema(k), t, th);
    }
  }

  lemma FollowsPush(q: seq<nat>, t: nat)
    ensures Follows(q, q + [t], t, false, true)
  {
    assert q + [t] == q[..|q|] + [t] + q[|q|..];
  }

  // ---- Who is in which condition ----

  predicate Awaits(pos: Pos, k: nat) {
    match pos
    case Downing(j) => j == k
    case Acquiring(_, j) => j == k
    case WaitDown(_, w) => w == k
    case _ => false
  }

  predicate Awaiting(pos: Pos) { pos.Downing? || pos.Acquiring? || pos.WaitDown? }

  /** The semaphores a position names exist. */
  predicate PosInRange(pos: Pos, semas: nat) {
    match pos
    case Downing(k) => k < semas
    case Acquiring(_, k) => k < semas
    case WaitQueued(_, w) => w < semas
    case WaitReleasing(_, w) => w < semas
    case WaitDown(_, w) => w < semas
    case _ => true
  }

  predicate ThreadOk(th: Thread, isIdle: bool, semas: nat) {
    && PosInRange(th.pos, semas)
    && (th.woken ==> Awaiting(th.pos) && (th.status.Ready? || th.status.Running?))
    && (isIdle ==> th.pos.Outside? && !th.status.Dying?) && (th.status.Dying? ==> th.pos.Outside?)
    && (th.status.Blocked? && !isIdle ==> Awaiting(th.pos) || th.pos.Sleeping?)
  }

  ghost predicate ThreadsOk(s: State) {
    && s.current < |s.threads| && s.idle < |s.threads|
    && (forall t :: 0 <= t < |s.threads| ==> ThreadOk(s.threads[t], t == s.idle, |s.semas|))
    && (forall l :: 0 <= l < |s.locks| ==> s.locks[l].sema < |s.semas|)
  }

  /** Exactly the current thread runs. */
  ghost predicate OneRuns(s: State) {
    forall t :: 0 <= t < |s.threads| ==> (s.threads[t].status.Running? <==> t == s.current)
  }

  ghost predicate NoneRuns(s: State) {
    forall t :: 0 <= t < |s.threads| ==> !s.threads[t].status.Running?
  }

  // ---- Semaphores ----

  function Woken(threads: seq<Thread>, k: nat): nat {
    if threads == [] then 0
    else (if threads[0].woken && Awaits(threads[0].pos, k) then 1 else 0) + Woken(threads[1..], k)
  }

  lemma {:induction false} WokenSet(threads: seq<Thread>, t: nat, th: Thread, k: nat)
    requires t < |threads|
    ensures Woken(threads[t := th], k) + (if threads[t].woken && Awaits(threads[t].pos, k) then 1 else 0)
         == Woken(threads, k) + (if th.woken && Awaits(th.pos, k) then 1 else 0)
  {
    if t == 0 {
      assert threads[0 := th][1..] == threads[1..];
    } else {
      assert threads[t := th][1..] == threads[1..][t - 1 := th];
      WokenSet(threads[1..], t - 1, th, k);
    }
  }

  lemma {:induction false} WokenMore(threads: seq<Thread>, th: Thread, k: nat)
    requires !th.woken
    ensures Woken(threads + [th], k) == Woken(threads, k)
  {
    if threads == [] {
      assert (threads + [th])[1..] == [];
    } else {
      assert (threads + [th])[1..] == threads[1..] + [th];
      WokenMore(threads[1..], th, k);
    }
  }

  lemma {:induction false} WokenNone(threads: seq<Thread>, k: nat)
    requires forall t :: 0 <= t < |threads| && threads[t].woken ==> !Awaits(threads[t].pos, k)
    ensures Woken(threads, k) == 0
  {
    if threads != [] {
      assert forall t :: 0 <= t < |threads| - 1 ==> threads[1..][t] == threads[t + 1];
      WokenNone(threads[1..], k);
    }
  }

  /** The value is what it began with and what was added and taken; while anyone
      waits, it is covered by threads that were woken and have yet to test it. */
  ghost predicate Covered(threads: seq<Thread>, q: Sema, k: nat) {
    && q.value + q.downs == q.initial + q.ups
    && (q.waiters != [] ==> q.value <= Woken(threads, k))
  }

  ghost predicate AllCovered(s: State) {
    forall k :: 0 <= k < |s.semas| ==> Covered(s.threads, s.semas[k], k)
  }

  /** If a thread moves on without having been woken and without being woken, and no
      semaphore changes, all stay covered. */
  lemma CoveredKept(s: State, z: State, t: nat, th: Thread)
    requires AllCovered(s) && t < |s.threads| && z.threads == s.threads[t := th] && z.semas == s.semas
    requires if s.threads[t].woken then th.woken && th.pos == s.threads[t].pos else !th.woken
    ensures AllCovered(z)
  {
    hide Woken;
    forall k | 0 <= k < |z.semas|
      ensures Covered(z.threads, z.semas[k], k)
    {
      WokenSet(s.threads, t, th, k);
    }
  }

  // ---- Sleepers ----

  function Deadlines(threads: seq<Thread>, q: seq<nat>): (d: seq<int>)
    requires forall j :: 0 <= j < |q| ==> q[j] < |threads|
    ensures |d| == |q| && forall j :: 0 <= j < |q| ==> d[j] == Until(threads[q[j]])
  {
    seq(|q|, j requires 0 <= j < |q| => Until(threads[q[j]]))
  }

  ghost predicate SortedAfter(d: seq<int>, ticks: int) {
    && (forall i, j :: 0 <= i < j < |d| ==> d[i] <= d[j])
    && (forall j :: 0 <= j < |d| ==> ticks < d[j])
  }

  /** The sleep list is sorted and every deadline is still to come. */
  ghost predicate Timely(s: State) {
    SleepersInRange(s) && SortedAfter(Deadlines(s.threads, s.sleepers), s.ticks)
  }

  lemma TimelyKept(s: State, z: State, t: nat, th: Thread)
    requires Timely(s) && t < |s.threads| && z.threads == s.threads[t := th]
    requires z.sleepers == s.sleepers && z.ticks == s.ticks
    requires (forall j :: 0 <= j < |s.sleepers| ==> s.sleepers[j] != t)
    ensures Timely(z)
  {
    assert Deadlines(z.threads, z.sleepers) == Deadlines(s.threads, s.sleepers);
  }

  lemma TimelySame(s: State, z: State)
    requires Timely(s) && z.threads == s.threads && z.sleepers == s.sleepers && z.ticks == s.ticks
    ensures Timely(z)
  {}

  ghost predicate Inv(s: State) {
    OneRuns(s) && ThreadsOk(s) && Lists(s) && AllCovered(s) && Timely(s)
  }

  /** Between giving up the processor and taking it. */
  ghost predicate Mid(s: State) {
    NoneRuns(s) && ThreadsOk(s) && Lists(s) && AllCovered(s) && Timely(s)
  }

  lemma InvRange(s: State)
    requires ThreadsOk(s) && Lists(s)
    ensures InRange(s) && forall k :: 0 <= k < |s.semas| ==> CanUp(s, k)
  {
    forall k | 0 <= k < |s.semas|
      ensures CanUp(s, k)
    {
      assert ListOk(s.threads, s.idle, s.semas[k].waiters, InSema(k));
    }
  }

  lemma ScheduleKeeps(s: State)
    requires Mid(s) && InRange(s)
    ensures Inv(Schedule(s))
  {
    hide Lists, AllCovered, Timely, Woken;
    var z, next := Schedule(s), NextThread(s);
    var th := s.threads[next].(status := Running);
    ReadyFront(s);
    CoveredKept(s, z, next, th);
    NotAsleep(s, next);
    TimelyKept(s, z, next, th);
    assert Moved(s, z, next, th);
    ListsFollow(s, z, next, th);
  }

  lemma ReadyFront(s: State)
    requires Lists(s) && InRange(s)
    ensures s.ready != [] ==> s.threads[s.ready[0]].status.Ready? && s.ready[0] != s.idle
  {}

  lemma NotAsleep(s: State, t: nat)
    requires Lists(s) && t < |s.threads| && PlaceOf(s.threads[t], t == s.idle) != InSleep
    ensures forall j :: 0 <= j < |s.sleepers| ==> s.sleepers[j] != t
  {}

  /** The running thread gives up the processor, ready, dying or (idle) blocked. */
  lemma AwayKeeps(s: State, th: Thread)
    requires Inv(s) && InRange(s) && th == s.threads[s.current].(status := th.status)
    requires th.status.Ready? || (th.status.Dying? && s.current != s.idle && th.pos.Outside?) || (th.status.Blocked? && s.current == s.idle)
    ensures Inv(Away(s, th))
  {
    hide Lists, AllCovered, Timely;
    var t := s.current;
    var z := s.(threads := s.threads[t := th], ready := if th.status == Ready && t != s.idle then s.ready + [t] else s.ready);
    CoveredKept(s, z, t, th);
    NotAsleep(s, t);
    TimelyKept(s, z, t, th);
    FollowsPush(s.ready, t);
    assert Moved(s, z, t, th);
    ListsFollow(s, z, t, th);
    InvRange(z);
    ScheduleKeeps(z);
  }

  /** The running thread goes on. */
  lemma GoKeeps(s: State, pos: Pos, held: set<nat>)
    requires Inv(s) && s.current != s.idle && !s.threads[s.current].woken && PosInRange(pos, |s.semas|)
    ensures Inv(Go(s, pos, held))
  {
    hide Lists, AllCovered, Timely;
    var z, t := Go(s, pos, held), s.current;
    CoveredKept(s, z, t, z.threads[t]);
    NotAsleep(s, t);
    TimelyKept(s, z, t, z.threads[t]);
    assert Moved(s, z, t, z.threads[t]);
    ListsFollow(s, z, t, z.threads[t]);
  }

  lemma DownKeeps(s: State, k: nat, next: Pos, held: set<nat>)
    requires Inv(s) && InRange(s) && k < |s.semas| && s.current != s.idle
    requires Awaits(s.threads[s.current].pos, k) && PosInRange(next, |s.semas|)
    ensures Inv(Down(s, k, next, held))
  {
    hide Lists, Timely, Woken;
    var t, q := s.current, s.semas[k];
    if q.value > 0 {
      var z := Down(s, k, next, held);
      forall j | 0 <= j < |z.semas|
        ensures Covered(z.threads, z.semas[j], j)
      {
        WokenSet(s.threads, t, z.threads[t], j);
      }
      NotAsleep(s, t);
      TimelyKept(s, z, t, z.threads[t]);
      assert Moved(s, z, t, z.threads[t]);
      ListsFollow(s, z, t, z.threads[t]);
    } else {
      var th := s.threads[t].(status := Blocked, woken := false);
      var z := s.(semas := s.semas[k := q.(waiters := q.waiters + [t])], threads := s.threads[t := th]);
      forall j | 0 <= j < |z.semas|
        ensures Covered(z.threads, z.semas[j], j)
      {
        WokenSet(s.threads, t, th, j);
      }
      NotAsleep(s, t);
      TimelyKept(s, z, t, th);
      FollowsPush(q.waiters, t);
      assert Moved(s, z, t, th);
      ListsFollow(s, z, t, th);
      InvRange(z);
      ScheduleKeeps(z);
    }
  }

  lemma UpKeeps(s: State, k: nat)
    requires Inv(s) && CanUp(s, k)
    ensures Inv(Up(s, k)) && Up(s, k).current == s.current
    ensures Up(s, k).threads[s.current] == s.threads[s.current]
  {
    hide Timely, Woken;
    var z, q := Up(s, k), s.semas[k];
    assert ListOk(s.threads, s.idle, q.waiters, InSema(k));
    if q.waiters == [] {
      assert Lists(z);
      assert AllCovered(z) by {
        assert forall j :: 0 <= j < |s.semas| ==> Covered(s.threads, s.semas[j], j);
      }
      TimelySame(s, z);
    } else {
      hide Lists;
      var t := q.waiters[0];
      var th := z.threads[t];
      UpCovered(s, z, k, t);
      NotAsleep(s, t);
      TimelyKept(s, z, t, th);
      FollowsPush(s.ready, t);
      assert Moved(s, z, t, th);
      ListsFollow(s, z, t, th);
    }
  }

  lemma UpCovered(s: State, z: State, k: nat, t: nat)
    requires AllCovered(s) && k < |s.semas| && t < |s.threads| && Awaits(s.threads[t].pos, k) && !s.threads[t].woken
    requires z.threads == s.threads[t := s.threads[t].(status := Ready, woken := true)] && |z.semas| == |s.semas|
    requires forall j :: 0 <= j < |s.semas| && j != k ==> z.semas[j] == s.semas[j]
    requires z.semas[k].value == s.semas[k].value + 1 && z.semas[k].ups == s.semas[k].ups + 1
    requires z.semas[k].downs == s.semas[k].downs && z.semas[k].initial == s.semas[k].initial && s.semas[k].waiters != []
    ensures AllCovered(z)
  {
    hide Woken;
    forall j | 0 <= j < |z.semas|
      ensures Covered(z.threads, z.semas[j], j)
    {
      assert Covered(s.threads, s.semas[j], j);
      WokenSet(s.threads, t, z.threads[t], j);
    }
  }

  lemma CreateKeeps(s: State)
    requires Inv(s)
    ensures Inv(Create(s))
  {
    hide Woken;
    assert Deadlines(Create(s).threads, s.sleepers) == Deadlines(s.threads, s.sleepers);
    var z, t := Create(s), |s.threads|;
    var th := z.threads[t];
    forall k | 0 <= k < |z.semas|
      ensures Covered(z.threads, z.semas[k], k) && ListOk(z.threads, z.idle, z.semas[k].waiters, InSema(k))
    {
      assert Covered(s.threads, s.semas[k], k);
      WokenMore(s.threads, th, k);
      assert ListOk(s.threads, s.idle, s.semas[k].waiters, InSema(k));
    }
  }

  lemma SleepKeeps(s: State, n: int)
    requires Inv(s) && InRange(s) && n > 0 && s.current != s.idle && !s.threads[s.current].woken
    ensures Inv(Sleep(s, n))
  {
    hide AllCovered, Woken, Timely, Lists, Mid, InsertPoint;
    SleepersOk(s);
    var t, until := s.current, s.ticks + n;
    var i := InsertPoint(s.threads, s.sleepers, until);
    var th := s.threads[t].(status := Blocked, pos := Sleeping(until), woken := false);
    var z := s.(sleepers := s.sleepers[..i] + [t] + s.sleepers[i..], threads := s.threads[t := th]);
    CoveredKept(s, z, t, th);
    SleepTimely(s, z, t, until, i);
    assert Moved(s, z, t, th);
    ListsFollow(s, z, t, th);
    InvRange(z);
    IsMid(z);
    ScheduleKeeps(z);
  }

  lemma IsMid(s: State)
    requires NoneRuns(s) && ThreadsOk(s) && Lists(s) && AllCovered(s) && Timely(s)
    ensures Mid(s)
  {}

  lemma SleepersOk(s: State)
    requires Timely(s)
    ensures SleepersInRange(s)
  {}

  lemma SleepTimely(s: State, z: State, t: nat, until: int, i: nat)
    requires Timely(s) && Lists(s) && t < |s.threads| && PlaceOf(s.threads[t], t == s.idle) != InSleep && s.ticks < until
    requires i == InsertPoint(s.threads, s.sleepers, until) && z.ticks == s.ticks
    requires z.threads == s.threads[t := s.threads[t].(status := Blocked, pos := Sleeping(until), woken := false)]
    requires z.sleepers == s.sleepers[..i] + [t] + s.sleepers[i..]
    ensures Timely(z)
  {
    hide SortedAfter, Deadlines;
    NotAsleep(s, t);
    InsertSorted(Deadlines(s.threads, s.sleepers), i, until, s.ticks);
    DeadlinesInsert(s.threads, s.sleepers, t, z.threads[t], i);
  }

  lemma DeadlinesInsert(threads: seq<Thread>, q: seq<nat>, t: nat, th: Thread, i: nat)
    requires (forall j :: 0 <= j < |q| ==> q[j] < |threads| && q[j] != t) && t < |threads| && i <= |q|
    ensures var r := q[..i] + [t] + q[i..]; var d := Deadlines(threads, q);
            && (forall j :: 0 <= j < |r| ==> r[j] < |threads|)
            && Deadlines(threads[t := th], r) == d[..i] + [Until(th)] + d[i..]
  {}

  lemma InsertSorted(d: seq<int>, i: nat, until: int, ticks: int)
    requires SortedAfter(d, ticks) && ticks < until && i <= |d|
    requires (forall j :: 0 <= j < i ==> d[j] <= until) && (i < |d| ==> until < d[i])
    ensures SortedAfter(d[..i] + [until] + d[i..], ticks)
  {}

  // ---- Waking sleepers ----

  ghost predicate Asleep(s: State, t: nat) {
    t < |s.threads| && PlaceOf(s.threads[t], t == s.idle) == InSleep
  }

  /** Inv, but the clock may have passed some deadlines. */
  ghost predicate Ringing(s: State) {
    && OneRuns(s) && ThreadsOk(s) && Lists(s) && AllCovered(s) && SleepersInRange(s)
    && var d := Deadlines(s.threads, s.sleepers); forall i, j :: 0 <= i < j < |d| ==> d[i] <= d[j]
  }

  lemma WakeOne(s: State)
    requires Ringing(s) && s.sleepers != []
    ensures Asleep(s, s.sleepers[0]) && Ringing(Unblock(s.(sleepers := s.sleepers[1..]), s.sleepers[0]))
  {
    hide AllCovered, Woken;
    var t := s.sleepers[0];
    var z := Unblock(s.(sleepers := s.sleepers[1..]), t);
    SleeperKnown(s);
    CoveredKept(s, z, t, z.threads[t]);
    FollowsPush(s.ready, t);
    assert Moved(s, z, t, z.threads[t]);
    ListsFollow(s, z, t, z.threads[t]);
    assert Deadlines(z.threads, z.sleepers) == Deadlines(s.threads, s.sleepers)[1..];
  }

  lemma SleeperKnown(s: State)
    requires Lists(s) && ThreadsOk(s) && s.sleepers != []
    ensures var t := s.sleepers[0]; t < |s.threads| && Asleep(s, t) && t != s.idle && !s.threads[t].woken
  {}

  /** Exactly the sleepers whose time has come become ready, and nothing else
      happens to any thread. */
  lemma {:induction false} WakeKeeps(s: State)
    requires Ringing(s)
    ensures var z := WakeSleepers(s);
            && Inv(z) && |z.threads| == |s.threads| && z.idle == s.idle && z.current == s.current && z.ticks == s.ticks
            && (forall t :: 0 <= t < |s.threads| ==>
                  z.threads[t] == if Asleep(s, t) && Until(s.threads[t]) <= s.ticks then s.threads[t].(status := Ready)
                                  else s.threads[t])
    decreases |s.sleepers|
  {
    hide Ringing, Inv, Lists;
    RingingRange(s);
    if s.sleepers == [] || s.ticks < Until(s.threads[s.sleepers[0]]) {
      WakeStops(s);
    } else {
      var t := s.sleepers[0];
      var z := Unblock(s.(sleepers := s.sleepers[1..]), t);
      WakeOne(s);
      WakeKeeps(z);
      assert z.threads == s.threads[t := s.threads[t].(status := Ready)];
    }
  }

  lemma RingingRange(s: State)
    requires Ringing(s)
    ensures SleepersInRange(s)
  {}

  lemma WakeStops(s: State)
    requires Ringing(s) && (s.sleepers == [] || s.ticks < Until(s.threads[s.sleepers[0]]))
    ensures Inv(s) && forall t: nat :: Asleep(s, t) ==> s.ticks < Until(s.threads[t])
  {
    hide OneRuns, ThreadsOk, AllCovered;
    var d := Deadlines(s.threads, s.sleepers);
    forall t: nat | Asleep(s, t)
      ensures s.ticks < Until(s.threads[t])
    {
      assert t in s.sleepers;
      var j :| 0 <= j < |d| && s.sleepers[j] == t;
    }
  }

  lemma TickKeeps(s: State)
    requires Inv(s)
    ensures SleepersInRange(s) && Inv(Tick(s)) && Tick(s).ticks == s.ticks + 1
    ensures |Tick(s).threads| == |s.threads| && Tick(s).idle == s.idle && Tick(s).current == s.current
    ensures forall t :: 0 <= t < |s.threads| ==>
              Tick(s).threads[t] == if Asleep(s, t) && Until(s.threads[t]) <= s.ticks + 1 then s.threads[t].(status := Ready)
                                    else s.threads[t]
  {
    hide Inv, Ringing, WakeSleepers;
    InvRinging(s);
    RingingRange(s.(ticks := s.ticks + 1));
    WakeKeeps(s.(ticks := s.ticks + 1));
  }

  lemma InvRinging(s: State)
    requires Inv(s)
    ensures Ringing(s.(ticks := s.ticks + 1)) && SleepersInRange(s)
  {
    hide ListOk, Covered;
  }

  // ---- Every step ----

  /** What scheduling does not look at: roles, holders and condition lists. */
  ghost predicate SameScheduling(s: State, z: State) {
    && z.threads == s.threads && z.current == s.current && z.idle == s.idle && z.ready == s.ready
    && z.sleepers == s.sleepers && z.ticks == s.ticks
    && |z.semas| == |s.semas| && (forall k :: 0 <= k < |s.semas| ==> z.semas[k] == s.semas[k].(role := z.semas[k].role))
    && |z.locks| == |s.locks| && (forall l :: 0 <= l < |s.locks| ==> z.locks[l].sema == s.locks[l].sema)
  }

  lemma SameKeeps(s: State, z: State)
    requires Inv(s) && SameScheduling(s, z)
    ensures Inv(z)
  {
    hide ListOk, Woken;
    assert Lists(z);
    forall k | 0 <= k < |z.semas|
      ensures Covered(z.threads, z.semas[k], k)
    {
      assert Covered(s.threads, s.semas[k], k);
    }
  }

  lemma NewSemaKeeps(s: State, q: Sema, conds: seq<seq<nat>>)
    requires Inv(s) && q.waiters == [] && q.value == q.initial && q.ups == q.downs == 0
    ensures Inv(s.(semas := s.semas + [q], conds := conds))
  {
    hide Woken;
    var z := s.(semas := s.semas + [q], conds := conds);
    forall k | 0 <= k < |z.semas|
      ensures Covered(z.threads, z.semas[k], k) && ListOk(z.threads, z.idle, z.semas[k].waiters, InSema(k))
    {
      if k < |s.semas| {
        assert Covered(s.threads, s.semas[k], k) && ListOk(s.threads, s.idle, s.semas[k].waiters, InSema(k));
      } else {
        assert forall t :: 0 <= t < |s.threads| ==> ThreadOk(s.threads[t], t == s.idle, |s.semas|);
      }
    }
  }

  lemma CallKeeps(s: State, a: Action)
    requires Inv(s) && Enabled(s, a)
    requires a.SemaDown? || a.LockAcquire? || a.LockRelease? || a.CondWait? || a.CondSignal?
    ensures Inv(Do(s, a))
  {
    hide Lists, AllCovered, Timely;
    var held := s.threads[s.current].held;
    match a
    case SemaDown(k) => GoKeeps(s, Downing(k), held);
    case LockAcquire(l) => GoKeeps(s, Acquiring(l, s.locks[l].sema), held);
    case LockRelease(l) =>
      SameKeeps(s, SetHolder(s, l, Nobody));
      GoKeeps(SetHolder(s, l, Nobody), Releasing(l), held);
    case CondWait(c, l) =>
      var w := |s.semas|;
      var q, conds := Sema(0, [], 0, 0, 0, Own(s.current, Queued(c))), s.conds[c := s.conds[c] + [w]];
      NewSemaKeeps(s, q, conds);
      GoKeeps(s.(semas := s.semas + [q], conds := conds), WaitQueued(l, w), held);
    case CondSignal(c, l) =>
      if s.conds[c] != [] {
        var w := s.conds[c][0];
        var z := SetStage(s, w, Popped(s.current)).(conds := s.conds[c := s.conds[c][1..]]);
        SameKeeps(s, z);
        GoKeeps(z, Signalling(w), held);
      }
  }

  lemma NextKeeps(s: State)
    requires Inv(s) && InRange(s) && s.current != s.idle && CanContinue(s, s.threads[s.current].pos)
    ensures Inv(Next(s, s.threads[s.current]))
  {
    hide Lists, AllCovered, Timely;
    var th := s.threads[s.current];
    match th.pos
    case Downing(k) => DownKeeps(s, k, Outside, th.held);
    case Acquiring(l, k) => DownKeeps(s, k, Acquired(l), th.held + {l});
    case WaitDown(l, w) => DownKeeps(s, w, Acquiring(l, s.locks[l].sema), th.held);
    case Acquired(l) =>
      SameKeeps(s, SetHolder(s, l, Holder(s.current)));
      GoKeeps(SetHolder(s, l, Holder(s.current)), Outside, th.held);
    case Releasing(l) =>
      UpKeeps(s, s.locks[l].sema);
      GoKeeps(Up(s, s.locks[l].sema), Outside, th.held - {l});
    case WaitQueued(l, w) =>
      SameKeeps(s, SetHolder(s, l, Nobody));
      GoKeeps(SetHolder(s, l, Nobody), WaitReleasing(l, w), th.held);
    case WaitReleasing(l, w) =>
      UpKeeps(s, s.locks[l].sema);
      GoKeeps(Up(s, s.locks[l].sema), WaitDown(l, w), th.held - {l});
    case Signalling(w) =>
      UpKeeps(s, w);
      SameKeeps(Up(s, w), SetStage(Up(s, w), w, Raised));
      GoKeeps(SetStage(Up(s, w), w, Raised), Outside, th.held);
    case Sleeping(_) => GoKeeps(s, Outside, th.held);
  }

  /** Every step of every thread and every interrupt keeps the invariant. */
  lemma StepKeeps(s: State, a: Action)
    requires Inv(s) && Enabled(s, a)
    ensures Inv(Do(s, a))
  {
    hide Lists, AllCovered, Timely;
    var th := s.threads[s.current];
    match a
    case YieldNow => AwayKeeps(s, th.(status := Ready));
    case Exit => AwayKeeps(s, th.(status := Dying));
    case IdleBlock => AwayKeeps(s, th.(status := Blocked));
    case CreateThread => CreateKeeps(s);
    case SemaUp(k) => UpKeeps(s, k);
    case TimerSleep(n) => if n > 0 { SleepKeeps(s, n); }
    case Continue => NextKeeps(s);
    case TimerInterrupt => TickKeeps(s);
    case _ => CallKeeps(s, a);
  }

  // ---- Runs ----

  ghost predicate Runs(s: State, run: seq<Action>)
    decreases |run|
  {
    run == [] || (Enabled(s, run[0]) && Runs(Do(s, run[0]), run[1..]))
  }

  ghost function End(s: State, run: seq<Action>): State
    requires Runs(s, run)
    decreases |run|
  {
    if run == [] then s else End(Do(s, run[0]), run[1..])
  }

  /** The state after startup: the first thread runs, the idle thread blocks itself,
      and each semaphore has its initial value. */
  ghost predicate Started(s: State) {
    && |s.threads| == 2 && s.current == 0 && s.idle == 1
    && s.threads[0] == Thread(Running, Outside, false, {}) && s.threads[1] == Thread(Blocked, Outside, false, {})
    && s.ready == s.sleepers == []
    && (forall k :: 0 <= k < |s.semas| ==> s.semas[k] == Sema(s.semas[k].initial, [], s.semas[k].initial, 0, 0, s.semas[k].role))
    && (forall l :: 0 <= l < |s.locks| ==> s.locks[l].sema < |s.semas|)
  }

  lemma StartedInv(s: State)
    requires Started(s)
    ensures Inv(s)
  {}

  lemma {:induction false} RunKeeps(s: State, run: seq<Action>)
    requires Inv(s) && Runs(s, run)
    ensures Inv(End(s, run))
    decreases |run|
  {
    hide Inv, Enabled;
    if run != [] {
      StepKeeps(s, run[0]);
      RunKeeps(Do(s, run[0]), run[1..]);
    }
  }

  /** In every reachable state one thread runs, the run queue holds exactly the
      ready threads other than idle, each once, and no thread is on two lists. */
  lemma Reachable(s: State, run: seq<Action>)
    requires Started(s) && Runs(s, run)
    ensures var z := End(s, run);
            && z.current < |z.threads|
            && (forall t :: 0 <= t < |z.threads| ==> (z.threads[t].status.Running? <==> t == z.current))
            && (forall t :: 0 <= t < |z.threads| ==> (t in z.ready <==> z.threads[t].status.Ready? && t != z.idle))
            && NoDup(z.ready)
            && (forall t, k :: 0 <= k < |z.semas| && t in z.semas[k].waiters ==> t !in z.ready && t !in z.sleepers)
            && (forall t, j, k :: 0 <= j < k < |z.semas| && t in z.semas[j].waiters ==> t !in z.semas[k].waiters)
            && (forall t :: t in z.sleepers ==> t !in z.ready)
  {
    StartedInv(s);
    RunKeeps(s, run);
    assert forall k :: 0 <= k < |End(s, run).semas| ==>
             ListOk(End(s, run).threads, End(s, run).idle, End(s, run).semas[k].waiters, InSema(k));
  }

  /** No wakeup is lost: if a semaphore can be had while a thread waits for it, a
      thread that was woken for it is running or on the run queue. */
  lemma NoLostWakeup(s: State, k: nat)
    requires Inv(s) && k < |s.semas| && s.semas[k].waiters != [] && s.semas[k].value > 0
    ensures exists t :: 0 <= t < |s.threads| && s.threads[t].woken && Awaits(s.threads[t].pos, k) && (t == s.current || t in s.ready)
  {
    assert Covered(s.threads, s.semas[k], k);
    if forall t :: 0 <= t < |s.threads| && s.threads[t].woken ==> !Awaits(s.threads[t].pos, k) {
      WokenNone(s.threads, k);
    }
    var t :| 0 <= t < |s.threads| && s.threads[t].woken && Awaits(s.threads[t].pos, k);
    assert ThreadOk(s.threads[t], t == s.idle, |s.semas|);
  }

  /** The value of a semaphore is what it began with, plus the ups, less the downs
      that have gone through. */
  lemma Accounted(s: State, run: seq<Action>, k: nat)
    requires Started(s) && Runs(s, run) && k < |End(s, run).semas|
    ensures var q := End(s, run).semas[k]; q.value == q.initial + q.ups - q.downs
  {
    StartedInv(s);
    RunKeeps(s, run);
    assert Covered(End(s, run).threads, End(s, run).semas[k], k);
  }

  // ---- The run queue is first in, first out ----

  /** Whether an action comes to `schedule`. */
  predicate Switches(s: State, a: Action)
    requires Enabled(s, a)
  {
    match a
    case YieldNow => true
    case Exit => true
    case IdleBlock => true
    case TimerSleep(n) => n > 0
    case Continue =>
      (match s.threads[s.current].pos
       case Downing(k) => s.semas[k].value == 0
       case Acquiring(_, k) => s.semas[k].value == 0
       case WaitDown(_, w) => s.semas[w].value == 0
       case _ => false)
    case _ => false
  }

  lemma {:induction false} WakeAppends(s: State)
    requires SleepersInRange(s)
    ensures s.ready <= WakeSleepers(s).ready && WakeSleepers(s).current == s.current
    decreases |s.sleepers|
  {
    if !(s.sleepers == [] || s.ticks < Until(s.threads[s.sleepers[0]])) {
      WakeAppends(Unblock(s.(sleepers := s.sleepers[1..]), s.sleepers[0]));
    }
  }

  lemma StepQueue(s: State, a: Action)
    requires Enabled(s, a)
    ensures var z := Do(s, a);
            if !Switches(s, a) then z.current == s.current && s.ready <= z.ready
            else s.ready != [] ==> z.current == s.ready[0] && s.ready[1..] <= z.ready
  {
    match a
    case TimerInterrupt => WakeAppends(s.(ticks := s.ticks + 1));
    case _ =>
  }

  ghost function SwitchCount(s: State, run: seq<Action>): nat
    requires Runs(s, run)
    decreases |run|
  {
    if run == [] then 0 else (if Switches(s, run[0]) then 1 else 0) + SwitchCount(Do(s, run[0]), run[1..])
  }

  /** The thread at index k of the run queue runs at exactly the (k+1)-th schedule,
      whatever happens in between. */
  lemma {:induction false} QueuePosition(s: State, run: seq<Action>)
    requires Runs(s, run) && SwitchCount(s, run) <= |s.ready|
    ensures var n, z := SwitchCount(s, run), End(s, run);
            && s.ready[n..] <= z.ready
            && z.current == if n == 0 then s.current else s.ready[n - 1]
    decreases |run|
  {
    hide Enabled, Switches, Do;
    if run != [] {
      var z := Do(s, run[0]);
      StepQueue(s, run[0]);
      var n := SwitchCount(z, run[1..]);
      QueuePosition(z, run[1..]);
      if Switches(s, run[0]) {
        assert forall i :: 1 <= i < |s.ready| ==> s.ready[i] == s.ready[1..][i - 1];
        assert s.ready[n + 1..] == s.ready[1..][n..];
        assert s.ready[1..][n..] <= z.ready[n..];
      } else {
        assert s.ready[n..] <= z.ready[n..];
      }
    }
  }

  // ---- Sleep is exact ----

  /** A thread that no step but its own, and no list but the sleep list, can reach. */
  ghost predicate Elsewhere(s: State, t: nat) {
    && t < |s.threads| && t != s.current && t != s.idle
    && (forall i :: 0 <= i < |s.ready| ==> s.ready[i] != t)
    && (forall k :: 0 <= k < |s.semas| && s.semas[k].waiters != [] ==> s.semas[k].waiters[0] != t)
  }

  lemma ElsewhereUp(s: State, k: nat, t: nat)
    requires CanUp(s, k) && Elsewhere(s, t) && s.current < |s.threads|
    ensures t < |Up(s, k).threads| && Up(s, k).threads[t] == s.threads[t] && Up(s, k).current == s.current && Up(s, k).idle == s.idle
    ensures |Up(s, k).threads| == |s.threads|
  {}

  lemma ElsewhereNext(s: State, t: nat)
    requires InRange(s) && Elsewhere(s, t) && CanContinue(s, s.threads[s.current].pos)
    ensures var z := Next(s, s.threads[s.current]);
            t < |z.threads| && z.threads[t] == s.threads[t] && z.idle == s.idle
  {
    hide Up;
    var th := s.threads[s.current];
    match th.pos
    case Releasing(l) => ElsewhereUp(s, s.locks[l].sema, t);
    case WaitReleasing(l, w) => ElsewhereUp(s, s.locks[l].sema, t);
    case Signalling(w) => ElsewhereUp(s, w, t); UpKeepsRoles(s, w);
    case _ =>
  }

  lemma UpKeepsRoles(s: State, w: nat)
    requires CanUp(s, w)
    ensures |Up(s, w).semas| == |s.semas| && Up(s, w).semas[w].role == s.semas[w].role
  {}

  lemma ElsewhereStays(s: State, a: Action, t: nat)
    requires Enabled(s, a) && Elsewhere(s, t) && !a.TimerInterrupt?
    ensures var z := Do(s, a); t < |z.threads| && z.threads[t] == s.threads[t] && z.idle == s.idle
  {
    hide Next;
    if a.Continue? {
      ElsewhereNext(s, t);
    }
  }

  lemma AsleepElsewhere(s: State, t: nat)
    requires Inv(s) && Asleep(s, t)
    ensures Elsewhere(s, t)
  {
    assert forall k :: 0 <= k < |s.semas| ==> ListOk(s.threads, s.idle, s.semas[k].waiters, InSema(k));
  }

  /** A sleeping thread wakes at the interrupt of its tick, and at nothing else. */
  lemma StepAsleep(s: State, a: Action, t: nat)
    requires Inv(s) && Enabled(s, a) && Asleep(s, t)
    ensures var z, until := Do(s, a), Until(s.threads[t]);
            && t < |z.threads| && s.ticks < until
            && z.ticks == (if a.TimerInterrupt? then s.ticks + 1 else s.ticks)
            && (if a.TimerInterrupt? && z.ticks == until then z.threads[t].status.Ready? && t in z.ready
                else Asleep(z, t) && z.threads[t] == s.threads[t])
  {
    hide AllCovered;
    assert t in s.sleepers;
    var j :| 0 <= j < |s.sleepers| && s.sleepers[j] == t;
    assert Deadlines(s.threads, s.sleepers)[j] == Until(s.threads[t]);
    if a.TimerInterrupt? {
      TickKeeps(s);
    } else {
      AsleepElsewhere(s, t);
      ElsewhereStays(s, a, t);
      StepTicks(s, a);
    }
  }

  lemma {:induction false} RunAsleep(s: State, run: seq<Action>, t: nat)
    requires Inv(s) && Runs(s, run) && Asleep(s, t) && End(s, run).ticks < Until(s.threads[t])
    ensures var z := End(s, run); t < |z.threads| && Asleep(z, t) && z.threads[t] == s.threads[t]
    decreases |run|
  {
    hide Inv, Enabled, Do;
    if run != [] {
      var z := Do(s, run[0]);
      StepAsleep(s, run[0], t);
      StepKeeps(s, run[0]);
      TicksRise(z, run[1..]);
      RunAsleep(z, run[1..], t);
    }
  }

  lemma {:induction false} TicksRise(s: State, run: seq<Action>)
    requires Inv(s) && Runs(s, run)
    ensures s.ticks <= End(s, run).ticks
    decreases |run|
  {
    hide Inv, Enabled, Do;
    if run != [] {
      StepTicks(s, run[0]);
      StepKeeps(s, run[0]);
      TicksRise(Do(s, run[0]), run[1..]);
    }
  }

  lemma StepTicks(s: State, a: Action)
    requires Inv(s) && Enabled(s, a)
    ensures Do(s, a).ticks == if a.TimerInterrupt? then s.ticks + 1 else s.ticks
  {
    if a.TimerInterrupt? {
      TickKeeps(s);
    }
  }

  /** A thread that sleeps for n ticks at tick T sleeps through every run that ends
      before tick T + n, and is on the run queue after the interrupt for T + n. */
  lemma SleepIsExact(s: State, n: int, run: seq<Action>)
    requires Inv(s) && Enabled(s, TimerSleep(n)) && n > 0
    requires Runs(Do(s, TimerSleep(n)), run) && End(Do(s, TimerSleep(n)), run).ticks < s.ticks + n
    ensures var z := End(Do(s, TimerSleep(n)), run);
            && Asleep(z, s.current) && Inv(z)
            && (z.ticks == s.ticks + n - 1 ==> Enabled(z, TimerInterrupt) && s.current in Do(z, TimerInterrupt).ready)
  {
    var y := Do(s, TimerSleep(n));
    StepKeeps(s, TimerSleep(n));
    FallsAsleep(s, n);
    RunKeeps(y, run);
    RunAsleep(y, run, s.current);
    var z := End(y, run);
    InvRange(z);
    SleepersOk(z);
    StepAsleep(z, TimerInterrupt, s.current);
  }

  lemma FallsAsleep(s: State, n: int)
    requires Inv(s) && Enabled(s, TimerSleep(n)) && n > 0
    ensures var y := Do(s, TimerSleep(n));
            s.current < |y.threads| && Asleep(y, s.current) && Until(y.threads[s.current]) == s.ticks + n && y.ticks == s.ticks
  {
    hide Inv, InsertPoint;
    CurrentNotReady(s);
  }

  lemma CurrentNotReady(s: State)
    requires Inv(s)
    ensures s.current < |s.threads| && s.idle < |s.threads| && forall i :: 0 <= i < |s.ready| ==> s.ready[i] != s.current
  {
    hide AllCovered, Timely;
  }
}
