/** Locks and condition variables over every run of the threads: one holder at a
    time, and no signal is lost. */
module Monitors {
  import opened Basics
  import opened Threads
  import opened Scheduling

  /** Holding the semaphore of a lock whose `holder` is not set, or no longer. */
  predicate Busy(pos: Pos, l: nat) {
    match pos
    case Acquired(j) => j == l
    case Releasing(j) => j == l
    case WaitReleasing(j, _) => j == l
    case _ => false
  }

  /** Waiting on a condition with the semaphore `w`. */
  predicate WaitsWith(pos: Pos, w: nat) {
    match pos
    case WaitQueued(_, v) => v == w
    case WaitReleasing(_, v) => v == w
    case WaitDown(_, v) => v == w
    case _ => false
  }

  predicate OwnedBy(s: State, w: nat, t: nat) {
    w < |s.semas| && s.semas[w].role.Own? && s.semas[w].role.thread == t
  }

  /** What a position says about the locks held and the semaphores used. */
  predicate PosOk(s: State, t: nat)
    requires t < |s.threads|
  {
    var held := s.threads[t].held;
    match s.threads[t].pos
    case Downing(k) => k < |s.semas| && s.semas[k].role == Plain
    case Acquiring(l, k) => l < |s.locks| && k == s.locks[l].sema && l !in held
    case Acquired(l) => l < |s.locks| && l in held
    case Releasing(l) => l < |s.locks| && l in held
    case WaitQueued(l, w) => l < |s.locks| && l in held && OwnedBy(s, w, t)
    case WaitReleasing(l, w) => l < |s.locks| && l in held && OwnedBy(s, w, t)
    case WaitDown(l, w) => l < |s.locks| && l !in held && OwnedBy(s, w, t)
    case Signalling(w) => w < |s.semas| && s.semas[w].role.Own? && s.semas[w].role.stage == Popped(t)
    case _ => true
  }

  ghost predicate HeldBySome(s: State, l: nat) {
    exists t :: 0 <= t < |s.threads| && l in s.threads[t].held
  }

  /** A lock's semaphore is 0 exactly while one thread holds it, and the lock names
      that thread as its holder except right after the down and right before the up. */
  ghost predicate LockOk(s: State, l: nat)
    requires l < |s.locks|
  {
    var k, holder := s.locks[l].sema, s.locks[l].holder;
    && k < |s.semas| && s.semas[k].role == OfLock(l) && s.semas[k].value <= 1
    && (s.semas[k].value == 0 <==> HeldBySome(s, l))
    && (forall t, u :: 0 <= t < |s.threads| && 0 <= u < |s.threads| && l in s.threads[t].held && l in s.threads[u].held ==> t == u)
    && (forall t :: 0 <= t < |s.threads| ==>
          (holder == Holder(t) <==> l in s.threads[t].held && !Busy(s.threads[t].pos, l)))
    && (holder.Holder? ==> holder.thread < |s.threads|)
  }

  /** A condition variable's semaphore is upped once, by the thread that takes it
      off the list, and downed once, by the thread that made it. */
  ghost predicate OwnOk(s: State, w: nat)
    requires w < |s.semas|
  {
    var q := s.semas[w];
    q.role.Own? ==>
      && q.role.thread < |s.threads| && q.initial == 0
      && q.ups == (if q.role.stage == Raised then 1 else 0)
      && q.downs == (if WaitsWith(s.threads[q.role.thread].pos, w) then 0 else 1)
      && (q.role.stage.Queued? ==> q.role.stage.cond < |s.conds| && w in s.conds[q.role.stage.cond])
      && (q.role.stage.Popped? ==> q.role.stage.signaller < |s.threads| && s.threads[q.role.stage.signaller].pos == Signalling(w))
  }

  ghost predicate CondOk(s: State, c: nat)
    requires c < |s.conds|
  {
    && NoDup(s.conds[c])
    && (forall i :: 0 <= i < |s.conds[c]| ==>
          var w := s.conds[c][i]; w < |s.semas| && s.semas[w].role.Own? && s.semas[w].role.stage == Queued(c))
  }

  ghost predicate Mon(s: State) {
    && s.current < |s.threads|
    && (forall t :: 0 <= t < |s.threads| ==> PosOk(s, t))
    && (forall l :: 0 <= l < |s.locks| ==> LockOk(s, l))
    && (forall w :: 0 <= w < |s.semas| ==> OwnOk(s, w))
    && (forall c :: 0 <= c < |s.conds| ==> CondOk(s, c))
  }

  // ---- What a step leaves alone ----

  /** The same but for the wait list. */
  predicate Like(q: Sema, r: Sema) { r == q.(waiters := r.waiters) }

  /** Only thread `t` may come to another position or hold other locks. */
  ghost predicate Others(s: State, z: State, t: nat) {
    && t < |s.threads| == |z.threads| && z.current < |z.threads|
    && (forall u :: 0 <= u < |s.threads| && u != t ==> z.threads[u].pos == s.threads[u].pos && z.threads[u].held == s.threads[u].held)
  }

  /** Only semaphore `k`, lock `m` and condition `c` may change, and `k` keeps
      what it is for. */
  ghost predicate Rest(s: State, z: State, t: nat, k: nat, m: nat, c: nat) {
    && |z.semas| >= |s.semas| && |z.locks| == |s.locks| && |z.conds| == |s.conds|
    && (forall j :: 0 <= j < |s.semas| && j != k ==> Like(s.semas[j], z.semas[j]))
    && (k < |s.semas| ==> SameUse(s.semas[k].role, z.semas[k].role, t, c))
    && (forall l :: 0 <= l < |s.locks| ==>
          && z.locks[l].sema == s.locks[l].sema
          && (l != m ==> z.locks[l] == s.locks[l] && s.locks[l].sema != k))
    && (forall d :: 0 <= d < |s.conds| && d != c ==> z.conds[d] == s.conds[d])
  }

  /** A change of role is at most a change of stage, by thread `t` or at condition
      `c`. */
  predicate SameUse(was: Role, now: Role, t: nat, c: nat) {
    now == was ||
    (&& was.Own? && now.Own? && was.thread == now.thread
     && (was.stage == Popped(t) || was.stage == Queued(c)))
  }

  /** Thread `t` does the same to lock `l` before and after. */
  predicate SameLock(a: Thread, b: Thread, l: nat) {
    (l in a.held <==> l in b.held) && (Busy(a.pos, l) <==> Busy(b.pos, l))
  }

  predicate SameOwn(a: Thread, b: Thread, w: nat) {
    (WaitsWith(a.pos, w) <==> WaitsWith(b.pos, w)) && (a.pos == Signalling(w) <==> b.pos == Signalling(w))
  }

  lemma LockUntouched(s: State, z: State, t: nat, l: nat)
    requires l < |s.locks| && LockOk(s, l) && Others(s, z, t) && SameLock(s.threads[t], z.threads[t], l)
    requires |z.locks| == |s.locks| && z.locks[l] == s.locks[l]
    requires s.locks[l].sema < |z.semas| && Like(s.semas[s.locks[l].sema], z.semas[s.locks[l].sema])
    ensures LockOk(z, l)
  {
    assert HeldBySome(z, l) <==> HeldBySome(s, l);
  }

  lemma OwnUntouched(s: State, z: State, t: nat, w: nat)
    requires w < |s.semas| && OwnOk(s, w) && w < |z.semas| && Like(s.semas[w], z.semas[w])
    requires Others(s, z, t) && SameOwn(s.threads[t], z.threads[t], w)
    requires |z.conds| == |s.conds|
    requires s.semas[w].role.Own? && s.semas[w].role.stage.Queued? ==>
               forall c :: 0 <= c < |s.conds| && c == s.semas[w].role.stage.cond && w in s.conds[c] ==> w in z.conds[c]
    ensures OwnOk(z, w)
  {}

  lemma PosUntouched(s: State, z: State, t: nat, k: nat, m: nat, c: nat, u: nat)
    requires u < |s.threads| && u != t && PosOk(s, u) && Others(s, z, t) && Rest(s, z, t, k, m, c)
    ensures PosOk(z, u)
  {}

  lemma CondUntouched(s: State, z: State, t: nat, k: nat, m: nat, c: nat, d: nat)
    requires d < |s.conds| && d != c && CondOk(s, d) && Rest(s, z, t, k, m, c)
    requires k < |s.semas| && s.semas[k].role.Own? && s.semas[k].role.stage == Popped(t) ==> z.semas[k].role.Own?
    ensures CondOk(z, d)
  {}

  /** Everything but what is named keeps its part of the invariant. */
  lemma RestKeeps(s: State, z: State, t: nat, k: nat, m: nat, c: nat)
    requires Mon(s) && Others(s, z, t) && Rest(s, z, t, k, m, c)
    requires forall l :: 0 <= l < |s.locks| && l != m ==> SameLock(s.threads[t], z.threads[t], l)
    requires forall w :: 0 <= w < |s.semas| && w != k ==> SameOwn(s.threads[t], z.threads[t], w)
    requires forall w :: 0 <= w < |s.semas| && w != k && c < |s.conds| && w in s.conds[c] ==> w in z.conds[c]
    ensures forall l :: 0 <= l < |z.locks| && l != m ==> LockOk(z, l)
    ensures forall w :: 0 <= w < |s.semas| && w != k ==> OwnOk(z, w)
    ensures forall u :: 0 <= u < |z.threads| && u != t ==> PosOk(z, u)
    ensures forall d :: 0 <= d < |z.conds| && d != c ==> CondOk(z, d)
  {
    hide LockOk, OwnOk, PosOk, CondOk;
    forall l | 0 <= l < |z.locks| && l != m
      ensures LockOk(z, l)
    {
      LockRange(s, l);
      LockUntouched(s, z, t, l);
    }
    forall w | 0 <= w < |s.semas| && w != k
      ensures OwnOk(z, w)
    {
      OwnUntouched(s, z, t, w);
    }
    forall u | 0 <= u < |z.threads| && u != t
      ensures PosOk(z, u)
    {
      PosUntouched(s, z, t, k, m, c, u);
    }
    forall d | 0 <= d < |z.conds| && d != c
      ensures CondOk(z, d)
    {
      CondUntouched(s, z, t, k, m, c, d);
    }
  }

  lemma LockRange(s: State, l: nat)
    requires l < |s.locks| && LockOk(s, l)
    ensures s.locks[l].sema < |s.semas| && s.semas[s.locks[l].sema].role == OfLock(l)
  {}

  lemma MonParts(s: State, t: nat)
    requires Mon(s) && t < |s.threads|
    ensures PosOk(s, t) && forall l :: 0 <= l < |s.locks| ==> s.locks[l].sema < |s.semas| && s.semas[s.locks[l].sema].role == OfLock(l)
  {
    hide OwnOk, CondOk;
    forall l | 0 <= l < |s.locks|
      ensures s.locks[l].sema < |s.semas| && s.semas[s.locks[l].sema].role == OfLock(l)
    {
      LockRange(s, l);
    }
  }

  // ---- Steps that are about no lock and no condition ----

  predicate Neutral(pos: Pos) { pos.Outside? || pos.Downing? || pos.Sleeping? }

  /** Nobody moves, and no semaphore but one without a role changes. */
  lemma QuietKeeps(s: State, z: State, k: nat)
    requires Mon(s) && Others(s, z, s.current)
    requires var a, b := s.threads[s.current], z.threads[s.current];
             b.held == a.held && (b.pos == a.pos || (Neutral(a.pos) && Neutral(b.pos)))
    requires |z.semas| == |s.semas| && z.locks == s.locks && z.conds == s.conds
    requires forall j :: 0 <= j < |s.semas| && j != k ==> Like(s.semas[j], z.semas[j])
    requires k < |s.semas| ==> s.semas[k].role == z.semas[k].role == Plain
    requires z.threads[s.current].pos.Downing? ==>
               var j := z.threads[s.current].pos.sema; j < |s.semas| && s.semas[j].role == Plain
    ensures Mon(z)
  {
    hide LockOk, OwnOk, CondOk;
    var t := s.current;
    MonParts(s, t);
    RestKeeps(s, z, t, k, |s.locks|, |s.conds|);
    if k < |s.semas| {
      assert OwnOk(z, k) by { NoRole(z, k); }
    }
  }

  lemma NoRole(s: State, k: nat)
    requires k < |s.semas| && !s.semas[k].role.Own?
    ensures OwnOk(s, k)
  {}

  lemma CreateKeepsMon(s: State)
    requires Mon(s)
    ensures Mon(Create(s))
  {
    var z := Create(s);
    forall l | 0 <= l < |z.locks|
      ensures LockOk(z, l)
    {
      assert LockOk(s, l);
      assert HeldBySome(s, l) ==> HeldBySome(z, l) by {
        if HeldBySome(s, l) {
          var t :| 0 <= t < |s.threads| && l in s.threads[t].held;
          assert z.threads[t] == s.threads[t];
        }
      }
    }
    forall t | 0 <= t < |z.threads|
      ensures PosOk(z, t)
    {
      assert t < |s.threads| ==> PosOk(s, t);
    }
    forall w | 0 <= w < |z.semas|
      ensures OwnOk(z, w)
    {
      assert OwnOk(s, w);
    }
    assert forall c :: 0 <= c < |s.conds| ==> CondOk(s, c) ==> CondOk(z, c);
  }

  // ---- Locks ----

  /** The running thread comes to `pos` holding `held`. */
  ghost predicate Comes(s: State, z: State, pos: Pos, held: set<nat>) {
    Others(s, z, s.current) && z.threads[s.current].pos == pos && z.threads[s.current].held == held
  }

  /** The running thread starts to acquire a lock that it does not hold. */
  lemma AcquireKeeps(s: State, z: State, l: nat)
    requires Mon(s) && l < |s.locks| && s.locks[l].holder != Holder(s.current) && s.threads[s.current].pos == Outside
    requires Comes(s, z, Acquiring(l, s.locks[l].sema), s.threads[s.current].held)
    requires z.semas == s.semas && z.locks == s.locks && z.conds == s.conds
    ensures Mon(z)
  {
    hide OwnOk, CondOk;
    MonParts(s, s.current);
    assert LockOk(s, l);
    RestKeeps(s, z, s.current, |s.semas|, |s.locks|, |s.conds|);
  }

  /** It gets the lock's semaphore ... */
  lemma AcquiredKeeps(s: State, z: State, l: nat, k: nat)
    requires Mon(s) && s.threads[s.current].pos == Acquiring(l, k) && k < |s.semas| && s.semas[k].value > 0
    requires Comes(s, z, Acquired(l), s.threads[s.current].held + {l})
    requires |z.semas| == |s.semas| && z.locks == s.locks && z.conds == s.conds
    requires forall j :: 0 <= j < |s.semas| && j != k ==> Like(s.semas[j], z.semas[j])
    requires z.semas[k].value == s.semas[k].value - 1 && z.semas[k].role == s.semas[k].role
    ensures Mon(z)
  {
    hide OwnOk, CondOk;
    MonParts(s, s.current);
    assert LockOk(s, l);
    RestKeeps(s, z, s.current, k, l, |s.conds|);
    assert LockOk(z, l) by { assert HeldBySome(z, l); }
    NoRole(z, k);
  }

  /** ... and is noted as its holder. */
  lemma HolderKeeps(s: State, z: State, l: nat)
    requires Mon(s) && s.threads[s.current].pos == Acquired(l) && l < |s.locks|
    requires Comes(s, z, Outside, s.threads[s.current].held)
    requires z.semas == s.semas && z.conds == s.conds && z.locks == s.locks[l := s.locks[l].(holder := Holder(s.current))]
    ensures Mon(z)
  {
    hide OwnOk, CondOk;
    MonParts(s, s.current);
    assert LockOk(s, l);
    RestKeeps(s, z, s.current, |s.semas|, l, |s.conds|);
    assert LockOk(z, l) by { assert HeldBySome(z, l) <==> HeldBySome(s, l); }
  }

  /** It gives the lock up: it is noted as free ... */
  lemma ReleaseKeeps(s: State, z: State, l: nat)
    requires Mon(s) && l < |s.locks| && s.locks[l].holder == Holder(s.current)
    requires s.current < |z.threads|
    requires (s.threads[s.current].pos == Outside && z.threads[s.current].pos == Releasing(l))
          || (s.threads[s.current].pos.WaitQueued? && s.threads[s.current].pos.lock == l
              && z.threads[s.current].pos == WaitReleasing(l, s.threads[s.current].pos.own))
    requires Comes(s, z, z.threads[s.current].pos, s.threads[s.current].held)
    requires z.semas == s.semas && z.conds == s.conds && z.locks == s.locks[l := s.locks[l].(holder := Nobody)]
    ensures Mon(z)
  {
    hide OwnOk, CondOk;
    MonParts(s, s.current);
    assert LockOk(s, l);
    RestKeeps(s, z, s.current, |s.semas|, l, |s.conds|);
    assert LockOk(z, l) by { assert HeldBySome(z, l) <==> HeldBySome(s, l); }
  }

  /** ... and its semaphore is upped. */
  lemma ReleasedKeeps(s: State, z: State, l: nat, k: nat)
    requires Mon(s) && l < |s.locks| && k == s.locks[l].sema && k < |s.semas|
    requires s.current < |z.threads|
    requires var p, r := s.threads[s.current].pos, z.threads[s.current].pos;
             (p == Releasing(l) && r == Outside) || (p.WaitReleasing? && p.lock == l && r == WaitDown(l, p.own))
    requires Comes(s, z, z.threads[s.current].pos, s.threads[s.current].held - {l})
    requires |z.semas| == |s.semas| && z.locks == s.locks && z.conds == s.conds
    requires forall j :: 0 <= j < |s.semas| && j != k ==> Like(s.semas[j], z.semas[j])
    requires z.semas[k].value == s.semas[k].value + 1 && z.semas[k].role == s.semas[k].role
    ensures Mon(z)
  {
    hide OwnOk, CondOk;
    MonParts(s, s.current);
    assert LockOk(s, l);
    assert HeldBySome(s, l);
    RestKeeps(s, z, s.current, k, l, |s.conds|);
    assert LockOk(z, l);
    NoRole(z, k);
  }

  // ---- Condition variables ----

  /** A thread queues a semaphore of its own. */
  lemma QueueKeeps(s: State, z: State, c: nat, l: nat)
    requires Mon(s) && c < |s.conds| && l < |s.locks| && s.locks[l].holder == Holder(s.current) && s.threads[s.current].pos == Outside
    requires var w := |s.semas|;
             && Comes(s, z, WaitQueued(l, w), s.threads[s.current].held)
             && z.semas == s.semas + [Sema(0, [], 0, 0, 0, Own(s.current, Queued(c)))]
             && z.conds == s.conds[c := s.conds[c] + [w]] && z.locks == s.locks
    ensures Mon(z)
  {
    hide OwnOk;
    var w := |s.semas|;
    MonParts(s, s.current);
    assert LockOk(s, l);
    hide LockOk;
    assert CondOk(s, c);
    RestKeeps(s, z, s.current, w, |s.locks|, c);
    assert CondOk(z, c);
    NewOwn(z, w, c);
  }

  lemma NewOwn(z: State, w: nat, c: nat)
    requires w < |z.semas| && z.current < |z.threads| && c < |z.conds|
    requires z.semas[w].role.Own? && z.semas[w].role.stage == Queued(c) && z.semas[w].role.thread < |z.threads|
    requires WaitsWith(z.threads[z.semas[w].role.thread].pos, w) && w in z.conds[c]
    requires z.semas[w].initial == z.semas[w].ups == z.semas[w].downs == 0
    ensures OwnOk(z, w)
  {}

  /** A thread takes the first semaphore off a condition's list ... */
  lemma SignalKeeps(s: State, z: State, c: nat)
    requires Mon(s) && c < |s.conds| && s.conds[c] != [] && s.threads[s.current].pos == Outside
    requires var w := s.conds[c][0];
             && w < |s.semas| && Comes(s, z, Signalling(w), s.threads[s.current].held)
             && |z.semas| == |s.semas| && (forall j :: 0 <= j < |s.semas| && j != w ==> z.semas[j] == s.semas[j])
             && s.semas[w].role.Own? && z.semas[w] == s.semas[w].(role := Own(s.semas[w].role.thread, Popped(s.current)))
             && z.conds == s.conds[c := s.conds[c][1..]] && z.locks == s.locks
    ensures Mon(z)
  {
    hide LockOk;
    var w := s.conds[c][0];
    MonParts(s, s.current);
    assert CondOk(s, c) && OwnOk(s, w);
    hide OwnOk;
    forall v | 0 <= v < |s.semas| && v != w && v in s.conds[c]
      ensures v in z.conds[c]
    {
      assert s.conds[c] == [w] + s.conds[c][1..];
    }
    RestKeeps(s, z, s.current, w, |s.locks|, c);
    assert CondOk(z, c);
    assert OwnOk(z, w) by { PoppedOwn(s, z, w); }
  }

  lemma PoppedOwn(s: State, z: State, w: nat)
    requires w < |s.semas| == |z.semas| && OwnOk(s, w) && s.semas[w].role.Own? && s.semas[w].role.stage.Queued?
    requires s.current < |s.threads| && s.current < |z.threads| && Comes(s, z, Signalling(w), z.threads[s.current].held) && s.threads[s.current].pos == Outside
    requires z.semas[w] == s.semas[w].(role := Own(s.semas[w].role.thread, Popped(s.current)))
    ensures OwnOk(z, w)
  {}

  /** ... and ups it. */
  lemma RaiseKeeps(s: State, z: State, w: nat)
    requires Mon(s) && s.threads[s.current].pos == Signalling(w) && w < |s.semas| && s.semas[w].role.Own?
    requires Comes(s, z, Outside, s.threads[s.current].held)
    requires |z.semas| == |s.semas| && z.locks == s.locks && z.conds == s.conds
    requires forall j :: 0 <= j < |s.semas| && j != w ==> Like(s.semas[j], z.semas[j])
    requires z.semas[w].role == Own(s.semas[w].role.thread, Raised) && z.semas[w].ups == s.semas[w].ups + 1
    requires z.semas[w].initial == s.semas[w].initial && z.semas[w].downs == s.semas[w].downs
    ensures Mon(z)
  {
    hide LockOk, CondOk;
    MonParts(s, s.current);
    assert OwnOk(s, w);
    RestKeeps(s, z, s.current, w, |s.locks|, |s.conds|);
    assert OwnOk(z, w);
  }

  /** The waiting thread's down goes through, and it turns to the lock. */
  lemma WaitedKeeps(s: State, z: State, l: nat, w: nat)
    requires Mon(s) && s.threads[s.current].pos == WaitDown(l, w) && w < |s.semas| && l < |s.locks|
    requires Comes(s, z, Acquiring(l, s.locks[l].sema), s.threads[s.current].held)
    requires |z.semas| == |s.semas| && z.locks == s.locks && z.conds == s.conds
    requires forall j :: 0 <= j < |s.semas| && j != w ==> Like(s.semas[j], z.semas[j])
    requires z.semas[w] == s.semas[w].(value := z.semas[w].value, downs := s.semas[w].downs + 1, waiters := z.semas[w].waiters)
    ensures Mon(z)
  {
    hide LockOk, CondOk;
    MonParts(s, s.current);
    assert OwnOk(s, w);
    RestKeeps(s, z, s.current, w, |s.locks|, |s.conds|);
    assert OwnOk(z, w);
  }

  // ---- Every step ----

  /** What giving up the processor leaves alone. */
  lemma AwayQuiet(s: State, th: Thread)
    requires InRange(s) && th.pos == s.threads[s.current].pos && th.held == s.threads[s.current].held
    ensures var z := Away(s, th);
            && Others(s, z, s.current) && z.threads[s.current].pos == th.pos && z.threads[s.current].held == th.held
            && z.semas == s.semas && z.locks == s.locks && z.conds == s.conds
  {}

  lemma UpQuiet(s: State, k: nat)
    requires CanUp(s, k) && s.current < |s.threads|
    ensures var z := Up(s, k);
            && |z.threads| == |s.threads| && z.current == s.current && z.locks == s.locks && z.conds == s.conds
            && (forall t :: 0 <= t < |s.threads| ==> z.threads[t].pos == s.threads[t].pos && z.threads[t].held == s.threads[t].held)
            && |z.semas| == |s.semas| && (forall j :: 0 <= j < |s.semas| && j != k ==> z.semas[j] == s.semas[j])
            && z.semas[k] == s.semas[k].(value := s.semas[k].value + 1, ups := s.semas[k].ups + 1, waiters := z.semas[k].waiters)
  {}

  lemma DownQuiet(s: State, k: nat, next: Pos, held: set<nat>)
    requires InRange(s) && k < |s.semas|
    ensures var z := Down(s, k, next, held);
            && Others(s, z, s.current) && z.locks == s.locks && z.conds == s.conds
            && |z.semas| == |s.semas| && (forall j :: 0 <= j < |s.semas| && j != k ==> z.semas[j] == s.semas[j])
            && (if s.semas[k].value > 0 then
                  && Comes(s, z, next, held)
                  && z.semas[k] == s.semas[k].(value := s.semas[k].value - 1, downs := s.semas[k].downs + 1)
                else
                  && Comes(s, z, s.threads[s.current].pos, s.threads[s.current].held) && Like(s.semas[k], z.semas[k]))
  {}

  lemma {:induction false} WakeQuiet(s: State)
    requires SleepersInRange(s)
    ensures var z := WakeSleepers(s);
            && |z.threads| == |s.threads| && z.current == s.current && z.semas == s.semas && z.locks == s.locks && z.conds == s.conds
            && (forall t :: 0 <= t < |s.threads| ==> z.threads[t].pos == s.threads[t].pos && z.threads[t].held == s.threads[t].held)
    decreases |s.sleepers|
  {
    if !(s.sleepers == [] || s.ticks < Until(s.threads[s.sleepers[0]])) {
      WakeQuiet(Unblock(s.(sleepers := s.sleepers[1..]), s.sleepers[0]));
    }
  }

  lemma NextMon(s: State)
    requires Inv(s) && Mon(s) && InRange(s) && s.current != s.idle && CanContinue(s, s.threads[s.current].pos)
    ensures Mon(Next(s, s.threads[s.current]))
  {
    hide Inv, Mon, Up, Down;
    var th, z := s.threads[s.current], Next(s, s.threads[s.current]);
    CurrentPos(s);
    match th.pos
    case Downing(k) =>
      DownQuiet(s, k, Outside, th.held);
      QuietKeeps(s, z, k);
    case Acquiring(l, k) =>
      DownQuiet(s, k, Acquired(l), th.held + {l});
      if s.semas[k].value > 0 {
        AcquiredKeeps(s, z, l, k);
      } else {
        QuietKeeps(s, z, |s.semas|);
      }
    case Acquired(l) => HolderKeeps(s, z, l);
    case Releasing(l) =>
      UpQuiet(s, s.locks[l].sema);
      ReleasedKeeps(s, z, l, s.locks[l].sema);
    case WaitQueued(l, w) => ReleaseKeeps(s, z, l);
    case WaitReleasing(l, w) =>
      UpQuiet(s, s.locks[l].sema);
      ReleasedKeeps(s, z, l, s.locks[l].sema);
    case WaitDown(l, w) =>
      DownQuiet(s, w, Acquiring(l, s.locks[l].sema), th.held);
      if s.semas[w].value > 0 {
        WaitedKeeps(s, z, l, w);
      } else {
        QuietKeeps(s, z, |s.semas|);
      }
    case Signalling(w) =>
      UpQuiet(s, w);
      RaiseKeeps(s, z, w);
    case Sleeping(_) => QuietKeeps(s, z, |s.semas|);
  }

  lemma CurrentPos(s: State)
    requires Mon(s)
    ensures s.current < |s.threads| && PosOk(s, s.current)
    ensures s.threads[s.current].pos.WaitQueued? ==>
              var l := s.threads[s.current].pos.lock; l < |s.locks| && s.locks[l].holder == Holder(s.current)
  {
    hide OwnOk, CondOk;
    if s.threads[s.current].pos.WaitQueued? {
      assert PosOk(s, s.current) && LockOk(s, s.threads[s.current].pos.lock);
    }
  }

  /** Every step keeps what locks and conditions need. */
  lemma StepMon(s: State, a: Action)
    requires Inv(s) && Mon(s) && Enabled(s, a)
    ensures Mon(Do(s, a))
  {
    hide Inv, Mon, Up, Away, Next;
    var th, z := s.threads[s.current], Do(s, a);
    CurrentPos(s);
    match a
    case YieldNow =>
      AwayQuiet(s, th.(status := Ready));
      QuietKeeps(s, z, |s.semas|);
    case Exit =>
      AwayQuiet(s, th.(status := Dying));
      QuietKeeps(s, z, |s.semas|);
    case IdleBlock =>
      AwayQuiet(s, th.(status := Blocked));
      QuietKeeps(s, z, |s.semas|);
    case CreateThread => CreateKeepsMon(s);
    case SemaDown(k) => QuietKeeps(s, z, |s.semas|);
    case SemaUp(k) =>
      UpQuiet(s, k);
      QuietKeeps(s, z, k);
    case LockAcquire(l) => AcquireKeeps(s, z, l);
    case LockRelease(l) => ReleaseKeeps(s, z, l);
    case CondWait(c, l) => QueueKeeps(s, z, c, l);
    case CondSignal(c, l) => if s.conds[c] != [] { SignalKeeps(s, z, c); }
    case TimerSleep(n) => if n > 0 { SleepMon(s, n); }
    case Continue => NextMon(s);
    case TimerInterrupt =>
      WakeQuiet(s.(ticks := s.ticks + 1));
      QuietKeeps(s, z, |s.semas|);
  }

  lemma SleepMon(s: State, n: int)
    requires Mon(s) && InRange(s) && SleepersInRange(s) && s.threads[s.current].pos == Outside
    ensures Mon(Sleep(s, n))
  {
    hide Mon, InsertPoint;
    QuietKeeps(s, Sleep(s, n), |s.semas|);
  }

  // ---- Over every run ----

  /** After startup nobody holds a lock and no condition has waiters. */
  ghost predicate StartedMonitors(s: State) {
    && Started(s)
    && (forall k :: 0 <= k < |s.semas| ==> !s.semas[k].role.Own?)
    && (forall l :: 0 <= l < |s.locks| ==>
          s.locks[l].holder == Nobody && s.semas[s.locks[l].sema].role == OfLock(l) && s.semas[s.locks[l].sema].value == 1)
    && (forall c :: 0 <= c < |s.conds| ==> s.conds[c] == [])
  }

  lemma StartedMon(s: State)
    requires StartedMonitors(s)
    ensures Inv(s) && Mon(s)
  {
    StartedInv(s);
    hide Inv;
  }

  lemma {:induction false} RunMon(s: State, run: seq<Action>)
    requires Inv(s) && Mon(s) && Runs(s, run)
    ensures Inv(End(s, run)) && Mon(End(s, run))
    decreases |run|
  {
    hide Inv, Mon, Enabled;
    if run != [] {
      StepKeeps(s, run[0]);
      StepMon(s, run[0]);
      RunMon(Do(s, run[0]), run[1..]);
    }
  }

  /** At most one thread is ever between the down and the up of a lock, the lock is
      free exactly if there is none, and what the code asserts about the holder on
      a release is true exactly of that thread, outside the call itself. */
  lemma MutualExclusion(s: State, run: seq<Action>, l: nat)
    requires StartedMonitors(s) && Runs(s, run) && l < |End(s, run).locks|
    ensures var z := End(s, run);
            && (forall t, u :: 0 <= t < |z.threads| && 0 <= u < |z.threads| && l in z.threads[t].held && l in z.threads[u].held
                  ==> t == u)
            && z.locks[l].sema < |z.semas| && (z.semas[z.locks[l].sema].value > 0 <==> !HeldBySome(z, l))
            && z.current < |z.threads|
            && (z.locks[l].holder == Holder(z.current) <==>
                  l in z.threads[z.current].held && !Busy(z.threads[z.current].pos, l))
  {
    StartedMon(s);
    RunMon(s, run);
    hide Inv, OwnOk, CondOk;
    assert LockOk(End(s, run), l);
  }

  lemma OnlyOwnerAwaits(s: State, t: nat, w: nat, u: nat)
    requires Inv(s) && Mon(s) && t < |s.threads| && WaitsWith(s.threads[t].pos, w) && u < |s.threads| && Awaits(s.threads[u].pos, w)
    ensures u == t
  {
    hide LockOk, OwnOk, CondOk;
    MonParts(s, u);
    assert PosOk(s, t) && PosOk(s, u);
  }

  lemma OnItsList(s: State, t: nat, w: nat)
    requires Inv(s) && t < |s.threads| && WaitsWith(s.threads[t].pos, w) && w < |s.semas| && s.threads[t].status.Blocked?
    ensures Awaits(s.threads[t].pos, w) && s.semas[w].waiters != [] && !s.threads[t].woken
  {
    hide AllCovered, Timely;
    assert ListOk(s.threads, s.idle, s.semas[w].waiters, InSema(w));
    assert ThreadOk(s.threads[t], t == s.idle, |s.semas|);
  }

  /** A thread in `cond_wait` is on the condition's list; or a signaller has taken
      it off and is about to up its semaphore; or its semaphore has been upped, and
      then it is not asleep and its down will go through, even if the signal came
      before it slept. */
  lemma SignalIsNotLost(s: State, t: nat, w: nat)
    requires Inv(s) && Mon(s) && t < |s.threads| && WaitsWith(s.threads[t].pos, w)
    ensures w < |s.semas| && s.semas[w].role.Own? && s.semas[w].role.thread == t
    ensures match s.semas[w].role.stage
            case Queued(c) => c < |s.conds| && w in s.conds[c] && s.semas[w].value == 0
            case Popped(u) => u < |s.threads| && s.threads[u].pos == Signalling(w) && s.semas[w].value == 0
            case Raised => s.semas[w].value == 1 && (t == s.current || t in s.ready)
  {
    assert PosOk(s, t);
    assert OwnOk(s, w) && Covered(s.threads, s.semas[w], w);
    if s.semas[w].role.stage.Raised? {
      hide Mon, Lists, Timely;
      if s.threads[t].status.Blocked? {
        OnItsList(s, t, w);
        forall u | 0 <= u < |s.threads| && s.threads[u].woken
          ensures !Awaits(s.threads[u].pos, w)
        {
          if Awaits(s.threads[u].pos, w) {
            OnlyOwnerAwaits(s, t, w, u);
          }
        }
        WokenNone(s.threads, w);
      }
      NotBlocked(s, t);
    }
  }

  lemma NotBlocked(s: State, t: nat)
    requires Inv(s) && t < |s.threads| && !s.threads[t].status.Blocked? && !s.threads[t].pos.Outside?
    ensures t == s.current || t in s.ready
  {
    hide AllCovered, Timely;
    assert ThreadOk(s.threads[t], t == s.idle, |s.semas|);
  }
}
