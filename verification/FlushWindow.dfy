/** The write-back of one entry as the code has it: `block_write`, which lets other
    threads run, and only then `dirty = false` (`project4/src/filesys/cache.c`, lines
    113 to 117).  The lock keeps requests out of the window between the two, but not
    the copying, marking and unpinning of requests already granted.  This module says
    exactly which schedules of such a window lose a write. */
module FlushWindow {
  import opened Basics
  import opened Device
  import opened CacheProtocol

  /** What threads do without the lock. */
  predicate Unlocked(a: Action) { a.Copy? || a.Mark? || a.Unpin? }

  ghost predicate Window(s: State, w: seq<Action>) {
    (forall j :: 0 <= j < |w| ==> Unlocked(w[j])) && Runs(s, w)
  }

  /** `b` after an action, if `b` is the block of entry `i`. */
  function StoreInto(b: Block, s: State, a: Action, i: nat): Block
    requires Enabled(s, a)
  {
    if a.Copy? && s.threads[a.t].Writer? && s.threads[a.t].slot == i then
      b[s.threads[a.t].ofs + s.threads[a.t].n := s.threads[a.t].bytes[s.threads[a.t].n]]
    else b
  }

  /** `b` after all the bytes that a schedule copies into entry `i`. */
  ghost function Overwritten(b: Block, s: State, w: seq<Action>, i: nat): Block
    requires Runs(s, w)
    decreases |w|
  {
    if w == [] then b else Overwritten(StoreInto(b, s, w[0], i), Do(s, w[0]), w[1..], i)
  }

  /** A writer on entry `i` that the schedule leaves between its first byte and its
      dirty bit. */
  predicate Pending(s: State, w: seq<Action>, i: nat, t: nat) {
    && t < |s.threads| && s.threads[t].Writer? && s.threads[t].slot == i && !s.threads[t].marked
    && Mark(t) !in w && (s.threads[t].n > 0 || Copy(t) in w)
  }

  lemma UnlockedStep(s: State, a: Action, i: nat)
    requires Enabled(s, a) && Unlocked(a)
    ensures var z := Do(s, a);
            && z.disk == s.disk && |z.slots| == |s.slots| && |z.threads| == |s.threads| && z.flush == s.flush
            && (i < |s.slots| ==> z.slots[i].sector == s.slots[i].sector && z.slots[i].block == StoreInto(s.slots[i].block, s, a, i))
            && (forall t :: 0 <= t < |s.threads| && t != a.t ==> z.threads[t] == s.threads[t])
  {}

  /** The schedule does to the block what its bytes say, and nothing to the disk. */
  lemma {:induction false} WindowBlock(s: State, w: seq<Action>, i: nat)
    requires Window(s, w) && i < |s.slots|
    ensures var z := End(s, w);
            && z.disk == s.disk && |z.slots| == |s.slots| && |z.threads| == |s.threads| && z.flush == s.flush
            && z.slots[i].sector == s.slots[i].sector && z.slots[i].block == Overwritten(s.slots[i].block, s, w, i)
    decreases |w|
  {
    hide Enabled, Do;
    if w != [] {
      UnlockedStep(s, w[0], i);
      WindowBlock(Do(s, w[0]), w[1..], i);
    }
  }

  lemma PendingStep(s: State, w: seq<Action>, i: nat, t: nat)
    requires Window(s, w) && w != [] && t < |s.threads|
    requires s.threads[t].Writer? ==> s.threads[t].n <= |s.threads[t].bytes| && (s.threads[t].marked ==> s.threads[t].n == |s.threads[t].bytes|)
    ensures Pending(s, w, i, t) <==> Pending(Do(s, w[0]), w[1..], i, t)
  {
    var a := w[0];
    assert w == [a] + w[1..];
    UnlockedStep(s, a, i);
  }

  /** Which writers the schedule leaves in flight can be told before it runs. */
  lemma {:induction false} WindowInFlight(s: State, w: seq<Action>, i: nat, t: nat)
    requires Inv(s) && Window(s, w) && t < |s.threads|
    ensures t < |End(s, w).threads| && (InFlight(End(s, w).threads[t], i) <==> Pending(s, w, i, t))
    decreases |w|
  {
    if w != [] {
      StepKeeps(s, w[0]);
      assert ThreadOk(s.threads[t], s.slots);
      PendingStep(s, w, i, t);
      UnlockedStep(s, w[0], i);
      hide Inv;
      WindowInFlight(Do(s, w[0]), w[1..], i, t);
    }
  }

  /** A schedule that does no harm between the write of entry `i` and the clearing of
      its dirty bit: what it copies into the entry leaves the block as it was written,
      or some writer on the entry is still to set the dirty bit again. */
  ghost predicate Harmless(s: State, i: nat, w: seq<Action>)
    requires i < |s.slots| && Runs(s, w)
  {
    Overwritten(s.slots[i].block, s, w, i) == s.slots[i].block || exists t: nat :: Pending(s, w, i, t)
  }

  /** Exactly the harmless schedules of the window keep the cache in order. */
  lemma FlushKeepsIff(s: State, i: nat, w: seq<Action>)
    requires Inv(s) && i < |s.slots| && s.slots[i].sector < |s.disk| && s.slots[i].dirty && Window(WriteOut(s, i), w)
    ensures i < |End(WriteOut(s, i), w).slots|
    ensures Inv(ClearDirty(End(WriteOut(s, i), w), i)) <==> Harmless(WriteOut(s, i), i, w)
  {
    hide Inv;
    var u := WriteOut(s, i);
    WriteOutKeeps(s, i);
    RunTransparent(u, w);
    WindowBlock(u, w, i);
    ClearKeepsIff(End(u, w), i);
    InFlightIff(u, w, i);
  }

  lemma InFlightIff(s: State, w: seq<Action>, i: nat)
    requires Inv(s) && Window(s, w)
    ensures SomeInFlight(End(s, w).threads, i) <==> exists t: nat :: Pending(s, w, i, t)
  {
    hide Inv, Runs, End;
    forall t | 0 <= t < |s.threads|
      ensures t < |End(s, w).threads| && (InFlight(End(s, w).threads[t], i) <==> Pending(s, w, i, t))
    {
      WindowInFlight(s, w, i, t);
    }
    ThreadsStay(s, w);
    if SomeInFlight(End(s, w).threads, i) {
      var t :| 0 <= t < |s.threads| && InFlight(End(s, w).threads[t], i);
      assert Pending(s, w, i, t);
    }
    if t: nat :| Pending(s, w, i, t) {
      assert InFlight(End(s, w).threads[t], i);
    }
  }

  lemma {:induction false} ThreadsStay(s: State, w: seq<Action>)
    requires Window(s, w)
    ensures |End(s, w).threads| == |s.threads|
    decreases |w|
  {
    hide Enabled, Do;
    if w != [] {
      UnlockedStep(s, w[0], 0);
      ThreadsStay(Do(s, w[0]), w[1..]);
    }
  }

  // ---- Who loses a write ----

  /** Thread `t` copies a byte into entry `i` that differs from the one there. */
  predicate Changes(s: State, a: Action, i: nat, t: nat)
    requires Enabled(s, a) && i < |s.slots|
  {
    a == Copy(t) && StoreInto(s.slots[i].block, s, a, i) != s.slots[i].block
  }

  /** ... at some point of the schedule. */
  ghost predicate ChangesIn(s: State, w: seq<Action>, i: nat, t: nat)
    requires Runs(s, w) && i < |s.slots|
    decreases |w|
  {
    w != [] && i < |Do(s, w[0]).slots| &&
    (Changes(s, w[0], i, t) || ChangesIn(Do(s, w[0]), w[1..], i, t))
  }

  lemma {:induction false} SomeoneChanges(s: State, w: seq<Action>, i: nat) returns (t: nat)
    requires Inv(s) && Window(s, w) && i < |s.slots| && Overwritten(s.slots[i].block, s, w, i) != s.slots[i].block
    ensures ChangesIn(s, w, i, t) && Copy(t) in w
    ensures t < |s.threads| && s.threads[t].Writer? && s.threads[t].slot == i && !s.threads[t].marked
    decreases |w|
  {
    var z := Do(s, w[0]);
    assert w == [w[0]] + w[1..];
    UnlockedStep(s, w[0], i);
    StepKeeps(s, w[0]);
    if StoreInto(s.slots[i].block, s, w[0], i) != s.slots[i].block {
      t := w[0].t;
      assert ThreadOk(s.threads[t], s.slots);
    } else {
      t := SomeoneChanges(z, w[1..], i);
    }
  }

  /** If no thread both changes the block and sets the dirty bit inside the window,
      nothing is lost ... */
  lemma NobodyInside(s: State, i: nat, w: seq<Action>)
    requires Inv(s) && i < |s.slots| && Window(s, w)
    requires forall t: nat :: ChangesIn(s, w, i, t) ==> Mark(t) !in w
    ensures Harmless(s, i, w)
  {
    if Overwritten(s.slots[i].block, s, w, i) != s.slots[i].block {
      var t := SomeoneChanges(s, w, i);
      assert Pending(s, w, i, t);
    }
  }

  /** Only thread `t` copies into entry `i`. */
  ghost predicate Alone(s: State, w: seq<Action>, i: nat, t: nat)
    requires Runs(s, w)
    decreases |w|
  {
    w == [] ||
    (&& (w[0].Copy? && s.threads[w[0].t].Writer? && s.threads[w[0].t].slot == i ==> w[0].t == t)
     && Alone(Do(s, w[0]), w[1..], i, t))
  }

  /** The bytes before the point where a lone writer stands stay as they are. */
  lemma {:induction false} AloneKeeps(s: State, w: seq<Action>, i: nat, t: nat, b: Block, p: nat)
    requires Inv(s) && Window(s, w) && Alone(s, w, i, t) && t < |s.threads| && p < SECTOR_SIZE
    requires s.threads[t].Writer? && s.threads[t].slot == i ==> p < s.threads[t].ofs + s.threads[t].n
    ensures Overwritten(b, s, w, i)[p] == b[p]
    decreases |w|
  {
    if w != [] {
      StepKeeps(s, w[0]);
      UnlockedStep(s, w[0], i);
      AloneKeeps(Do(s, w[0]), w[1..], i, t, StoreInto(b, s, w[0], i), p);
    }
  }

  lemma {:induction false} AloneChanges(s: State, w: seq<Action>, i: nat, t: nat, b: Block) returns (p: nat)
    requires Inv(s) && Window(s, w) && Alone(s, w, i, t) && i < |s.slots| && ChangesIn(s, w, i, t) && t < |s.threads|
    requires s.threads[t].Writer? && s.threads[t].slot == i ==>
               forall q :: s.threads[t].ofs + s.threads[t].n <= q < SECTOR_SIZE ==> s.slots[i].block[q] == b[q]
    ensures p < SECTOR_SIZE && Overwritten(s.slots[i].block, s, w, i)[p] != b[p]
    decreases |w|
  {
    var z := Do(s, w[0]);
    StepKeeps(s, w[0]);
    UnlockedStep(s, w[0], i);
    if Changes(s, w[0], i, t) {
      p := s.threads[t].ofs + s.threads[t].n;
      AloneKeeps(z, w[1..], i, t, z.slots[i].block, p);
    } else {
      p := AloneChanges(z, w[1..], i, t, b);
    }
  }

  /** ... and if one does, alone on the entry and with no other writer left to mark
      it, its write is lost: the entry is clean and differs from its sector. */
  lemma WriterInsideLoses(s: State, i: nat, w: seq<Action>, t: nat)
    requires Inv(s) && i < |s.slots| && s.slots[i].sector < |s.disk| && s.slots[i].dirty && Window(WriteOut(s, i), w)
    requires Alone(WriteOut(s, i), w, i, t) && t < |s.threads| && ChangesIn(WriteOut(s, i), w, i, t) && Mark(t) in w
    requires forall u: nat :: u != t ==> !Pending(WriteOut(s, i), w, i, u)
    ensures i < |End(WriteOut(s, i), w).slots|
    ensures var z := ClearDirty(End(WriteOut(s, i), w), i);
            !Inv(z) && !z.slots[i].dirty && z.slots[i].sector < |z.disk| && z.slots[i].block != z.disk[z.slots[i].sector]
  {
    var u := WriteOut(s, i);
    WriteOutKeeps(s, i);
    WindowBlock(u, w, i);
    FlushKeepsIff(s, i, w);
    var p := AloneChanges(u, w, i, t, u.slots[i].block);
  }

  /** A schedule that is not harmless, from a state in order: the one thread copies its
      byte, sets the dirty bit and gives its pin back, all inside the window. */
  lemma RaceIsHarmful(b: Byte)
    requires b != 0
    ensures var s, w := Racing(ZeroBlock(), 1, Writer(0, 0, 0, [b], 0, false)), [Copy(0), Mark(0), Unpin(0)];
            && Inv(s) && s.slots[0].dirty && WriteOut(s, 0) == s && Window(s, w) && !Harmless(s, 0, w)
  {
    hide Inv, Do, Enabled;
    var s, w := Racing(ZeroBlock(), 1, Writer(0, 0, 0, [b], 0, false)), [Copy(0), Mark(0), Unpin(0)];
    var s0 := State([ZeroBlock()], [], [Idle], Off);
    RaceBegins(b);
    InvEmpty(s0);
    StepKeeps(s0, Get(0, Store(0, 0, [b]), 0));
    StepKeeps(s.(flush := Off), FlushBegin);
    RaceWrites(b);
    var s4 := Do(s, w[0]);
    assert w[1..] == [Mark(0), Unpin(0)] && w[1..][1..] == [Unpin(0)] && w[1..][1..][1..] == [];
    assert Runs(s4, w[1..]) by {
      assert Runs(Do(s4, Mark(0)), [Unpin(0)]);
    }
    assert Overwritten(s.slots[0].block, s, w, 0) == ZeroBlock()[0 := b];
    assert ZeroBlock()[0 := b][0] != ZeroBlock()[0];
  }

  // ---- Runs with such windows ----

  /** A step of the cache in which the write-back of an entry is two, with a schedule
      of the other threads between them. */
  datatype Step = Plain(a: Action) | Flush(window: seq<Action>)

  ghost predicate CanStep(s: State, st: Step) {
    match st
    case Plain(a) => Enabled(s, a) && !a.FlushEntry?
    case Flush(w) =>
      && Enabled(s, FlushEntry)
      && (if s.slots[s.flush.next].dirty then Window(WriteOut(s, s.flush.next), w) else w == [])
  }

  ghost function Take(s: State, st: Step): State
    requires CanStep(s, st)
  {
    match st
    case Plain(a) => Do(s, a)
    case Flush(w) =>
      var i := s.flush.next;
      if s.slots[i].dirty then
        WindowBlock(WriteOut(s, i), w, i);
        ClearDirty(End(WriteOut(s, i), w), i).(flush := At(i + 1))
      else s.(flush := At(i + 1))
  }

  ghost predicate SafeStep(s: State, st: Step)
    requires CanStep(s, st)
  {
    st.Flush? && s.slots[s.flush.next].dirty ==> Harmless(WriteOut(s, s.flush.next), s.flush.next, st.window)
  }

  /** A step keeps the cache in order if and only if it is safe. */
  lemma TakeKeepsIff(s: State, st: Step)
    requires Inv(s) && CanStep(s, st)
    ensures Inv(Take(s, st)) <==> SafeStep(s, st)
  {
    hide Inv;
    match st
    case Plain(a) => StepKeeps(s, a);
    case Flush(w) =>
      var i := s.flush.next;
      if s.slots[i].dirty {
        FlushKeepsIff(s, i, w);
        FlushFieldFree(ClearDirty(End(WriteOut(s, i), w), i), At(i + 1));
      } else {
        FlushIsFree(s, At(i + 1));
      }
  }

  lemma FlushFieldFree(s: State, f: CacheProtocol.Flush)
    ensures Inv(s.(flush := f)) <==> Inv(s)
  {
    var z := s.(flush := f);
    if Inv(s) { FlushIsFree(s, f); }
    if Inv(z) {
      FlushIsFree(z, s.flush);
      assert z.(flush := s.flush) == s;
    }
  }

  /** What the step does to a plain memory. */
  ghost function StepMemory(mem: seq<Block>, s: State, st: Step): (m: seq<Block>)
    requires CanStep(s, st)
    ensures |m| == |mem|
  {
    match st
    case Plain(a) => Effect(mem, s, a)
    case Flush(w) => if s.slots[s.flush.next].dirty then Memory(mem, WriteOut(s, s.flush.next), w) else mem
  }

  /** Writing a block out and clearing a dirty bit show in no sector. */
  lemma WriteOutShows(s: State, i: nat)
    requires Shaped(s) && i < |s.slots| && |s.disk| <= CacheProtocol.MAX_SECTORS
    ensures AllContents(WriteOut(s, i)) == AllContents(s) && AllContents(ClearDirty(s, i)) == AllContents(s)
  {
    var z, c := WriteOut(s, i), ClearDirty(s, i);
    forall k | 0 <= k < |s.disk|
      ensures AllContents(z)[k] == AllContents(s)[k] && AllContents(c)[k] == AllContents(s)[k]
    {
      FindSame(s.slots, z.slots, k);
      FindSame(s.slots, c.slots, k);
      FindIs(s, i);
    }
  }

  lemma TakeTransparent(s: State, st: Step)
    requires Inv(s) && CanStep(s, st)
    ensures |s.disk| <= CacheProtocol.MAX_SECTORS && |Take(s, st).disk| == |s.disk|
    ensures AllContents(Take(s, st)) == StepMemory(AllContents(s), s, st)
  {
    InvShaped(s);
    match st
    case Plain(a) =>
      hide Inv;
      DiskSize(s, a);
      forall k | 0 <= k < |s.disk|
        ensures AllContents(Do(s, a))[k] == Effect(AllContents(s), s, a)[k]
      {
        StepTransparent(s, a, k);
      }
    case Flush(w) =>
      var i := s.flush.next;
      if s.slots[i].dirty {
        var u := WriteOut(s, i);
        WriteOutKeeps(s, i);
        hide Inv;
        WriteOutShows(s, i);
        RunTransparent(u, w);
        WindowBlock(u, w, i);
        InvShaped(End(u, w));
        WriteOutShows(End(u, w), i);
      }
      FlushNotSeen(Take(s, st), s.flush);
  }

  lemma FlushNotSeen(s: State, f: CacheProtocol.Flush)
    requires |s.disk| <= CacheProtocol.MAX_SECTORS
    ensures AllContents(s.(flush := f)) == AllContents(s)
  {
    var z := s.(flush := f);
    assert forall k :: 0 <= k < |s.disk| ==> Contents(z, k) == Contents(s, k);
  }

  ghost predicate StepsRun(s: State, run: seq<Step>)
    decreases |run|
  {
    run == [] || (CanStep(s, run[0]) && StepsRun(Take(s, run[0]), run[1..]))
  }

  ghost function StepsEnd(s: State, run: seq<Step>): State
    requires StepsRun(s, run)
    decreases |run|
  {
    if run == [] then s else StepsEnd(Take(s, run[0]), run[1..])
  }

  ghost function StepsMemory(mem: seq<Block>, s: State, run: seq<Step>): (m: seq<Block>)
    requires StepsRun(s, run)
    ensures |m| == |mem|
    decreases |run|
  {
    if run == [] then mem else StepsMemory(StepMemory(mem, s, run[0]), Take(s, run[0]), run[1..])
  }

  ghost predicate AllSafe(s: State, run: seq<Step>)
    requires StepsRun(s, run)
    decreases |run|
  {
    run == [] || (SafeStep(s, run[0]) && AllSafe(Take(s, run[0]), run[1..]))
  }

  /** Every state on the way is in order. */
  ghost predicate AllInv(s: State, run: seq<Step>)
    requires StepsRun(s, run)
    decreases |run|
  {
    Inv(s) && (run == [] || AllInv(Take(s, run[0]), run[1..]))
  }

  /** A run stays in order if and only if all its windows are harmless ... */
  lemma {:induction false} StepsKeepIff(s: State, run: seq<Step>)
    requires Inv(s) && StepsRun(s, run)
    ensures AllInv(s, run) <==> AllSafe(s, run)
    decreases |run|
  {
    hide Inv, CanStep, SafeStep, Take;
    if run != [] {
      TakeKeepsIff(s, run[0]);
      var z := Take(s, run[0]);
      if Inv(z) {
        StepsKeepIff(z, run[1..]);
      }
    }
  }

  lemma {:induction false} StepsTransparent(s: State, run: seq<Step>)
    requires Inv(s) && StepsRun(s, run) && AllSafe(s, run) && |s.disk| <= CacheProtocol.MAX_SECTORS
    ensures var z := StepsEnd(s, run);
            Inv(z) && |z.disk| == |s.disk| && AllContents(z) == StepsMemory(AllContents(s), s, run)
    decreases |run|
  {
    hide Inv, CanStep, SafeStep, Take, StepMemory, AllContents;
    if run != [] {
      TakeKeepsIff(s, run[0]);
      TakeTransparent(s, run[0]);
      StepsTransparent(Take(s, run[0]), run[1..]);
    }
  }

  /** ... and then no write is lost: at rest one more pass leaves on the disk every
      byte that was written. */
  lemma NothingLostInWindows(s: State, run: seq<Step>)
    requires Inv(s) && StepsRun(s, run) && AllSafe(s, run) && |s.disk| <= CacheProtocol.MAX_SECTORS && Quiet(StepsEnd(s, run))
    ensures var z := StepsEnd(s, run); var pass := [FlushBegin] + Pass(0, |z.slots|);
            Runs(z, pass) && End(z, pass).disk == StepsMemory(AllContents(s), s, run)
  {
    StepsTransparent(s, run);
    var z := StepsEnd(s, run);
    assert Runs(z, []) && End(z, []) == z && Memory(AllContents(z), z, []) == AllContents(z);
    NothingLost(z, []);
  }
}
