/** The buffer cache as its threads share it (`project4/src/filesys/cache.c`,
    lines 30 to 126, and the copy loops of `project4/src/filesys/inode.c`, lines
    346 to 356 and 409 to 414).  Whatever happens under `filesys_cache_lock` on
    one entry is one action; copying a byte, setting `dirty` and dropping the
    pin happen outside the lock and are actions of their own. */
module CacheProtocol {
  import opened Basics
  import opened Device
  import Cache

  /** As many sectors as a `block_sector_t` can number. */
  const MAX_SECTORS := 0x1_0000_0000

  datatype Slot = Slot(sector: Sector, block: Block, dirty: bool, pins: nat)

  datatype Request =
    | Store(sector: Sector, ofs: nat, bytes: seq<Byte>)
    | Load(sector: Sector, ofs: nat, size: nat)

  /** Where a thread stands: a writer has copied `n` of its bytes and then sets
      the dirty bit; a reader has `got` some of its bytes. */
  datatype Thread =
    | Idle
    | Writer(slot: nat, sector: Sector, ofs: nat, bytes: seq<Byte>, n: nat, marked: bool)
    | Reader(slot: nat, sector: Sector, ofs: nat, size: nat, got: seq<Byte>)

  /** The write-back thread holds the lock and is about to look at entry `next`,
      or is not at work. */
  datatype Flush = Off | At(next: nat)

  datatype State = State(disk: seq<Block>, slots: seq<Slot>, threads: seq<Thread>, flush: Flush)

  datatype Action =
    | Get(t: nat, r: Request, victim: nat)
    | Copy(t: nat)
    | Mark(t: nat)
    | Unpin(t: nat)
    | FlushBegin
    | FlushEntry
    | FlushEnd

  /** `block_in_cache`: the first entry of a sector, or the length of the list. */
  function Find(slots: seq<Slot>, sector: Sector): (i: nat)
    ensures i <= |slots|
    ensures i < |slots| ==> slots[i].sector == sector
    ensures forall j :: 0 <= j < i ==> slots[j].sector != sector
  {
    if slots == [] then 0
    else if slots[0].sector == sector then 0
    else Find(slots[1..], sector) + 1
  }

  predicate Fits(s: State, r: Request) {
    r.sector < |s.disk| && r.ofs + (if r.Store? then |r.bytes| else r.size) <= SECTOR_SIZE
  }

  predicate Full(s: State, sector: Sector) {
    Find(s.slots, sector) == |s.slots| && |s.slots| >= Cache.MAX_FILESYS_CACHE_SIZE
  }

  predicate Enabled(s: State, a: Action) {
    match a
    case Get(t, r, victim) =>
      && t < |s.threads| && s.threads[t].Idle? && s.flush.Off? && Fits(s, r)
      && (Full(s, r.sector) ==>
            victim < |s.slots| && s.slots[victim].pins == 0 && s.slots[victim].sector < |s.disk|)
    case Copy(t) =>
      && t < |s.threads| && !s.threads[t].Idle? && s.threads[t].slot < |s.slots|
      && (match s.threads[t]
          case Writer(_, _, ofs, bytes, n, _) => n < |bytes| && ofs + n < SECTOR_SIZE
          case Reader(_, _, ofs, size, got) => |got| < size && ofs + |got| < SECTOR_SIZE
          case Idle => false)
    case Mark(t) =>
      && t < |s.threads| && s.threads[t].Writer? && s.threads[t].slot < |s.slots|
      && s.threads[t].n == |s.threads[t].bytes| && !s.threads[t].marked
    case Unpin(t) =>
      && t < |s.threads| && !s.threads[t].Idle? && s.threads[t].slot < |s.slots| && s.slots[s.threads[t].slot].pins > 0
      && (match s.threads[t]
          case Writer(_, _, _, _, _, marked) => marked
          case Reader(_, _, _, size, got) => |got| == size
          case Idle => false)
    case FlushBegin => s.flush.Off?
    case FlushEntry => s.flush.At? && s.flush.next < |s.slots| && s.slots[s.flush.next].sector < |s.disk|
    case FlushEnd => s.flush.At? && s.flush.next == |s.slots|
  }

  function Begin(i: nat, r: Request): Thread {
    match r
    case Store(sector, ofs, bytes) => Writer(i, sector, ofs, bytes, 0, false)
    case Load(sector, ofs, size) => Reader(i, sector, ofs, size, [])
  }

  /** `filesys_cache_block_get`: a hit, a new entry, or the entry of an unpinned
      victim, which is first written back if dirty. */
  function DoGet(s: State, t: nat, r: Request, victim: nat): State
    requires Enabled(s, Get(t, r, victim))
  {
    var i := Find(s.slots, r.sector);
    if i < |s.slots| then
      s.(slots := s.slots[i := s.slots[i].(dirty := s.slots[i].dirty || r.Store?, pins := s.slots[i].pins + 1)],
         threads := s.threads[t := Begin(i, r)])
    else if |s.slots| < Cache.MAX_FILESYS_CACHE_SIZE then
      s.(slots := s.slots + [Slot(r.sector, s.disk[r.sector], r.Store?, 1)],
         threads := s.threads[t := Begin(i, r)])
    else
      var was := s.slots[victim];
      var disk := if was.dirty then s.disk[was.sector := was.block] else s.disk;
      s.(disk := disk,
         slots := s.slots[victim := Slot(r.sector, disk[r.sector], r.Store?, 1)],
         threads := s.threads[t := Begin(victim, r)])
  }

  /** `block_write` of an entry, if it is dirty ... */
  function WriteOut(s: State, i: nat): State
    requires i < |s.slots| && s.slots[i].sector < |s.disk|
  {
    if s.slots[i].dirty then s.(disk := s.disk[s.slots[i].sector := s.slots[i].block]) else s
  }

  /** ... and clearing its dirty bit. */
  function ClearDirty(s: State, i: nat): State
    requires i < |s.slots|
  {
    s.(slots := s.slots[i := s.slots[i].(dirty := false)])
  }

  function Do(s: State, a: Action): State
    requires Enabled(s, a)
  {
    match a
    case Get(t, r, victim) => DoGet(s, t, r, victim)
    case Copy(t) =>
      (match s.threads[t]
       case Writer(i, sector, ofs, bytes, n, marked) =>
         s.(slots := s.slots[i := s.slots[i].(block := s.slots[i].block[ofs + n := bytes[n]])],
            threads := s.threads[t := s.threads[t].(n := n + 1)])
       case Reader(i, sector, ofs, size, got) =>
         s.(threads := s.threads[t := s.threads[t].(got := got + [s.slots[i].block[ofs + |got|]])])
       case Idle => s)
    case Mark(t) =>
      s.(slots := s.slots[s.threads[t].slot := s.slots[s.threads[t].slot].(dirty := true)],
         threads := s.threads[t := s.threads[t].(marked := true)])
    case Unpin(t) =>
      s.(slots := s.slots[s.threads[t].slot := s.slots[s.threads[t].slot].(pins := s.slots[s.threads[t].slot].pins - 1)],
         threads := s.threads[t := Idle])
    case FlushBegin => s.(flush := At(0))
    case FlushEntry => ClearDirty(WriteOut(s, s.flush.next), s.flush.next).(flush := At(s.flush.next + 1))
    case FlushEnd => s.(flush := Off)
  }

  // ---- The invariant ----

  predicate Holds(th: Thread, i: nat) { !th.Idle? && th.slot == i }

  /** A writer that has copied at least one byte to entry `i` and has yet to set
      its dirty bit. */
  predicate InFlight(th: Thread, i: nat) { th.Writer? && th.slot == i && th.n > 0 && !th.marked }

  function Pins(threads: seq<Thread>, i: nat): nat {
    if threads == [] then 0
    else (if Holds(threads[0], i) then 1 else 0) + Pins(threads[1..], i)
  }

  ghost predicate SomeInFlight(threads: seq<Thread>, i: nat) {
    exists t :: 0 <= t < |threads| && InFlight(threads[t], i)
  }

  ghost predicate Distinct(slots: seq<Slot>) {
    forall i, j :: 0 <= i < j < |slots| ==> slots[i].sector != slots[j].sector
  }

  predicate ThreadOk(th: Thread, slots: seq<Slot>) {
    match th
    case Idle => true
    case Writer(i, sector, ofs, bytes, n, marked) =>
      i < |slots| && slots[i].sector == sector && ofs + |bytes| <= SECTOR_SIZE && n <= |bytes| && (marked ==> n == |bytes|)
    case Reader(i, sector, ofs, size, got) =>
      i < |slots| && slots[i].sector == sector && ofs + size <= SECTOR_SIZE && |got| <= size
  }

  ghost predicate Counted(s: State) {
    forall i :: 0 <= i < |s.slots| ==> s.slots[i].pins == Pins(s.threads, i)
  }

  /** A clean entry that differs from its sector has a writer in flight. */
  ghost predicate Backed(s: State, i: nat)
    requires i < |s.slots| && s.slots[i].sector < |s.disk|
  {
    s.slots[i].dirty || s.slots[i].block == s.disk[s.slots[i].sector] || SomeInFlight(s.threads, i)
  }

  ghost predicate Shaped(s: State) {
    && |s.disk| <= MAX_SECTORS
    && |s.slots| <= Cache.MAX_FILESYS_CACHE_SIZE
    && (forall i :: 0 <= i < |s.slots| ==> s.slots[i].sector < |s.disk|)
    && Distinct(s.slots)
    && (forall t :: 0 <= t < |s.threads| ==> ThreadOk(s.threads[t], s.slots))
  }

  ghost predicate Inv(s: State) {
    && Shaped(s)
    && Counted(s)
    && (forall i :: 0 <= i < |s.slots| ==> Backed(s, i))
  }

  lemma PinsSet(threads: seq<Thread>, t: nat, th: Thread, i: nat)
    requires t < |threads|
    ensures Pins(threads[t := th], i) + (if Holds(threads[t], i) then 1 else 0)
         == Pins(threads, i) + (if Holds(th, i) then 1 else 0)
  {
    if t == 0 {
      assert threads[0 := th][1..] == threads[1..];
    } else {
      assert threads[t := th][1..] == threads[1..][t - 1 := th];
      PinsSet(threads[1..], t - 1, th, i);
    }
  }

  lemma {:induction false} NoPins(threads: seq<Thread>, i: nat)
    ensures Pins(threads, i) == 0 <==> forall t :: 0 <= t < |threads| ==> !Holds(threads[t], i)
  {
    if threads != [] {
      NoPins(threads[1..], i);
      assert forall t :: 1 <= t < |threads| ==> threads[t] == threads[1..][t - 1];
      assert forall t :: 0 <= t < |threads| - 1 ==> threads[1..][t] == threads[t + 1];
    }
  }

  /** The pin counts after thread `t` moves on. */
  lemma CountedAfter(s: State, t: nat, th: Thread)
    requires Counted(s) && t < |s.threads|
    ensures forall i :: 0 <= i < |s.slots| ==>
              Pins(s.threads[t := th], i) + (if Holds(s.threads[t], i) then 1 else 0)
              == s.slots[i].pins + (if Holds(th, i) then 1 else 0)
  {
    forall i | 0 <= i < |s.slots|
      ensures Pins(s.threads[t := th], i) + (if Holds(s.threads[t], i) then 1 else 0)
              == s.slots[i].pins + (if Holds(th, i) then 1 else 0)
    {
      PinsSet(s.threads, t, th, i);
    }
  }

  /** A thread that moves on without being in flight before keeps the others. */
  lemma StillInFlight(threads: seq<Thread>, t: nat, th: Thread, i: nat)
    requires t < |threads| && SomeInFlight(threads, i) && (InFlight(threads[t], i) ==> InFlight(th, i))
    ensures SomeInFlight(threads[t := th], i)
  {
    var u :| 0 <= u < |threads| && InFlight(threads[u], i);
    assert InFlight(threads[t := th][u], i);
  }

  lemma GetKeeps(s: State, t: nat, r: Request, victim: nat)
    requires Inv(s) && Enabled(s, Get(t, r, victim))
    ensures Inv(DoGet(s, t, r, victim))
  {
    hide Pins, Shaped, Counted, Backed;
    GetKeepsPins(s, t, r, victim);
    GetKeepsBacked(s, t, r, victim);
  }

  lemma GetKeepsPins(s: State, t: nat, r: Request, victim: nat)
    requires Shaped(s) && Counted(s) && Enabled(s, Get(t, r, victim))
    ensures Shaped(DoGet(s, t, r, victim)) && Counted(DoGet(s, t, r, victim))
  {
    hide Pins;
    var z := DoGet(s, t, r, victim);
    var i := z.threads[t].slot;
    CountedAfter(s, t, z.threads[t]);
    if i == |s.slots| || Full(s, r.sector) {
      NoPins(s.threads, i);
      PinsSet(s.threads, t, z.threads[t], i);
    }
  }

  lemma GetKeepsBacked(s: State, t: nat, r: Request, victim: nat)
    requires Inv(s) && Enabled(s, Get(t, r, victim)) && Shaped(DoGet(s, t, r, victim))
    ensures forall k :: 0 <= k < |DoGet(s, t, r, victim).slots| ==> Backed(DoGet(s, t, r, victim), k)
  {
    hide Counted;
    var z := DoGet(s, t, r, victim);
    forall k | 0 <= k < |z.slots|
      ensures Backed(z, k)
    {
      assert k < |s.slots| ==> Backed(s, k);
      if k < |s.slots| && SomeInFlight(s.threads, k) {
        StillInFlight(s.threads, t, z.threads[t], k);
      }
    }
  }

  lemma CopyKeeps(s: State, t: nat)
    requires Inv(s) && Enabled(s, Copy(t))
    ensures Inv(Do(s, Copy(t)))
  {
    hide Pins;
    var z := Do(s, Copy(t));
    CountedAfter(s, t, z.threads[t]);
    forall k | 0 <= k < |z.slots|
      ensures Backed(z, k)
    {
      assert Backed(s, k);
      if SomeInFlight(s.threads, k) {
        StillInFlight(s.threads, t, z.threads[t], k);
      }
      if z.threads[t].Writer? && k == z.threads[t].slot && !z.threads[t].marked {
        assert InFlight(z.threads[t], k);
      }
    }
  }

  lemma MarkKeeps(s: State, t: nat)
    requires Inv(s) && Enabled(s, Mark(t))
    ensures Inv(Do(s, Mark(t)))
  {
    hide Pins;
    var z := Do(s, Mark(t));
    CountedAfter(s, t, z.threads[t]);
    forall k | 0 <= k < |z.slots|
      ensures Backed(z, k)
    {
      assert Backed(s, k);
      if SomeInFlight(s.threads, k) && k != z.threads[t].slot {
        StillInFlight(s.threads, t, z.threads[t], k);
      }
    }
  }

  lemma UnpinKeeps(s: State, t: nat)
    requires Inv(s) && Enabled(s, Unpin(t))
    ensures Inv(Do(s, Unpin(t)))
  {
    hide Pins;
    var z := Do(s, Unpin(t));
    CountedAfter(s, t, Idle);
    forall k | 0 <= k < |z.slots|
      ensures Backed(z, k)
    {
      assert Backed(s, k);
      if SomeInFlight(s.threads, k) {
        StillInFlight(s.threads, t, Idle, k);
      }
    }
  }

  lemma WriteOutKeeps(s: State, i: nat)
    requires Inv(s) && i < |s.slots|
    ensures Inv(WriteOut(s, i)) && (s.slots[i].dirty ==> WriteOut(s, i).disk[s.slots[i].sector] == s.slots[i].block)
  {
    var z := WriteOut(s, i);
    forall k | 0 <= k < |z.slots|
      ensures Backed(z, k)
    {
      assert Backed(s, k);
    }
  }

  /** Exactly when clearing a dirty bit keeps the invariant. */
  lemma ClearKeepsIff(s: State, i: nat)
    requires Inv(s) && i < |s.slots|
    ensures Inv(ClearDirty(s, i)) <==>
              s.slots[i].block == s.disk[s.slots[i].sector] || SomeInFlight(s.threads, i)
  {
    var z := ClearDirty(s, i);
    assert Backed(z, i) <==> s.slots[i].block == s.disk[s.slots[i].sector] || SomeInFlight(s.threads, i);
    forall k | 0 <= k < |z.slots| && k != i
      ensures Backed(z, k)
    {
      assert Backed(s, k);
    }
    assert Counted(z);
  }

  /** Every action of every thread keeps the invariant. */
  lemma StepKeeps(s: State, a: Action)
    requires Inv(s) && Enabled(s, a)
    ensures Inv(Do(s, a))
  {
    match a
    case Get(t, r, victim) => GetKeeps(s, t, r, victim);
    case Copy(t) => CopyKeeps(s, t);
    case Mark(t) => MarkKeeps(s, t);
    case Unpin(t) => UnpinKeeps(s, t);
    case FlushEntry =>
      var i := s.flush.next;
      WriteOutKeeps(s, i);
      assert Backed(s, i);
      var w := WriteOut(s, i);
      ClearKeepsIff(w, i);
      FlushIsFree(ClearDirty(w, i), At(i + 1));
    case FlushBegin => FlushIsFree(s, At(0));
    case FlushEnd => FlushIsFree(s, Off);
  }

  lemma FlushIsFree(s: State, f: Flush)
    requires Inv(s)
    ensures Inv(s.(flush := f))
  {
    var z := s.(flush := f);
    assert forall k :: 0 <= k < |z.slots| ==> Backed(s, k) ==> Backed(z, k);
    assert Counted(z);
  }

  /** A clean entry that no thread holds is what its sector holds. */
  lemma UnpinnedCleanIsDisk(s: State, i: nat)
    requires Inv(s) && i < |s.slots| && s.slots[i].pins == 0 && !s.slots[i].dirty
    ensures s.slots[i].block == s.disk[s.slots[i].sector]
  {
    NoPins(s.threads, i);
    assert Backed(s, i);
  }

  // ---- What the disk means ----

  /** The block a sector shows: the cached one if resident, else the disk's. */
  function Contents(s: State, sector: Sector): Block
    requires sector < |s.disk|
  {
    var i := Find(s.slots, sector);
    if i < |s.slots| then s.slots[i].block else s.disk[sector]
  }

  function AllContents(s: State): (m: seq<Block>)
    requires |s.disk| <= MAX_SECTORS
    ensures |m| == |s.disk|
  {
    seq(|s.disk|, k requires 0 <= k < |s.disk| => Contents(s, k))
  }

  /** The plain memory without a cache: only a writer copying a byte changes it,
      at the place the writer was asked to write. */
  function Effect(mem: seq<Block>, s: State, a: Action): (m: seq<Block>)
    requires Enabled(s, a)
    ensures |m| == |mem|
  {
    if a.Copy? && s.threads[a.t].Writer? && s.threads[a.t].sector < |mem| then
      var w := s.threads[a.t];
      mem[w.sector := mem[w.sector][w.ofs + w.n := w.bytes[w.n]]]
    else mem
  }

  lemma FindIs(s: State, i: nat)
    requires Shaped(s) && i < |s.slots|
    ensures Find(s.slots, s.slots[i].sector) == i
  {}

  /** A lookup does not see pins, dirty bits or blocks. */
  lemma FindSame(slots: seq<Slot>, slots': seq<Slot>, sector: Sector)
    requires |slots'| == |slots| && forall k :: 0 <= k < |slots| ==> slots'[k].sector == slots[k].sector
    ensures Find(slots', sector) == Find(slots, sector)
  {}

  lemma GetTransparent(s: State, t: nat, r: Request, victim: nat, sector: Sector)
    requires Inv(s) && Enabled(s, Get(t, r, victim)) && sector < |s.disk|
    ensures |DoGet(s, t, r, victim).disk| == |s.disk|
    ensures Contents(DoGet(s, t, r, victim), sector) == Contents(s, sector)
  {
    var z := DoGet(s, t, r, victim);
    var i := Find(s.slots, sector);
    GetKeeps(s, t, r, victim);
    if i < |s.slots| && !(Full(s, r.sector) && i == victim) {
      assert z.slots[i].sector == sector && z.slots[i].block == s.slots[i].block;
      FindIs(z, i);
    } else if sector == r.sector {
      var j := z.threads[t].slot;
      assert z.slots[j].sector == sector;
      FindIs(z, j);
    } else {
      assert forall k :: 0 <= k < |z.slots| ==> z.slots[k].sector != sector;
      if i < |s.slots| && !s.slots[i].dirty {
        UnpinnedCleanIsDisk(s, i);
      }
    }
  }

  lemma FlushTransparent(s: State, i: nat, sector: Sector)
    requires Inv(s) && i < |s.slots| && sector < |s.disk|
    ensures Contents(ClearDirty(WriteOut(s, i), i), sector) == Contents(s, sector)
  {
    var z := ClearDirty(WriteOut(s, i), i);
    FindSame(s.slots, z.slots, sector);
    FindIs(s, i);
  }

  lemma CopyTransparent(s: State, t: nat, sector: Sector)
    requires Shaped(s) && Enabled(s, Copy(t)) && sector < |s.disk|
    ensures Contents(Do(s, Copy(t)), sector) == Effect(AllContents(s), s, Copy(t))[sector]
  {
    var z := Do(s, Copy(t));
    FindSame(s.slots, z.slots, sector);
    assert ThreadOk(s.threads[t], s.slots);
    FindIs(s, s.threads[t].slot);
  }

  /** Every action does to what the disk means exactly what it does to a plain
      memory: lookups, evictions and write-back do nothing to it. */
  lemma StepTransparent(s: State, a: Action, sector: Sector)
    requires Inv(s) && Enabled(s, a) && sector < |s.disk|
    ensures |Do(s, a).disk| == |s.disk|
    ensures Contents(Do(s, a), sector) == Effect(AllContents(s), s, a)[sector]
  {
    hide Inv, Backed, Counted, Shaped;
    match a
    case Get(t, r, victim) => GetTransparent(s, t, r, victim, sector);
    case Copy(t) => InvShaped(s); CopyTransparent(s, t, sector);
    case FlushEntry => FlushTransparent(s, s.flush.next, sector);
    case Mark(_) => FindSame(s.slots, Do(s, a).slots, sector);
    case Unpin(_) => FindSame(s.slots, Do(s, a).slots, sector);
    case FlushBegin =>
    case FlushEnd =>
  }

  lemma InvShaped(s: State)
    requires Inv(s)
    ensures Shaped(s)
  {}

  /** What a reader copies is the byte that its sector means at that moment. */
  lemma ReaderSees(s: State, t: nat)
    requires Inv(s) && Enabled(s, Copy(t)) && s.threads[t].Reader?
    ensures Do(s, Copy(t)).threads[t].got
         == s.threads[t].got + [Contents(s, s.threads[t].sector)[s.threads[t].ofs + |s.threads[t].got|]]
  {
    FindIs(s, s.threads[t].slot);
  }

  // ---- Runs ----

  ghost predicate Runs(s: State, run: seq<Action>)
    decreases |run|
  {
    run == [] || (Enabled(s, run[0]) && Runs(Do(s, run[0]), run[1..]))
  }

  ghost function End(s: State, run: seq<Action>): State
    requires Runs(s, run)
    decreases |run|
  {
    if run == [] then s else End(Do(s, run[0]), run[1..])
  }

  /** The plain memory after a run. */
  ghost function Memory(mem: seq<Block>, s: State, run: seq<Action>): (m: seq<Block>)
    requires Runs(s, run)
    ensures |m| == |mem|
    decreases |run|
  {
    if run == [] then mem else Memory(Effect(mem, s, run[0]), Do(s, run[0]), run[1..])
  }

  /** Over every interleaving the disk means what a plain memory would hold. */
  lemma {:induction false} RunTransparent(s: State, run: seq<Action>)
    requires Inv(s) && Runs(s, run)
    ensures Inv(End(s, run)) && |End(s, run).disk| == |s.disk|
    ensures AllContents(End(s, run)) == Memory(AllContents(s), s, run)
    decreases |run|
  {
    if run != [] {
      var z := Do(s, run[0]);
      StepKeeps(s, run[0]);
      DiskSize(s, run[0]);
      forall k | 0 <= k < |s.disk|
        ensures AllContents(z)[k] == Effect(AllContents(s), s, run[0])[k]
      {
        StepTransparent(s, run[0], k);
      }
      assert AllContents(z) == Effect(AllContents(s), s, run[0]);
      RunTransparent(z, run[1..]);
    }
  }

  lemma DiskSize(s: State, a: Action)
    requires Enabled(s, a)
    ensures |Do(s, a).disk| == |s.disk|
  {}

  /** A sector whose disk block is out of date is dirty, or about to be. */
  lemma StaleIsDirty(s: State, sector: Sector)
    requires Inv(s) && sector < |s.disk| && s.disk[sector] != Contents(s, sector)
    ensures var i := Find(s.slots, sector);
            i < |s.slots| && (s.slots[i].dirty || (s.slots[i].pins > 0 && SomeInFlight(s.threads, i)))
  {
    var i := Find(s.slots, sector);
    assert Backed(s, i);
    NoPins(s.threads, i);
  }

  ghost predicate Quiet(s: State) {
    s.flush.Off? && forall t :: 0 <= t < |s.threads| ==> s.threads[t].Idle?
  }

  /** One write-back pass over the entries from `k` on. */
  function Pass(k: nat, n: nat): (run: seq<Action>)
    requires k <= n
    decreases n - k
  {
    if k == n then [FlushEnd] else [FlushEntry] + Pass(k + 1, n)
  }

  lemma RunCons(s: State, a: Action, rest: seq<Action>)
    requires Enabled(s, a) && Runs(Do(s, a), rest)
    ensures Runs(s, [a] + rest) && End(s, [a] + rest) == End(Do(s, a), rest)
  {
    assert ([a] + rest)[1..] == rest;
  }

  ghost predicate AllClean(slots: seq<Slot>, k: nat) {
    forall i :: 0 <= i < k && i < |slots| ==> !slots[i].dirty
  }

  lemma {:induction false} PassCleans(s: State, k: nat)
    requires Inv(s) && s.flush == At(k) && k <= |s.slots| && AllClean(s.slots, k)
    requires Quiet(s.(flush := Off))
    ensures Runs(s, Pass(k, |s.slots|))
    ensures var z := End(s, Pass(k, |s.slots|)); Quiet(z) && AllClean(z.slots, |z.slots|)
    decreases |s.slots| - k
  {
    hide Inv;
    if k < |s.slots| {
      InvShaped(s);
      StepKeeps(s, FlushEntry);
      PassCleans(Do(s, FlushEntry), k + 1);
      RunCons(s, FlushEntry, Pass(k + 1, |s.slots|));
    } else {
      RunCons(s, FlushEnd, []);
      assert [FlushEnd] + [] == Pass(k, k);
      assert End(Do(s, FlushEnd), []) == s.(flush := Off);
    }
  }

  lemma CleanIsDisk(s: State)
    requires Inv(s) && Quiet(s) && AllClean(s.slots, |s.slots|)
    ensures s.disk == AllContents(s)
  {
    forall k | 0 <= k < |s.disk|
      ensures s.disk[k] == AllContents(s)[k]
    {
      if s.disk[k] != Contents(s, k) {
        StaleIsDirty(s, k);
      }
    }
  }

  lemma {:induction false} PassStores(s: State, k: nat, n: nat, mem: seq<Block>)
    requires k <= n && Runs(s, Pass(k, n))
    ensures Memory(mem, s, Pass(k, n)) == mem
    decreases n - k
  {
    var run := Pass(k, n);
    var z := Do(s, run[0]);
    if k < n {
      assert run[1..] == Pass(k + 1, n);
      PassStores(z, k + 1, n, mem);
    } else {
      assert run[1..] == [];
    }
  }

  /** No write is lost: whatever threads did in whatever order, once they are
      done one write-back pass leaves on the disk every byte they wrote. */
  lemma NothingLost(s: State, run: seq<Action>)
    requires Inv(s) && Runs(s, run) && Quiet(End(s, run))
    ensures var z := End(s, run); var pass := [FlushBegin] + Pass(0, |z.slots|);
            Runs(z, pass) && End(z, pass).disk == Memory(AllContents(s), s, run)
  {
    RunTransparent(s, run);
    var z := End(s, run);
    var pass := [FlushBegin] + Pass(0, |z.slots|);
    var z1 := Do(z, FlushBegin);
    StepKeeps(z, FlushBegin);
    PassCleans(z1, 0);
    RunCons(z, FlushBegin, Pass(0, |z.slots|));
    assert pass[1..] == Pass(0, |z.slots|);
    RunTransparent(z, pass);
    CleanIsDisk(End(z, pass));
    PassStores(z1, 0, |z.slots|, AllContents(z));
    assert Memory(AllContents(z), z, pass) == Memory(AllContents(z), z1, pass[1..]);
  }

  // ---- One request on its own ----

  /** Nobody but thread `t` copies a byte into `sector` during the run, and `t`
      does not finish. */
  ghost predicate Undisturbed(s: State, run: seq<Action>, t: nat, sector: Sector)
    requires Runs(s, run)
    decreases |run|
  {
    run == [] ||
    (&& run[0] != Unpin(t)
     && (run[0].Copy? && run[0].t != t && s.threads[run[0].t].Writer? ==> s.threads[run[0].t].sector != sector)
     && Undisturbed(Do(s, run[0]), run[1..], t, sector))
  }

  /** How far the request of thread `t` has come, if its sector held `was` when
      the thread began. */
  ghost predicate Progress(s: State, t: nat, was: Block) {
    && t < |s.threads|
    && (match s.threads[t]
        case Idle => false
        case Writer(_, sector, ofs, bytes, n, marked) =>
          && sector < |s.disk| && n <= |bytes| && ofs + |bytes| <= SECTOR_SIZE && (marked ==> n == |bytes|)
          && Contents(s, sector) == was[..ofs] + bytes[..n] + was[ofs + n..]
        case Reader(_, sector, ofs, size, got) =>
          && sector < |s.disk| && |got| <= size && ofs + size <= SECTOR_SIZE
          && Contents(s, sector) == was && got == was[ofs..ofs + |got|])
  }

  lemma ProgressStep(s: State, a: Action, t: nat, was: Block)
    requires Inv(s) && Enabled(s, a) && Progress(s, t, was) && a != Unpin(t)
    requires a.Copy? && a.t != t && s.threads[a.t].Writer? ==> s.threads[a.t].sector != s.threads[t].sector
    ensures Progress(Do(s, a), t, was) && Do(s, a).threads[t].sector == s.threads[t].sector
  {
    hide Inv, Contents, Find;
    StepTransparent(s, a, s.threads[t].sector);
    DiskSize(s, a);
    if a == Copy(t) {
      OwnCopy(s, t, was);
    } else if a != Mark(t) {
      assert Do(s, a).threads[t] == s.threads[t];
    }
  }

  lemma OwnCopy(s: State, t: nat, was: Block)
    requires Inv(s) && Enabled(s, Copy(t)) && Progress(s, t, was)
    requires Contents(Do(s, Copy(t)), s.threads[t].sector) == Effect(AllContents(s), s, Copy(t))[s.threads[t].sector]
    ensures Progress(Do(s, Copy(t)), t, was)
  {
    hide Inv, Contents, Find;
    match s.threads[t]
    case Writer(_, _, ofs, bytes, n, _) =>
      assert bytes[..n + 1] == bytes[..n] + [bytes[n]];
      var now := was[..ofs] + bytes[..n] + was[ofs + n..];
      assert now[ofs + n := bytes[n]] == was[..ofs] + bytes[..n + 1] + was[ofs + n + 1..];
    case Reader(_, _, ofs, size, got) =>
      ReaderSees(s, t);
      assert was[ofs..ofs + |got| + 1] == was[ofs..ofs + |got|] + [was[ofs + |got|]];
  }

  /** A writer that nobody disturbs leaves its bytes in its sector and nothing
      else, and a reader that nobody disturbs gets its sector's bytes, whatever
      other sectors, evictions and write-backs happen meanwhile. */
  lemma {:induction false} RequestRuns(s: State, run: seq<Action>, t: nat, was: Block)
    requires Inv(s) && Runs(s, run) && Progress(s, t, was) && Undisturbed(s, run, t, s.threads[t].sector)
    ensures Progress(End(s, run), t, was) && End(s, run).threads[t].sector == s.threads[t].sector
    decreases |run|
  {
    if run != [] {
      StepKeeps(s, run[0]);
      ProgressStep(s, run[0], t, was);
      RequestRuns(Do(s, run[0]), run[1..], t, was);
    }
  }

  /** A request begins with its sector as it is. */
  lemma RequestBegins(s: State, t: nat, r: Request, victim: nat)
    requires Inv(s) && Enabled(s, Get(t, r, victim))
    ensures Progress(DoGet(s, t, r, victim), t, Contents(s, r.sector))
  {
    GetTransparent(s, t, r, victim, r.sector);
    var c := Contents(s, r.sector);
    assert c[..r.ofs] + [] + c[r.ofs..] == c;
  }

  // ---- A finer step loses writes ----

  /** Once an entry that differs from its sector is clean and unpinned, evicting
      it makes the sector show its old bytes again. */
  lemma EvictingForgets(s: State, t: nat, r: Request, victim: nat)
    requires Shaped(s) && Enabled(s, Get(t, r, victim)) && Full(s, r.sector) && !s.slots[victim].dirty
    ensures Contents(DoGet(s, t, r, victim), s.slots[victim].sector) == s.disk[s.slots[victim].sector]
  {
    var z := DoGet(s, t, r, victim);
    assert forall k :: 0 <= k < |z.slots| ==> z.slots[k].sector != s.slots[victim].sector;
  }

  /** If another thread may run between `block_write` and `dirty = false`, its
      write can be lost: the writer is done, nobody holds the entry, it is clean,
      and the byte is not on the disk. */
  lemma FinerStepLosesWrite(b: Byte) returns (run: seq<State>, z: State)
    requires b != 0
    ensures |run| == 7 && run[0] == State([ZeroBlock()], [], [Idle], Off) && Inv(run[0])
    ensures Takes(run[0], Get(0, Store(0, 0, [b]), 0), run[1]) && Takes(run[1], FlushBegin, run[2])
    ensures |run[2].slots| == 1 && run[2].slots[0].sector < |run[2].disk| && run[3] == WriteOut(run[2], 0)
    ensures Takes(run[3], Copy(0), run[4]) && Takes(run[4], Mark(0), run[5]) && Takes(run[5], Unpin(0), run[6])
    ensures |run[6].slots| == 1 && z == ClearDirty(run[6], 0)
    ensures z.threads == [Idle] && z.slots[0].pins == 0 && !z.slots[0].dirty && !Inv(z)
    ensures |z.disk| == 1 && Contents(z, 0)[0] == b && z.disk[0][0] == 0
  {
    hide Inv, Takes, Find, ClearDirty;
    var zero, block := ZeroBlock(), ZeroBlock()[0 := b];
    var s0 := State([zero], [], [Idle], Off);
    InvEmpty(s0);
    var s2 := Racing(zero, 1, Writer(0, 0, 0, [b], 0, false));
    RaceBegins(b);
    var s6 := Racing(block, 0, Idle);
    RaceWrites(b);
    run := [s0, s2.(flush := Off), s2, s2, Racing(block, 1, Writer(0, 0, 0, [b], 1, false)), Racing(block, 1, Writer(0, 0, 0, [b], 1, true)), s6];
    z := ClearDirty(s6, 0);
    RaceEnds(b);
  }

  /** One sector of zeros on the disk, its block in the cache dirty, a flush at it. */
  function Racing(block: Block, pins: nat, th: Thread): State {
    State([ZeroBlock()], [Slot(0, block, true, pins)], [th], At(0))
  }

  lemma RaceBegins(b: Byte)
    ensures var s0, s2 := State([ZeroBlock()], [], [Idle], Off), Racing(ZeroBlock(), 1, Writer(0, 0, 0, [b], 0, false));
            && Takes(s0, Get(0, Store(0, 0, [b]), 0), s2.(flush := Off)) && Takes(s2.(flush := Off), FlushBegin, s2)
            && WriteOut(s2, 0) == s2
  {
    var s0 := State([ZeroBlock()], [], [Idle], Off);
    assert Do(s0, Get(0, Store(0, 0, [b]), 0)) == Racing(ZeroBlock(), 1, Writer(0, 0, 0, [b], 0, false)).(flush := Off);
  }

  lemma RaceWrites(b: Byte)
    ensures var zero, block := ZeroBlock(), ZeroBlock()[0 := b];
            var s3, s4 := Racing(zero, 1, Writer(0, 0, 0, [b], 0, false)), Racing(block, 1, Writer(0, 0, 0, [b], 1, false));
            var s5, s6 := Racing(block, 1, Writer(0, 0, 0, [b], 1, true)), Racing(block, 0, Idle);
            Takes(s3, Copy(0), s4) && Takes(s4, Mark(0), s5) && Takes(s5, Unpin(0), s6)
  {
    var zero, block := ZeroBlock(), ZeroBlock()[0 := b];
    assert Do(Racing(zero, 1, Writer(0, 0, 0, [b], 0, false)), Copy(0)) == Racing(block, 1, Writer(0, 0, 0, [b], 1, false));
    assert Do(Racing(block, 1, Writer(0, 0, 0, [b], 1, false)), Mark(0)) == Racing(block, 1, Writer(0, 0, 0, [b], 1, true));
    assert Do(Racing(block, 1, Writer(0, 0, 0, [b], 1, true)), Unpin(0)) == Racing(block, 0, Idle);
  }

  lemma RaceEnds(b: Byte)
    requires b != 0
    ensures var z := ClearDirty(Racing(ZeroBlock()[0 := b], 0, Idle), 0);
            && z.threads == [Idle] && |z.slots| == 1 && z.slots[0].pins == 0 && !z.slots[0].dirty && !Inv(z)
            && |z.disk| == 1 && Contents(z, 0)[0] == b && z.disk[0][0] == 0
  {
    hide Inv;
    var z := ClearDirty(Racing(ZeroBlock()[0 := b], 0, Idle), 0);
    assert Find(z.slots, 0) == 0;
    if Inv(z) {
      UnpinnedCleanIsDisk(z, 0);
    }
  }

  ghost predicate Takes(s: State, a: Action, s': State) { Enabled(s, a) && s' == Do(s, a) }

  /** An empty cache is in order. */
  lemma InvEmpty(s: State)
    requires s.slots == [] && |s.disk| <= MAX_SECTORS && forall t :: 0 <= t < |s.threads| ==> s.threads[t].Idle?
    ensures Inv(s)
  {}
}
