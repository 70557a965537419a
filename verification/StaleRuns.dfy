/** Two runs in which sectors that a removed file leaves in the cache come to harm a
    later file: what module StaleCache tells, on any device. */
module StaleRuns {
  import opened Basics
  import opened Device
  import opened InodeTree
  import opened Allocation
  import opened FlatFile
  import opened Inode
  import opened InodeIo
  import opened FileLife
  import opened Files
  import opened FileRuns
  import opened StaleCache
  import FreeMap
  import Cache
  import Bitmap

  function OneThenZeros(): Block { ZeroBlock()[0 := 1] }

  /** The cache has just the block of sector `x`, dirty, and it starts with a 1. */
  ghost predicate OnlyOne(cache: Cache.Cache, x: Sector)
    reads cache, cache.entries
  {
    cache.IsDirty(x) && cache.resident.Keys == {x} && x < |cache.disk| && cache.disk[x] == OneThenZeros()
  }

  lemma LeastOne(free: set<Sector>, x: Sector)
    requires IsLeast(free, x)
    ensures Least(free, 1) == {x} && Least(free, 0) == {} && Available({}, free, 1)
  {
    assert Below(free, x) == {};
    forall y | y in free && y != x
      ensures Rank(free, y) >= 1
    {
      assert x in Below(free, y);
    }
  }

  lemma LeastIsOne(free: set<Sector>, x: Sector, y: Sector)
    requires IsLeast(free, x) && IsLeast(free, y)
    ensures x == y
  {}

  lemma SmallTotals()
    ensures Total(0) == 0 && Total(1) == 1 && DataSectors(0) == 0 && DataSectors(1) == 1
  {}

  lemma SmallLengths()
    ensures ExpandedLength(1) == 1 && DataSectors(1) == 1 && Min(1, MAX_SECTORS) == 1
  {}

  lemma SmallWrite()
    ensures Min(DataSectors(1), MAX_SECTORS) == 1 && LengthAfter(0, 1) == 1 && Fitting(1, 0, 1) == 1
  {
    SmallLengths();
    hide DataSectors, ExpandedLength;
  }

  lemma DataOwned(f: Inode, cache: Cache.Cache, dev: BlockDevice, fm: FreeMap.FreeMap)
    requires FileOk(f, cache, dev, fm)
    ensures forall k :: 0 <= k < |f.tree.data| ==> f.tree.data[k] in Owned(f.tree) && f.tree.data[k] < |cache.disk|
    ensures |Bytes(f, cache)| == SECTOR_SIZE * |f.tree.data| && TailZero(Bytes(f, cache), f.length)
  {
    hide Ready;
    DataInRange(f.tree, |cache.disk|);
  }

  /** A first data sector is the least free one. */
  lemma FirstSector(free0: set<Sector>, t0: Tree, free1: set<Sector>, t: Tree, x: Sector)
    requires Took(free0, t0, free1, t) && Owned(t0) == {} && |t0.data| == 0 && |t.data| == 1 && IsLeast(free0, x)
    requires t.data[0] in Owned(t)
    ensures Owned(t) == {x} && t.data[0] == x && free1 == free0 - {x}
  {
    hide Rank, Total;
    LeastOne(free0, x);
    SmallTotals();
  }

  lemma OneByte(f: Inode, cache: Cache.Cache, dev: BlockDevice, fm: FreeMap.FreeMap, x: Sector)
    requires FileOk(f, cache, dev, fm) && f.tree.data == [x] && Content(f, cache, dev, fm) == [1]
    ensures x < |cache.disk| && cache.disk[x] == OneThenZeros()
  {
    hide Ready;
    DataInRange(f.tree, |cache.disk|);
    RawChunk(cache.disk, f.tree.data, 0, 0, SECTOR_SIZE);
    assert Bytes(f, cache)[0] == 1;
  }

  lemma DirtyOne(cache: Cache.Cache, t: Tree, x: Sector)
    requires t.data == [x] && LastUsed(cache, t, 0, 1, true) && cache.resident.Keys <= {x} && x < |cache.disk| && cache.disk[x] == OneThenZeros()
    ensures OnlyOne(cache, x)
  {}

  lemma WriteToNothing()
    ensures FlatFile.Write([], 0, [1]) == [1]
  {}

  lemma FirstGrowth(free: set<Sector>, x: Sector)
    requires IsLeast(free, x)
    ensures CanGrow({}, free, 0, 1)
  {
    hide Total, DataSectors, IsLeast, Available;
    SmallTotals();
    SmallWrite();
    LeastOne(free, x);
  }

  /** A first byte of 1 is written to an empty file. */
  method WriteFirst(f: Inode, ghost files: seq<Inode>, ghost i: nat, cache: Cache.Cache, dev: BlockDevice, fm: FreeMap.FreeMap,
                    ghost x: Sector)
    requires AllOk(files, cache, dev, fm) && i < |files| && f == files[i] && f.denyWriteCnt == 0
    requires f.length == 0 && Owned(f.tree) == {} && IsLeast(fm.free, x) && cache.resident == map[]
    modifies f`tree, f`directIndex, f`indirectIndex, f`doubleIndirectIndex, f`length,
             f`readLength, f.ptr, dev, fm`free, fm.bitmap.elems,
             cache`entries, cache`size, cache`resident, cache`disk, cache.entries
    ensures AllOk(files, cache, dev, fm) && Owned(f.tree) == {x} && fm.free == old(fm.free) - {x} && OnlyOne(cache, x)
    ensures fresh(set e | e in cache.entries && e !in old(cache.entries))
  {
    hide LastUsed, OnlyOne, AllOk, FileOk, Content, FlatFile.Write, IsLeast, Took, LengthAfter, Fitting, Total, DataSectors, Usable, Cache.Cache.IsDirty, OneThenZeros, CanGrow, Available, NowHolds;
    SmallTotals();
    SmallWrite();
    FirstGrowth(fm.free, x);
    FileAt(files, i, cache, dev, fm);
    FileLength(f, cache, dev, fm);
    ghost var t0, free0 := f.tree, fm.free;
    var n := WriteTo(f, files, i, cache, dev, fm, [1], 0);
    FileAt(files, i, cache, dev, fm);
    FileLength(f, cache, dev, fm);
    WriteToNothing();
    FirstWritten(f, cache, dev, fm, free0, t0, x);
  }

  /** What the write leaves. */
  lemma FirstWritten(f: Inode, cache: Cache.Cache, dev: BlockDevice, fm: FreeMap.FreeMap, free0: set<Sector>, t0: Tree, x: Sector)
    requires FileOk(f, cache, dev, fm) && |f.tree.data| == 1 && Content(f, cache, dev, fm) == [1]
    requires Took(free0, t0, fm.free, f.tree) && Owned(t0) == {} && |t0.data| == 0 && IsLeast(free0, x)
    requires LastUsed(cache, f.tree, 0, 1, true) && cache.resident.Keys <= Owned(f.tree)
    ensures Owned(f.tree) == {x} && fm.free == free0 - {x} && OnlyOne(cache, x)
  {
    hide LastUsed, OnlyOne, FileOk, Content, IsLeast, Took, OneThenZeros;
    DataOwned(f, cache, dev, fm);
    FirstSector(free0, t0, fm.free, f.tree, x);
    assert f.tree.data == [x];
    OneByte(f, cache, dev, fm, x);
    DirtyOne(cache, f.tree, x);
  }

  lemma OneAvailable(resident: set<Sector>, free: set<Sector>, h: Sector)
    requires IsLeast(free, h) && h !in resident
    ensures Available(resident, free, 1 + Total(DataSectors(Min(0, MAX_FILE_SIZE)))) && Min(0, MAX_FILE_SIZE) == 0
  {
    hide Rank, Total, DataSectors, IsLeast;
    SmallTotals();
    LeastOne(free, h);
  }

  lemma TookNone(free0: set<Sector>, free1: set<Sector>, t: Tree)
    requires Took(free0, EmptyTree, free1, t) && |t.data| == 0
    ensures Owned(t) == {} && free1 == free0
  {
    assert Least(free0, 0) == {};
  }

  /** A new, empty file. */
  method MakeEmpty(ghost files: seq<Inode>, cache: Cache.Cache, dev: BlockDevice, fm: FreeMap.FreeMap, ghost h: Sector) returns (f: Inode)
    requires AllOk(files, cache, dev, fm) && IsLeast(fm.free, h) && h !in cache.resident
    modifies dev, fm`free, fm.bitmap.elems, cache`disk
    ensures fresh(f) && fresh(f.ptr) && AllOk(files + [f], cache, dev, fm)
    ensures f.length == 0 && Owned(f.tree) == {} && f.sector == h && f.denyWriteCnt == 0 && fm.free == old(fm.free) - {h}
    ensures |cache.disk| == |old(cache.disk)| && forall s :: s in cache.resident && s < |cache.disk| ==> cache.disk[s] == old(cache.disk)[s]
  {
    hide AllOk, FileOk, Content, IsLeast, Took, Available, Total, DataSectors;
    OneAvailable(cache.resident.Keys, fm.free, h);
    SmallTotals();
    ghost var free0 := fm.free;
    f := MakeFile(files, cache, dev, fm, 0, false);
    FileLength(f, cache, dev, fm);
    LeastIsOne(free0, h, f.sector);
    TookNone(free0 - {h}, fm.free, f.tree);
  }

  // ---- A stale read ----

  lemma TwoFree(free: set<Sector>, h: Sector, x: Sector)
    requires h in free && x in free - {h}
    ensures |free| >= 2
  {
    var two := {h, x};
    assert two <= free && |free| == |two| + |free - two|;
  }

  lemma SystemParts(cache: Cache.Cache, dev: BlockDevice, fm: FreeMap.FreeMap)
    requires SystemOk(cache, dev, fm)
    ensures cache.size == |cache.entries| <= Cache.MAX_FILESYS_CACHE_SIZE && cache.Indexed() && cache.Shows(dev.sectors) && cache.CanGet()
    ensures fm.Valid() && fm.bitmap.bitCnt == |dev.sectors| == |cache.disk|
  {}

  lemma OnlyOneDirty(cache: Cache.Cache, x: Sector)
    requires OnlyOne(cache, x)
    ensures forall s :: s in cache.resident ==> s == x && cache.Placed(s) && cache.entries[cache.resident[s]].dirty
    ensures x in cache.resident && x < |cache.disk| && cache.disk[x] == OneThenZeros()
  {}

  lemma NewData(st: State)
    requires Sound(st) && |st.tree.data| == 1
    ensures st.tree.data[0] in Owned(st.tree) && st.tree.data[0] < |st.sectors| && !IsIndexBlock(st.tree, st.tree.data[0])
  {}

  /** A new file of one byte gets the sector `x`, past the cache. */
  method MakeOver(cache: Cache.Cache, dev: BlockDevice, fm: FreeMap.FreeMap, ghost h: Sector, ghost x: Sector) returns (g: Inode)
    requires SystemOk(cache, dev, fm) && IsLeast(fm.free, h) && IsLeast(fm.free - {h}, x) && OnlyOne(cache, x)
    modifies dev, fm`free, fm.bitmap.elems, cache`disk
    ensures fresh(g) && fresh(g.ptr) && Ready(g, cache, dev, fm) && g.tree.data == [x] && g.readLength == 1 && OnlyOne(cache, x)
  {
    hide SystemOk, OnlyOne, IsLeast, Took, Total, DataSectors, Sound, FreeMap.FreeMap.Valid, Cache.Cache.Shows, Cache.Cache.Indexed, Cache.Cache.CanGet, Cache.Cache.IsDirty, CursorOf, OneThenZeros;
    SystemParts(cache, dev, fm);
    OnlyOneDirty(cache, x);
    SmallTotals();
    FreeTwo(fm.free, h, x);
    ghost var free0, sectors := fm.free, dev.sectors;
    g := MakeInode(dev, fm, 1, false, cache.resident.Keys);
    LeastIsOne(free0, h, g.sector);
    NewData(g.Now(dev, fm));
    FirstSector(free0 - {h}, EmptyTree, fm.free, g.tree, x);
    assert g.tree.data == [x];
    cache.Resync(dev, sectors);
    StillOne(cache, x);
  }

  lemma FreeTwo(free: set<Sector>, h: Sector, x: Sector)
    requires IsLeast(free, h) && IsLeast(free - {h}, x)
    ensures |free| >= 2
  {
    TwoFree(free, h, x);
  }

  lemma StillOne(cache: Cache.Cache, x: Sector)
    requires cache.IsDirty(x) && cache.resident.Keys == {x} && x < |cache.disk| && cache.disk[x] == OneThenZeros()
    ensures OnlyOne(cache, x)
  {}

  /** The first byte of such a file. */
  method FirstByte(g: Inode, cache: Cache.Cache, dev: BlockDevice, fm: FreeMap.FreeMap, ghost x: Sector) returns (b: Byte)
    requires Ready(g, cache, dev, fm) && g.tree.data == [x] && g.readLength == 1 && x < |cache.disk| && cache.disk[x] == OneThenZeros()
    modifies cache`entries, cache`size, cache`resident, cache.entries, dev
    ensures b == 1
  {
    hide Ready, Sound, FreeMap.FreeMap.Valid, CursorOf, Spares, Separate, InRange;
    var buffer := new Byte[1];
    ReadRange(g, cache, dev, fm, 1);
    assert Bytes(g, cache)[0] == cache.disk[g.tree.data[0]][0] == 1;
    var n := ReadAt(g, cache, dev, fm, buffer, 1, 0);
    b := buffer[0];
  }

  /** Beside any files, another is made, written and removed: the second sector it leaves
      is still in the cache. */
  method WrittenAndGone(ghost files: seq<Inode>, cache: Cache.Cache, dev: BlockDevice, fm: FreeMap.FreeMap, ghost h: Sector, ghost x: Sector)
    requires AllOk(files, cache, dev, fm) && cache.resident == map[] && IsLeast(fm.free, h) && IsLeast(fm.free - {h}, x)
    modifies dev, fm`free, fm.bitmap.elems, cache`entries, cache`size, cache`resident, cache`disk, cache.entries
    ensures AllOk(files, cache, dev, fm) && fm.free == old(fm.free) && OnlyOne(cache, x)
    ensures fresh(set e | e in cache.entries && e !in old(cache.entries))
  {
    hide AllOk, OnlyOne, IsLeast, FreeMap.FreeMap.Valid;
    ghost var free0 := fm.free;
    BothFree(free0, h, x);
    var f := MakeEmpty(files, cache, dev, fm, h);
    WriteFirst(f, files + [f], |files|, cache, dev, fm, x);
    Remove(f, files + [f], |files|, cache, dev, fm);
    assert Without(files + [f], |files|) == files;
    assert fm.free == free0;
  }

  lemma BothFree(free: set<Sector>, h: Sector, x: Sector)
    ensures IsLeast(free, h) && IsLeast(free - {h}, x) ==> h in free && x in free
  {}

  /** A file is made, written and removed, and a new one of one byte is made: that byte,
      which was never written, reads as the old file's. */
  method StaleRead(contents: seq<Block>) returns (b: Byte)
    requires 4 <= |contents| < Bitmap.BITMAP_ERROR
    ensures b == 1
  {
    hide Ready, AllOk, FileOk, Content, SystemOk, OnlyOne, FreeMap.FreeMap.Valid, Describes;
    var dev, fm, cache;
    ghost var v;
    dev, fm, cache, v := Format(contents);
    FormatOk(v, cache, dev, fm);
    WrittenAndGone([], cache, dev, fm, 2, 3);
    AllSystem([], cache, dev, fm);
    var g := MakeOver(cache, dev, fm, 2, 3);
    OnlyOneThere(cache, 3);
    b := FirstByte(g, cache, dev, fm, 3);
  }

  lemma FormatOk(v: Volume, cache: Cache.Cache, dev: BlockDevice, fm: FreeMap.FreeMap)
    requires Describes(v, [], cache, dev, fm)
    ensures AllOk([], cache, dev, fm) && fm.free == v.free
  {}

  lemma AllSystem(files: seq<Inode>, cache: Cache.Cache, dev: BlockDevice, fm: FreeMap.FreeMap)
    requires AllOk(files, cache, dev, fm)
    ensures SystemOk(cache, dev, fm)
  {}

  lemma OnlyOneThere(cache: Cache.Cache, x: Sector)
    requires OnlyOne(cache, x)
    ensures x < |cache.disk| && cache.disk[x] == OneThenZeros() && cache.resident.Keys == {x}
  {}

  // ---- A stale index block ----

  lemma FourAndFive()
    ensures DataSectors(2048) == 4 && ExpandedLength(2048) == 2048 && DataSectors(2049) == 5 && ExpandedLength(2049) == 2049
    ensures Min(2048, MAX_FILE_SIZE) == 2048 && Min(5, MAX_SECTORS) == 5 && Total(5) == 6 && Total(4) == 4
  {}

  /** The least free sector becomes the first index block of a file of four sectors that
      grows by one. */
  lemma IndexTaken(a: State, b: State, x: Sector)
    requires Sound(a) && Sound(b) && Grown(a, b) && |a.tree.data| == 4 && |b.tree.data| == 5 && IsLeast(a.free, x)
    ensures |b.tree.index| == 1 && b.tree.index[0] == x
  {
    hide Grown, Order;
    assert Below(a.free, x) == {};
    TakenIs(a, b, x);
    assert Listed(b.tree, x, b.tree.roles[x]);
  }

  lemma FirstPointer()
    ensures Ptrs(OneThenZeros())[0] == FreeMap.ROOT_DIR_SECTOR
  {}

  lemma {:induction false} LeastSize(free: set<Sector>, n: nat)
    ensures |Least(free, n)| <= n
    decreases n
  {
    hide Rank;
    if n == 0 {
      assert Least(free, n) == {};
    } else {
      LeastSize(free, n - 1);
      var all, most := Least(free, n), Least(free, n - 1);
      assert most <= all;
      if all != most {
        var y :| y in all && y !in most;
        forall z | z in all && z !in most
          ensures z == y
        {
          RankSame(free, y, z);
        }
        assert all == most + {y};
      }
    }
  }

  lemma LeastPart(free: set<Sector>, n: int)
    ensures Least(free, n) <= free
  {}

  lemma Less(all: set<Sector>, some: set<Sector>)
    requires some <= all
    ensures |all| == |some| + |all - some|
  {
    assert all == some + (all - some);
  }

  lemma EightFree(free: set<Sector>)
    requires forall s: Sector :: 2 <= s < 10 ==> s in free
    ensures |free| >= 8
  {
    var eight: set<Sector> := {2, 3, 4, 5, 6, 7, 8, 9};
    assert eight <= free && |free| == |eight| + |free - eight|;
  }

  lemma AllButOne(all: set<Sector>, x: Sector)
    ensures |all - {x}| >= |all| - 1
  {
    if x in all {
      Less(all, {x});
    } else {
      assert all - {x} == all;
    }
  }

  lemma TookFour(rest: set<Sector>, free1: set<Sector>, t: Tree)
    requires Took(rest, EmptyTree, free1, t) && |t.data| == 4
    ensures Owned(t) == Least(rest, 4) && free1 == rest - Least(rest, 4)
  {
    hide Least;
    assert Total(4) - Total(|EmptyTree.data|) == 4;
    assert Owned(EmptyTree) == {};
  }

  /** A file of four sectors leaves at least three of eight. */
  lemma ThreeLeft(free0: set<Sector>, home: Sector, free1: set<Sector>, t: Tree)
    requires |free0| >= 8 && Took(free0 - {home}, EmptyTree, free1, t) && |t.data| == 4
    ensures |free1| >= 3 && Owned(t) <= free0 && free1 <= free0
  {
    hide Took, Total, Least;
    var rest := free0 - {home};
    TookFour(rest, free1, t);
    AllButOne(free0, home);
    LeastSize(rest, 4);
    LeastPart(rest, 4);
    Less(rest, Least(rest, 4));
  }

  /** A new file of four sectors. */
  method MakeFour(cache: Cache.Cache, dev: BlockDevice, fm: FreeMap.FreeMap) returns (g: Inode)
    requires AllOk([], cache, dev, fm) && |fm.free| >= 8 && cache.resident == map[]
    modifies dev, fm`free, fm.bitmap.elems, cache`disk
    ensures fresh(g) && fresh(g.ptr) && AllOk([g], cache, dev, fm) && g.length == 2048 && |g.tree.data| == 4
    ensures |fm.free| >= 3 && Owned(g.tree) <= old(fm.free) && fm.free <= old(fm.free)
  {
    hide AllOk, FileOk, Content, Took, Total, DataSectors, IsLeast;
    FourAndFive();
    ghost var free0 := fm.free;
    g := MakeFile([], cache, dev, fm, 2048, false);
    assert [] + [g] == [g];
    FileLength(g, cache, dev, fm);
    ThreeLeft(free0, g.sector, fm.free, g.tree);
  }

  /** Then a third is made, and the first grows by one sector: with that sector for its
      index block. */
  method GrowOnto(g: Inode, cache: Cache.Cache, dev: BlockDevice, fm: FreeMap.FreeMap, ghost h: Sector, ghost x: Sector)
    requires AllOk([g], cache, dev, fm) && IsLeast(fm.free, h) && IsLeast(fm.free - {h}, x) && OnlyOne(cache, x)
    requires g.length == 2048 && |g.tree.data| == 4 && |fm.free| >= 3
    modifies g`tree, g`directIndex, g`indirectIndex, g`doubleIndirectIndex, g`length, g.ptr, dev, fm`free, fm.bitmap.elems, cache`disk
    ensures g.Valid(dev, fm) && g.length == 2049 && |g.tree.data| == 5 && |g.tree.index| == 1 && g.tree.index[0] == x
    ensures cache.Holds() && |cache.disk| == |dev.sectors| && OnlyOne(cache, x)
    ensures Owned(g.tree) <= old(Owned(g.tree)) + old(fm.free)
  {
    hide AllOk, OnlyOne, IsLeast, FreeMap.FreeMap.Valid, Sound, Grown, Cache.Cache.Valid, Cache.Cache.Holds, CursorOf, DataSectors, Total, ExpandedLength, ServedNow, Clear, Marked, HitsIndex, Threatened, Cache.Cache.DirtySectors, Cache.Cache.IsDirty, OneThenZeros;
    OnlyOneDirty(cache, x);
    OnlyOneParts(cache, x);
    LeastOther(fm.free, h, x);
    AllButOne(fm.free, h);
    var e := MakeEmpty([g], cache, dev, fm, h);
    StillOne(cache, x);
    FourAndFive();
    GrowReady(g, e, cache, dev, fm);
    ghost var a := g.Now(dev, fm);
    ExpandOver(g, cache, dev, fm, 2049);
    IndexTaken(a, g.Now(dev, fm), x);
    GrowthConserves(a, g.Now(dev, fm));
  }

  lemma OnlyOneParts(cache: Cache.Cache, x: Sector)
    requires OnlyOne(cache, x)
    ensures cache.IsDirty(x) && cache.resident.Keys == {x}
  {}

  lemma LeastOther(free: set<Sector>, h: Sector, x: Sector)
    requires IsLeast(free, h) && IsLeast(free - {h}, x)
    ensures h != x
  {}

  lemma GrowReady(g: Inode, e: Inode, cache: Cache.Cache, dev: BlockDevice, fm: FreeMap.FreeMap)
    requires AllOk([g] + [e], cache, dev, fm)
    ensures g.Valid(dev, fm) && cache.Valid(dev) && cache.Holds() && |g.tree.data| == DataSectors(g.length)
  {
    assert ([g] + [e])[0] == g;
    FileAt([g] + [e], 0, cache, dev, fm);
  }

  /** A flush writes the old block over the index block. */
  method FlushAndFind(g: Inode, cache: Cache.Cache, dev: BlockDevice, fm: FreeMap.FreeMap, ghost x: Sector) returns (s: Sector)
    requires g.Valid(dev, fm) && cache.Holds() && |cache.disk| == |dev.sectors| && OnlyOne(cache, x)
    requires |g.tree.data| == 5 && g.length == 2049 && |g.tree.index| == 1 && g.tree.index[0] == x
    modifies cache`entries, cache`resident, cache.entries`dirty, dev
    ensures s == FreeMap.ROOT_DIR_SECTOR
  {
    hide Sound, FreeMap.FreeMap.Valid, CursorOf, HitsIndex, OneThenZeros, Cache.Cache.DirtySectors, Cache.Cache.Holds, Lookup, CanLookup, Ptrs, Agrees, OnlyOne;
    ghost var b := g.Now(dev, fm);
    InDirty(cache, x);
    OnlyOneThere(cache, x);
    FlushOver(g, cache, dev, fm);
    LookupThrough(b, dev.sectors, 2048);
    FirstPointer();
    s := g.ByteToSector(dev, g.length, 2048);
  }

  lemma InDirty(cache: Cache.Cache, x: Sector)
    requires OnlyOne(cache, x)
    ensures x in cache.DirtySectors()
  {}

  /** A file of four sectors on a device of any contents. */
  method FourOn(contents: seq<Block>) returns (g: Inode, cache: Cache.Cache, dev: BlockDevice, fm: FreeMap.FreeMap)
    requires 10 <= |contents| < Bitmap.BITMAP_ERROR
    ensures fresh(dev) && fresh(fm) && fresh(fm.bitmap.elems) && fresh(cache) && fresh(g) && fresh(g.ptr)
    ensures AllOk([g], cache, dev, fm) && g.length == 2048 && |g.tree.data| == 4 && cache.entries == [] && cache.resident == map[]
    ensures |fm.free| >= 3 && forall s :: s in Owned(g.tree) + fm.free ==> 2 <= s
  {
    hide AllOk, FreeMap.FreeMap.Valid, Describes;
    ghost var v;
    dev, fm, cache, v := Format(contents);
    FormatOk(v, cache, dev, fm);
    EightFree(fm.free);
    g := MakeFour(cache, dev, fm);
  }

  /** A file of four sectors is in use.  Another is made, written and removed, a third is
      made, the first grows by a sector, and the cache is flushed: the first one's fifth
      sector is then looked for in the root directory's. */
  method StaleIndex(contents: seq<Block>) returns (s: Sector, g: Inode)
    requires 10 <= |contents| < Bitmap.BITMAP_ERROR
    ensures |g.tree.data| == 5 && g.length == 2049 && s == FreeMap.ROOT_DIR_SECTOR && s !in Owned(g.tree)
  {
    hide AllOk, OnlyOne, IsLeast, FreeMap.FreeMap.Valid, CursorOf, Sound, Cache.Cache.Holds;
    var dev, fm, cache;
    g, cache, dev, fm := FourOn(contents);
    ghost var h, x := TwoLeast(fm.free);
    WrittenAndGone([g], cache, dev, fm, h, x);
    GrowOnto(g, cache, dev, fm, h, x);
    s := FlushAndFind(g, cache, dev, fm, x);
  }

  lemma TwoLeast(free: set<Sector>) returns (h: Sector, x: Sector)
    requires |free| >= 2
    ensures IsLeast(free, h) && IsLeast(free - {h}, x)
  {
    HasLeast(free);
    h :| IsLeast(free, h);
    AllButOne(free, h);
    HasLeast(free - {h});
    x :| IsLeast(free - {h}, x);
  }
}
