/** Any number of files on one device behind one cache: each is a flat sequence of
    bytes, and creating, reading, writing or removing one of them leaves all the others
    in order and as they are (`project4/src/filesys/inode.c`). */
module Files {
  import opened Basics
  import opened Device
  import opened InodeTree
  import opened Allocation
  import opened FlatFile
  import opened Inode
  import opened InodeIo
  import opened FileLife
  import FreeMap
  import Cache

  /** The inode's own sector is in use, is none of the file's, and is not in the cache
      (inodes are read and written past it). */
  ghost predicate Home(sector: Sector, size: nat, free: set<Sector>, resident: set<Sector>, t: Tree) {
    sector < size && sector !in free && sector !in resident && sector !in Owned(t)
  }

  /** A file that can be read and written: its tree is sound, neither its index blocks
      nor its inode are in the cache, and it has the sectors its length asks for. */
  ghost predicate Usable(f: Inode, cache: Cache.Cache, dev: BlockDevice, fm: FreeMap.FreeMap)
    reads f, f.ptr, cache, cache.entries, dev, fm, fm.bitmap, fm.bitmap.elems
  {
    && Ready(f, cache, dev, fm) && |f.tree.data| == DataSectors(f.length) && f.readLength == f.length <= MAX_FILE_SIZE
    && InRange(f.tree, |cache.disk|) && Separate(f.tree)
    && Home(f.sector, |dev.sectors|, fm.free, cache.resident.Keys, f.tree)
  }

  /** A file in order: besides, the rest of its last sector is zero. */
  ghost predicate FileOk(f: Inode, cache: Cache.Cache, dev: BlockDevice, fm: FreeMap.FreeMap)
    reads f, f.ptr, cache, cache.entries, dev, fm, fm.bitmap, fm.bitmap.elems
  {
    Usable(f, cache, dev, fm) && TailZero(Bytes(f, cache), f.length)
  }

  /** What the file holds. */
  ghost function Content(f: Inode, cache: Cache.Cache, dev: BlockDevice, fm: FreeMap.FreeMap): seq<Byte>
    requires FileOk(f, cache, dev, fm)
    reads f, f.ptr, cache, cache.entries, dev, fm, fm.bitmap, fm.bitmap.elems
  {
    Bytes(f, cache)[..f.length]
  }

  /** The file's sectors and its inode's. */
  ghost function Sectors(f: Inode): set<Sector>
    reads f`tree, f`sector
  {
    Owned(f.tree) + {f.sector}
  }

  /** Two files that share no sector. */
  ghost predicate Strangers(f: Inode, g: Inode)
    reads f`tree, g`tree, f`sector, g`sector
  {
    f != g && f.ptr != g.ptr && Sectors(f) !! Sectors(g)
  }

  /** The cache and the free map are in order. */
  ghost predicate SystemOk(cache: Cache.Cache, dev: BlockDevice, fm: FreeMap.FreeMap)
    reads cache, cache.entries, dev, fm, fm.bitmap, fm.bitmap.elems
  {
    cache.Valid(dev) && cache.CanGet() && fm.Valid() && fm.bitmap.bitCnt == |dev.sectors|
  }

  ghost predicate AllOk(files: seq<Inode>, cache: Cache.Cache, dev: BlockDevice, fm: FreeMap.FreeMap)
    reads files, set f | f in files :: f.ptr, cache, cache.entries, dev, fm, fm.bitmap, fm.bitmap.elems
  {
    && SystemOk(cache, dev, fm)
    && (forall i :: 0 <= i < |files| ==> FileOk(files[i], cache, dev, fm))
    && (forall i, j :: 0 <= i < |files| && 0 <= j < |files| && i != j ==> Strangers(files[i], files[j]))
  }

  /** Requests for sectors that are none of a file's leave its tree sound and its
      index blocks out of the cache. */
  lemma StrangerKept(a: State, sectors: seq<Block>, free: set<Sector>, r0: set<Sector>, r1: set<Sector>, mine: set<Sector>)
    requires Sound(a) && Coherent(r0, a.tree) && Spares(a.sectors, sectors, r0, r1, mine) && mine !! Owned(a.tree)
    requires free <= a.free + mine
    ensures Sound(State(sectors, free, a.ptr, a.tree)) && Coherent(r1, a.tree)
  {
    forall s | IsIndexBlock(a.tree, s)
      ensures sectors[s] == a.sectors[s]
    {
      assert s in Owned(a.tree);
    }
    MapsFrame(a.sectors, sectors, a.ptr, a.tree);
  }

  /** What there is to keep of a file, apart from the objects it is in. */
  ghost predicate Good(a: State, disk: seq<Block>, resident: set<Sector>, length: nat, home: Sector) {
    && Sound(a) && Coherent(resident, a.tree) && |a.tree.data| == DataSectors(length) && length <= MAX_FILE_SIZE
    && InRange(a.tree, |disk|) && Separate(a.tree) && (forall k :: 0 <= k < |a.tree.data| ==> a.tree.data[k] < |disk|)
    && TailZero(Raw(disk, a.tree.data), length) && Home(home, |a.sectors|, a.free, resident, a.tree)
  }

  ghost function Held(a: State, disk: seq<Block>, resident: set<Sector>, length: nat, home: Sector): seq<Byte>
    requires Good(a, disk, resident, length, home)
  {
    Raw(disk, a.tree.data)[..length]
  }

  lemma FileParts(f: Inode, cache: Cache.Cache, dev: BlockDevice, fm: FreeMap.FreeMap)
    requires FileOk(f, cache, dev, fm)
    ensures f.Wired(dev, fm) && f.CursorIs(|f.tree.data|)
    ensures Good(f.Now(dev, fm), cache.disk, cache.resident.Keys, f.length, f.sector)
    ensures Ready(f, cache, dev, fm) && |f.tree.data| == DataSectors(f.length) && f.readLength == f.length
    ensures InRange(f.tree, |cache.disk|) && Separate(f.tree) && f.length <= |Bytes(f, cache)|
    ensures Content(f, cache, dev, fm) == Held(f.Now(dev, fm), cache.disk, cache.resident.Keys, f.length, f.sector)
            == Bytes(f, cache)[..f.length]
  {
    hide Sound, CursorOf, TailZero, Raw;
    DataInRange(f.tree, |cache.disk|);
  }

  lemma FileWhole(f: Inode, cache: Cache.Cache, dev: BlockDevice, fm: FreeMap.FreeMap)
    requires f.Wired(dev, fm) && f.CursorIs(|f.tree.data|)
    requires Good(f.Now(dev, fm), cache.disk, cache.resident.Keys, f.length, f.sector)
    requires cache.Valid(dev) && cache.CanGet() && f.readLength == f.length
    ensures FileOk(f, cache, dev, fm)
  {
    hide Sound, CursorOf, TailZero, Raw;
  }

  /** A file that requests were not for keeps all that, and what it holds. */
  lemma StrangerGood(a: State, disk: seq<Block>, r0: set<Sector>, length: nat, home: Sector,
                     sectors: seq<Block>, free: set<Sector>, disk1: seq<Block>, r1: set<Sector>, mine: set<Sector>)
    requires Good(a, disk, r0, length, home) && Spares(a.sectors, sectors, r0, r1, mine) && mine !! Owned(a.tree) + {home}
    requires free <= a.free + mine && ChangedWithin(disk, disk1, mine)
    ensures Good(State(sectors, free, a.ptr, a.tree), disk1, r1, length, home)
    ensures Held(State(sectors, free, a.ptr, a.tree), disk1, r1, length, home) == Held(a, disk, r0, length, home)
  {
    hide Sound, Coherent, Raw, TailZero, DataSectors;
    StrangerKept(a, sectors, free, r0, r1, mine);
    OtherFileReads(disk, disk1, mine, a.tree);
  }

  ghost function States(files: seq<Inode>, dev: BlockDevice, fm: FreeMap.FreeMap): (s: seq<State>)
    reads files, set f | f in files :: f.ptr, dev, fm
    ensures |s| == |files| && forall j :: 0 <= j < |files| ==> s[j] == files[j].Now(dev, fm)
  {
    seq(|files|, j requires 0 <= j < |files| reads files, set f | f in files :: f.ptr, dev, fm => files[j].Now(dev, fm))
  }

  /** All files at the start of a request, as values. */
  lemma AllGood(files: seq<Inode>, cache: Cache.Cache, dev: BlockDevice, fm: FreeMap.FreeMap)
    requires AllOk(files, cache, dev, fm)
    ensures forall j :: 0 <= j < |files| ==>
              && files[j].Wired(dev, fm) && files[j].CursorIs(|files[j].tree.data|) && files[j].readLength == files[j].length
              && Good(States(files, dev, fm)[j], cache.disk, cache.resident.Keys, files[j].length, files[j].sector)
              && Content(files[j], cache, dev, fm)
                 == Held(States(files, dev, fm)[j], cache.disk, cache.resident.Keys, files[j].length, files[j].sector)
  {
    hide FileOk, Good, Held, Content, SystemOk;
    forall j | 0 <= j < |files|
      ensures files[j].Wired(dev, fm) && files[j].CursorIs(|files[j].tree.data|) && files[j].readLength == files[j].length
      ensures Good(States(files, dev, fm)[j], cache.disk, cache.resident.Keys, files[j].length, files[j].sector)
      ensures Content(files[j], cache, dev, fm)
              == Held(States(files, dev, fm)[j], cache.disk, cache.resident.Keys, files[j].length, files[j].sector)
    {
      FileParts(files[j], cache, dev, fm);
    }
  }

  /** A file that a request was not for, at its end. */
  lemma StrangerOk(f: Inode, cache: Cache.Cache, dev: BlockDevice, fm: FreeMap.FreeMap,
                   a: State, disk: seq<Block>, r0: set<Sector>, mine: set<Sector>)
    requires f.Wired(dev, fm) && f.CursorIs(|f.tree.data|) && f.readLength == f.length && f.tree == a.tree && f.ptr[..] == a.ptr
    requires Good(a, disk, r0, f.length, f.sector) && Spares(a.sectors, dev.sectors, r0, cache.resident.Keys, mine) && mine !! Sectors(f)
    requires fm.free <= a.free + mine && ChangedWithin(disk, cache.disk, mine)
    requires cache.Valid(dev) && cache.CanGet()
    ensures FileOk(f, cache, dev, fm)
    ensures Content(f, cache, dev, fm) == Held(a, disk, r0, f.length, f.sector)
  {
    StrangerGood(a, disk, r0, f.length, f.sector, dev.sectors, fm.free, cache.disk, cache.resident.Keys, mine);
    hide Good, Held, Content, Cache.Cache.Valid, Cache.Cache.CanGet, Spares, ChangedWithin;
    FileWhole(f, cache, dev, fm);
    FileParts(f, cache, dev, fm);
  }

  lemma ReadyParts(f: Inode, cache: Cache.Cache, dev: BlockDevice, fm: FreeMap.FreeMap)
    requires Ready(f, cache, dev, fm)
    ensures f.Wired(dev, fm) && f.CursorIs(|f.tree.data|) && Sound(f.Now(dev, fm)) && cache.Valid(dev) && cache.CanGet()
    ensures Coherent(cache.resident.Keys, f.tree) && SystemOk(cache, dev, fm)
  {
    hide Sound, CursorOf;
  }

  // ---- Reading ----

  /** `inode_read_at` on one of the files: it gives that file's bytes, and every file
      stays in order and holds what it held. */
  method ReadFrom(f: Inode, ghost files: seq<Inode>, ghost i: nat, cache: Cache.Cache, dev: BlockDevice, fm: FreeMap.FreeMap,
                  buffer: array<Byte>, size: nat, offset: nat) returns (bytesRead: nat)
    requires AllOk(files, cache, dev, fm) && i < |files| && f == files[i] && size <= buffer.Length
    modifies buffer, cache`entries, cache`size, cache`resident, cache.entries, dev
    ensures AllOk(files, cache, dev, fm)
    ensures forall j :: 0 <= j < |files| ==> Content(files[j], cache, dev, fm) == old(Content(files[j], cache, dev, fm))
    ensures bytesRead == |Read(Content(f, cache, dev, fm), offset, size)| <= buffer.Length
    ensures buffer[..] == Splice(old(buffer[..]), 0, Read(Content(f, cache, dev, fm), offset, size))
    ensures LastUsed(cache, f.tree, offset, bytesRead, false)
    ensures fresh(set e | e in cache.entries && e !in old(cache.entries))
    ensures cache.resident.Keys <= old(cache.resident.Keys) + Owned(f.tree)
  {
    hide LastUsed, FileOk, Good, Held, Content, Ready, Sound, Spares, ChangedWithin, SystemOk, Cache.Cache.Valid, Cache.Cache.CanGet, FreeMap.FreeMap.Valid, CursorOf, Raw, TailZero, InRange, Separate, Splice, Read, DataSectors, Owned, Home;
    ghost var was, disk, r0, mine := States(files, dev, fm), cache.disk, cache.resident.Keys, Owned(f.tree);
    AllGood(files, cache, dev, fm);
    FileParts(f, cache, dev, fm);
    bytesRead := ReadAt(f, cache, dev, fm, buffer, size, offset);
    ReadyParts(f, cache, dev, fm);
    NothingChanged(disk, mine);
    SparesResident(was[i].sectors, dev.sectors, r0, cache.resident.Keys, mine);
    forall j | 0 <= j < |files|
      ensures FileOk(files[j], cache, dev, fm) && Content(files[j], cache, dev, fm) == old(Content(files[j], cache, dev, fm))
    {
      if j == i {
        SelfAfterRead(f, cache, dev, fm, was[i], r0);
      } else {
        assert Strangers(f, files[j]);
        StrangerOk(files[j], cache, dev, fm, was[j], disk, r0, mine);
      }
    }
  }

  lemma NothingChanged(d: seq<Block>, changed: set<Sector>)
    ensures ChangedWithin(d, d, changed)
  {}

  /** The file that was read, at the end. */
  lemma SelfAfterRead(f: Inode, cache: Cache.Cache, dev: BlockDevice, fm: FreeMap.FreeMap, a: State, r0: set<Sector>)
    requires Ready(f, cache, dev, fm) && f.tree == a.tree && f.readLength == f.length
    requires Good(a, cache.disk, r0, f.length, f.sector) && fm.free == a.free && |dev.sectors| == |a.sectors|
    requires cache.resident.Keys <= r0 + Owned(f.tree)
    ensures Usable(f, cache, dev, fm) && FileOk(f, cache, dev, fm)
    ensures Content(f, cache, dev, fm) == Held(a, cache.disk, r0, f.length, f.sector)
    ensures InRange(f.tree, |cache.disk|) && Separate(f.tree) && f.length <= |Bytes(f, cache)|
    ensures Content(f, cache, dev, fm) == Bytes(f, cache)[..f.length]
  {
    hide Sound, CursorOf, Raw, TailZero, Cache.Cache.Valid, Cache.Cache.CanGet, FreeMap.FreeMap.Valid;
    ReadyParts(f, cache, dev, fm);
    FileWhole(f, cache, dev, fm);
    FileParts(f, cache, dev, fm);
  }

  // ---- Writing ----

  /** What a write may change is none of another file's. */
  lemma MineApart(a: State, disk: seq<Block>, r0: set<Sector>, length: nat, home: Sector, f: Tree)
    requires Good(a, disk, r0, length, home) && Owned(f) !! Owned(a.tree) + {home}
    ensures a.free + Owned(f) !! Owned(a.tree) + {home}
  {
    hide Maps;
  }

  /** The file that was written, at the end. */
  lemma SelfAfterWrite(f: Inode, cache: Cache.Cache, dev: BlockDevice, fm: FreeMap.FreeMap,
                       a: State, disk: seq<Block>, r0: set<Sector>, length: nat, offset: nat, b: seq<Byte>, written: nat)
    requires Good(a, disk, r0, length, f.sector) && Ready(f, cache, dev, fm) && InRange(f.tree, |cache.disk|) && Separate(f.tree)
    requires f.readLength == f.length == LengthAfter(length, offset + |b|)
    requires |f.tree.data| == DataSectors(f.length) && |a.tree.data| <= |f.tree.data| && written == Fitting(|b|, offset, f.length)
    requires Laid(Raw(disk, a.tree.data) + Zeros(SECTOR_SIZE * (|f.tree.data| - |a.tree.data|)), offset, b, written, Bytes(f, cache))
    requires fm.free + Owned(f.tree) == a.free + Owned(a.tree) && cache.resident.Keys <= r0 + Owned(f.tree) && |dev.sectors| == |a.sectors|
    ensures Usable(f, cache, dev, fm) && (length <= f.length ==> FileOk(f, cache, dev, fm))
    ensures NowHolds(Held(a, disk, r0, length, f.sector), offset, b, f.length, Bytes(f, cache), written)
  {
    hide Good, Held, Home, Ready, Raw, Laid, LengthAfter, TailZero, Fitting, InRange, Separate, Owned, DataSectors, NowHolds;
    HomeAfter(a, disk, r0, length, f.sector, |dev.sectors|, fm.free, cache.resident.Keys, f.tree);
    GoodIs(a, disk, r0, length, f.sector);
    DataInRange(f.tree, |cache.disk|);
    LaidFlat(Raw(disk, a.tree.data), length, offset, b, Raw(cache.disk, f.tree.data));
  }

  /** A file's bytes, of which the first `length` are the file, after `b` was written to
      it at `offset`: the flat write of what it held, as far as they go. */
  ghost predicate NowHolds(was: seq<Byte>, offset: nat, b: seq<Byte>, length: nat, bytes: seq<Byte>, written: nat) {
    var flat := FlatFile.Write(was, offset, b);
    && length <= |flat| && length <= |bytes| && bytes[..length] == flat[..length]
    && (offset + |b| <= MAX_FILE_SIZE ==> length == |flat| && written == |b| && |was| <= length)
  }

  lemma GoodIs(a: State, disk: seq<Block>, r0: set<Sector>, length: nat, home: Sector)
    requires Good(a, disk, r0, length, home)
    ensures |a.tree.data| == DataSectors(length) && length <= MAX_FILE_SIZE && forall k :: 0 <= k < |a.tree.data| ==> a.tree.data[k] < |disk|
    ensures TailZero(Raw(disk, a.tree.data), length) && length <= |Raw(disk, a.tree.data)|
    ensures Held(a, disk, r0, length, home) == Raw(disk, a.tree.data)[..length]
  {
    hide Sound, Raw;
  }

  /** `WriteIsFlat`, and what there is to say of lengths. */
  lemma LaidFlat(raw: seq<Byte>, length: nat, offset: nat, b: seq<Byte>, bytes: seq<Byte>)
    requires TailZero(raw, length) && |raw| == SECTOR_SIZE * DataSectors(length) && length <= MAX_FILE_SIZE
    requires var length' := LengthAfter(length, offset + |b|);
             && DataSectors(length) <= DataSectors(length')
             && Laid(raw + Zeros(SECTOR_SIZE * (DataSectors(length') - DataSectors(length))), offset, b, Fitting(|b|, offset, length'), bytes)
    ensures length <= |raw|
    ensures var length' := LengthAfter(length, offset + |b|);
            && length' <= MAX_FILE_SIZE && NowHolds(raw[..length], offset, b, length', bytes, Fitting(|b|, offset, length'))
            && (length <= length' ==> TailZero(bytes, length'))
  {
    hide Laid, FlatFile.Write, DataSectors, LengthAfter;
    LengthFits(length, offset + |b|);
    WriteEffect(raw[..length], offset, b);
    WriteIsFlat(raw, length, offset, b, bytes);
  }

  lemma HomeAfter(a: State, disk: seq<Block>, r0: set<Sector>, length: nat, home: Sector, size: nat, free: set<Sector>, r1: set<Sector>, t: Tree)
    requires Good(a, disk, r0, length, home) && size == |a.sectors|
    requires free + Owned(t) == a.free + Owned(a.tree) && r1 <= r0 + Owned(t)
    ensures Home(home, size, free, r1, t)
  {
    assert home !in free + Owned(t);
  }

  /** `inode_write_at` on one of the files: it then holds the flat write, as far as its
      new length goes, unless it is closed to writing; every other file stays in order
      and holds what it held.  Within the size limit that is the whole write, and in any
      case all files stay in order if the file has not become shorter. */
  method WriteTo(f: Inode, ghost files: seq<Inode>, ghost i: nat, cache: Cache.Cache, dev: BlockDevice, fm: FreeMap.FreeMap,
                 buffer: seq<Byte>, offset: nat) returns (bytesWritten: nat)
    requires AllOk(files, cache, dev, fm) && i < |files| && f == files[i] && offset + |buffer| + SECTOR_SIZE - 1 <= OFF_MAX
    requires f.denyWriteCnt == 0 && f.length < offset + |buffer| ==>
               CanGrow(cache.resident.Keys, fm.free, |f.tree.data|, offset + |buffer|)
    modifies f`tree, f`directIndex, f`indirectIndex, f`doubleIndirectIndex, f`length,
             f`readLength, f.ptr, dev, fm`free, fm.bitmap.elems,
             cache`entries, cache`size, cache`resident, cache`disk, cache.entries
    ensures Usable(f, cache, dev, fm)
    ensures f.denyWriteCnt != 0 ==>
              && AllOk(files, cache, dev, fm) && Content(f, cache, dev, fm) == old(Content(f, cache, dev, fm))
              && bytesWritten == 0 && f.tree == old(f.tree)
    ensures f.denyWriteCnt == 0 ==>
              var flat := FlatFile.Write(old(Content(f, cache, dev, fm)), offset, buffer);
              && f.length == LengthAfter(old(f.length), offset + |buffer|) <= |flat|
              && Bytes(f, cache)[..f.length] == flat[..f.length] && bytesWritten == Fitting(|buffer|, offset, f.length)
              && (old(f.length) <= f.length ==> AllOk(files, cache, dev, fm))
              && (offset + |buffer| <= MAX_FILE_SIZE ==> f.length == |flat| && bytesWritten == |buffer| && AllOk(files, cache, dev, fm))
    ensures forall j :: 0 <= j < |files| && j != i ==>
              && FileOk(files[j], cache, dev, fm) && Strangers(f, files[j])
              && Content(files[j], cache, dev, fm) == old(Content(files[j], cache, dev, fm))
    ensures LastUsed(cache, f.tree, offset, bytesWritten, true)
    ensures fresh(set e | e in cache.entries && e !in old(cache.entries))
    ensures Took(old(fm.free), old(f.tree), fm.free, f.tree)
    ensures cache.resident.Keys <= old(cache.resident.Keys) + Owned(f.tree)
  {
    hide LastUsed, Took, CanGrow, Home, Usable, FileOk, Good, Held, Content, Ready, Sound, Spares, ChangedWithin, SystemOk, Cache.Cache.Valid, Cache.Cache.CanGet, FreeMap.FreeMap.Valid, CursorOf, Raw, TailZero, InRange, Separate, Splice, FlatFile.Write, DataSectors, Total, Laid, Fitting, LengthAfter, Owned;
    ghost var was, disk, r0, mine := States(files, dev, fm), cache.disk, cache.resident.Keys, fm.free + Owned(f.tree);
    ghost var length := f.length;
    AllGood(files, cache, dev, fm);
    FileParts(f, cache, dev, fm);
    bytesWritten := WriteAt(f, cache, dev, fm, buffer, offset);
    ReadyParts(f, cache, dev, fm);
    SparesSize(was[i].sectors, dev.sectors, r0, cache.resident.Keys, mine);
    if f.denyWriteCnt != 0 {
      TookNothing(was[i].free, f.tree, fm.free);
      SelfAfterRead(f, cache, dev, fm, was[i], r0);
    } else {
      SelfAfterWrite(f, cache, dev, fm, was[i], disk, r0, length, offset, buffer, bytesWritten);
    }
    forall j | 0 <= j < |files| && j != i
      ensures FileOk(files[j], cache, dev, fm) && Content(files[j], cache, dev, fm) == old(Content(files[j], cache, dev, fm))
      ensures Strangers(f, files[j]) && Strangers(files[j], f)
    {
      assert old(Strangers(f, files[j]));
      StrangerAfterWrite(files[j], cache, dev, fm, was[j], disk, r0, was[i].tree, f.tree, f.sector);
    }
  }

  lemma SparesSize(s0: seq<Block>, s1: seq<Block>, r0: set<Sector>, r1: set<Sector>, mine: set<Sector>)
    requires Spares(s0, s1, r0, r1, mine)
    ensures |s1| == |s0|
  {}

  lemma StrangerAfterWrite(f: Inode, cache: Cache.Cache, dev: BlockDevice, fm: FreeMap.FreeMap,
                           a: State, disk: seq<Block>, r0: set<Sector>, t0: Tree, t1: Tree, home: Sector)
    requires f.Wired(dev, fm) && f.CursorIs(|f.tree.data|) && f.readLength == f.length && f.tree == a.tree && f.ptr[..] == a.ptr
    requires Good(a, disk, r0, f.length, f.sector) && Spares(a.sectors, dev.sectors, r0, cache.resident.Keys, a.free + Owned(t0))
    requires Owned(t0) + {home} !! Sectors(f) && fm.free + Owned(t1) == a.free + Owned(t0)
    requires ChangedWithin(disk, cache.disk, a.free + Owned(t0))
    requires cache.Valid(dev) && cache.CanGet()
    ensures FileOk(f, cache, dev, fm) && Content(f, cache, dev, fm) == Held(a, disk, r0, f.length, f.sector)
    ensures Owned(t1) + {home} !! Sectors(f)
  {
    hide Good, Held, Content, FileOk, Spares, ChangedWithin, Cache.Cache.Valid, Cache.Cache.CanGet, Sound, Raw, TailZero, DataSectors;
    MineApart(a, disk, r0, f.length, f.sector, t0);
    StrangerOk(f, cache, dev, fm, a, disk, r0, a.free + Owned(t0));
  }

  // ---- Removing ----

  function Without<T>(s: seq<T>, i: nat): (r: seq<T>)
    requires i < |s|
    ensures |r| == |s| - 1 && forall k :: 0 <= k < |r| ==> r[k] == s[if k < i then k else k + 1]
  {
    s[..i] + s[i + 1..]
  }

  /** The last close of a removed file: its inode's sector and its own are given back,
      each once, and every other file stays in order and holds what it held. */
  method Remove(f: Inode, ghost files: seq<Inode>, ghost i: nat, cache: Cache.Cache, dev: BlockDevice, fm: FreeMap.FreeMap)
    requires AllOk(files, cache, dev, fm) && i < |files| && f == files[i]
    modifies fm`free, fm.bitmap.elems
    ensures AllOk(Without(files, i), cache, dev, fm)
    ensures forall j :: 0 <= j < |files| && j != i ==>
              FileOk(files[j], cache, dev, fm) && Content(files[j], cache, dev, fm) == old(Content(files[j], cache, dev, fm))
    ensures fm.free == old(fm.free) + Sectors(f) && old(fm.free) !! Sectors(f)
  {
    hide FileOk, Good, Held, Content, Sound, Spares, ChangedWithin, Cache.Cache.Valid, Cache.Cache.CanGet, FreeMap.FreeMap.Valid, CursorOf, DataSectors, Home;
    ghost var was, disk, r0, mine := States(files, dev, fm), cache.disk, cache.resident.Keys, Sectors(f);
    AllGood(files, cache, dev, fm);
    FileParts(f, cache, dev, fm);
    OwnSectors(was[i], disk, r0, f.length, f.sector);
    fm.ReleaseOne(f.sector);
    assert f.Now(dev, fm) == was[i].(free := was[i].free + {f.sector});
    f.Dealloc(dev, fm);
    NothingChanged(disk, mine);
    SparesAll(was[i].sectors, r0, mine);
    forall j | 0 <= j < |files| && j != i
      ensures FileOk(files[j], cache, dev, fm) && Content(files[j], cache, dev, fm) == old(Content(files[j], cache, dev, fm))
    {
      assert Strangers(f, files[j]);
      StrangerOk(files[j], cache, dev, fm, was[j], disk, r0, mine);
    }
  }

  lemma OwnSectors(a: State, disk: seq<Block>, resident: set<Sector>, length: nat, home: Sector)
    requires Good(a, disk, resident, length, home)
    ensures home < |a.sectors| && home !in a.free && home !in Owned(a.tree) && a.free !! Owned(a.tree)
    ensures Sound(a.(free := a.free + {home}))
  {
    hide Maps;
  }

  // ---- Creating ----

  /** What a new file has was free; none of it is in the cache if none was to be. */
  ghost predicate NewSectors(resident: set<Sector>, free0: set<Sector>, home: Sector, free1: set<Sector>, t: Tree) {
    && Owned(t) + {home} <= free0 && home !in Owned(t) && free1 == free0 - (Owned(t) + {home})
    && (Available(resident, free0, 1 + Total(|t.data|)) ==> Owned(t) + {home} !! resident)
  }

  lemma NewApart(resident: set<Sector>, free0: set<Sector>, home: Sector, free1: set<Sector>, t: Tree)
    requires IsLeast(free0, home) && Took(free0 - {home}, EmptyTree, free1, t)
    ensures NewSectors(resident, free0, home, free1, t)
  {
    hide Took, Least, Available, Total;
    TookAll(free0 - {home}, free1, t);
    if Available(resident, free0, 1 + Total(|t.data|)) {
      OneMore(resident, free0, Total(|t.data|), home);
      AvailableApart(resident, free0 - {home}, Total(|t.data|));
    }
  }

  lemma TookAll(free0: set<Sector>, free1: set<Sector>, t: Tree)
    requires Took(free0, EmptyTree, free1, t)
    ensures var got := Least(free0, Total(|t.data|)); got <= free0 && Owned(t) == got && free1 == free0 - got
  {
    hide Rank;
    assert Total(|EmptyTree.data|) == 0 && Owned(EmptyTree) == {};
  }

  lemma AvailableApart(resident: set<Sector>, free: set<Sector>, n: int)
    requires Available(resident, free, n)
    ensures Least(free, n) !! resident && |free| >= n
  {
    hide Least;
  }

  /** `filesys_create` of a file of `len` bytes, without its directory entry, and
      `inode_open` of it, whatever is in the cache. */
  method MakeInode(dev: BlockDevice, fm: FreeMap.FreeMap, len: nat, dir: bool, ghost resident: set<Sector>) returns (f: Inode)
    requires fm.Valid() && fm.bitmap.bitCnt == |dev.sectors|
    requires |fm.free| >= 1 + Total(DataSectors(Min(len, MAX_FILE_SIZE)))
    modifies dev, fm`free, fm.bitmap.elems
    ensures fresh(f) && fresh(f.ptr) && f.Valid(dev, fm) && f.denyWriteCnt == 0 && f.isDir == dir && f.parent == FreeMap.ROOT_DIR_SECTOR
    ensures f.length == f.readLength == Min(len, MAX_FILE_SIZE) && |f.tree.data| == DataSectors(f.length)
    ensures IsLeast(old(fm.free), f.sector) && Took(old(fm.free) - {f.sector}, EmptyTree, fm.free, f.tree)
    ensures NewSectors(resident, old(fm.free), f.sector, fm.free, f.tree)
    ensures f.sector < |dev.sectors| == |old(dev.sectors)|
    ensures forall k :: 0 <= k < |f.tree.data| ==> Zeroed(dev.sectors, f.tree.data[k])
    ensures forall s :: 0 <= s < |dev.sectors| && s !in Sectors(f) ==> dev.sectors[s] == old(dev.sectors[s])
  {
    hide Sound, FreeMap.FreeMap.Valid, CursorOf, DataSectors, Total, Available, Took, Stored, Ptrs, Zeroed, IsLeast, NewSectors;
    ghost var free0 := fm.free;
    RoomForOne(free0);
    var ok, sector := fm.AllocateOne();
    ghost var t;
    ok, t := Inode.Create(dev, fm, sector, len, dir);
    f := new Inode.Open(dev, sector, fm, t);
    NewApart(resident, free0, sector, fm.free, t);
  }

  lemma RoomForOne(free: set<Sector>)
    ensures |free| > 0 ==> free != {}
    ensures forall s :: s in free && (forall y :: y in free ==> s <= y) ==> IsLeast(free, s)
  {}

  /** The disk as the cache shows it then. */
  ghost method ShowNew(f: Inode, cache: Cache.Cache, dev: BlockDevice, fm: FreeMap.FreeMap, was: seq<Block>, free0: set<Sector>)
    requires cache.size == |cache.entries| <= Cache.MAX_FILESYS_CACHE_SIZE && cache.Indexed() && cache.Shows(was) && cache.CanGet()
    requires |dev.sectors| == |was| && f.Valid(dev, fm) && f.readLength == f.length <= MAX_FILE_SIZE
    requires |f.tree.data| == DataSectors(f.length) && fm.free == free0 - Sectors(f) && Sectors(f) <= free0
    requires Sectors(f) !! cache.resident.Keys && f.sector !in Owned(f.tree) && f.sector < |was|
    requires forall k :: 0 <= k < |f.tree.data| ==> Zeroed(dev.sectors, f.tree.data[k])
    requires forall s :: 0 <= s < |was| && s !in Sectors(f) ==> dev.sectors[s] == was[s]
    modifies cache`disk
    ensures SystemOk(cache, dev, fm) && FileOk(f, cache, dev, fm) && Content(f, cache, dev, fm) == Zeros(f.length)
    ensures ChangedWithin(old(cache.disk), cache.disk, free0)
    ensures Spares(was, dev.sectors, cache.resident.Keys, cache.resident.Keys, free0)
    ensures |cache.disk| == |old(cache.disk)| && forall s :: s in cache.resident && s < |cache.disk| ==> cache.disk[s] == old(cache.disk)[s]
  {
    hide Sound, FileOk, Content, Cache.Cache.Placed, Cache.Cache.Indexed, Cache.Cache.CanGet, FreeMap.FreeMap.Valid, CursorOf, DataSectors, ZeroBlock;
    cache.Resync(dev, was);
    NewHolds(f, cache, dev, fm);
  }

  lemma NewHolds(f: Inode, cache: Cache.Cache, dev: BlockDevice, fm: FreeMap.FreeMap)
    requires f.Valid(dev, fm) && cache.Valid(dev) && cache.CanGet() && f.readLength == f.length <= MAX_FILE_SIZE
    requires |f.tree.data| == DataSectors(f.length) && Sectors(f) !! cache.resident.Keys && Sectors(f) !! fm.free
    requires f.sector !in Owned(f.tree) && f.sector < |dev.sectors|
    requires forall k :: 0 <= k < |f.tree.data| ==> Zeroed(dev.sectors, f.tree.data[k])
    ensures FileOk(f, cache, dev, fm) && Content(f, cache, dev, fm) == Zeros(f.length)
  {
    hide Sound, Cache.Cache.Valid, Cache.Cache.CanGet, FreeMap.FreeMap.Valid, CursorOf, ZeroBlock, Raw;
    SoundRange(f.Now(dev, fm));
    NewZeros(f, cache, dev);
    RawZeros(cache.disk, f.tree.data);
    ZerosOf(f.length);
  }

  lemma NewZeros(f: Inode, cache: Cache.Cache, dev: BlockDevice)
    requires cache.Valid(dev) && Owned(f.tree) !! cache.resident.Keys && Separate(f.tree)
    requires forall k :: 0 <= k < |f.tree.data| ==> Zeroed(dev.sectors, f.tree.data[k])
    ensures |cache.disk| == |dev.sectors| && forall k :: 0 <= k < |f.tree.data| ==> Zeroed(cache.disk, f.tree.data[k])
  {}

  lemma ZerosOf(length: nat)
    ensures length <= SECTOR_SIZE * DataSectors(length) && TailZero(Zeros(SECTOR_SIZE * DataSectors(length)), length)
    ensures Zeros(SECTOR_SIZE * DataSectors(length))[..length] == Zeros(length)
  {}

  /** The same beside other files, which `was` describes as they were. */
  ghost method ShowBeside(f: Inode, files: seq<Inode>, cache: Cache.Cache, dev: BlockDevice, fm: FreeMap.FreeMap,
                          was: seq<State>, sectors: seq<Block>, free0: set<Sector>)
    requires cache.size == |cache.entries| <= Cache.MAX_FILESYS_CACHE_SIZE && cache.Indexed() && cache.Shows(sectors) && cache.CanGet()
    requires |dev.sectors| == |sectors| && f.Valid(dev, fm) && f.readLength == f.length <= MAX_FILE_SIZE
    requires |f.tree.data| == DataSectors(f.length) && fm.free == free0 - Sectors(f) && Sectors(f) <= free0
    requires Sectors(f) !! cache.resident.Keys && f.sector !in Owned(f.tree) && f.sector < |sectors|
    requires forall k :: 0 <= k < |f.tree.data| ==> Zeroed(dev.sectors, f.tree.data[k])
    requires forall s :: 0 <= s < |sectors| && s !in Sectors(f) ==> dev.sectors[s] == sectors[s]
    requires |was| == |files| && forall j :: 0 <= j < |files| ==>
               && files[j].Wired(dev, fm) && files[j].CursorIs(|files[j].tree.data|) && files[j].readLength == files[j].length
               && was[j] == State(sectors, free0, files[j].ptr[..], files[j].tree) && f != files[j] && f.ptr != files[j].ptr
               && Good(was[j], cache.disk, cache.resident.Keys, files[j].length, files[j].sector)
    requires forall i, j :: 0 <= i < |files| && 0 <= j < |files| && i != j ==> Strangers(files[i], files[j])
    modifies cache`disk
    ensures AllOk(files + [f], cache, dev, fm) && FileOk(f, cache, dev, fm) && Content(f, cache, dev, fm) == Zeros(f.length)
    ensures forall j :: 0 <= j < |files| ==>
              && FileOk(files[j], cache, dev, fm) && Good(was[j], old(cache.disk), cache.resident.Keys, files[j].length, files[j].sector)
              && Content(files[j], cache, dev, fm) == Held(was[j], old(cache.disk), cache.resident.Keys, files[j].length, files[j].sector)
    ensures |cache.disk| == |old(cache.disk)| && forall s :: s in cache.resident && s < |cache.disk| ==> cache.disk[s] == old(cache.disk)[s]
  {
    hide FileOk, Good, Held, Content, Sound, Spares, ChangedWithin, Cache.Cache.Shows, Cache.Cache.Indexed, Cache.Cache.Placed, Cache.Cache.CanGet, FreeMap.FreeMap.Valid, CursorOf, DataSectors, Home, Zeroed;
    ghost var disk, resident := cache.disk, cache.resident.Keys;
    ShowNew(f, cache, dev, fm, sectors, free0);
    forall j | 0 <= j < |files|
      ensures FileOk(files[j], cache, dev, fm)
      ensures Content(files[j], cache, dev, fm) == Held(was[j], disk, resident, files[j].length, files[j].sector)
      ensures Strangers(f, files[j]) && Strangers(files[j], f)
    {
      MineApart(was[j], disk, resident, files[j].length, files[j].sector, EmptyTree);
      StrangerOk(files[j], cache, dev, fm, was[j], disk, resident, free0);
    }
    AllOkWith(files, f, cache, dev, fm);
  }

  /** `MakeInode` beside other files: the new one is all zeros, and every other file
      stays in order and holds what it held. */
  method MakeFile(ghost files: seq<Inode>, cache: Cache.Cache, dev: BlockDevice, fm: FreeMap.FreeMap, len: nat, dir: bool)
    returns (f: Inode)
    requires AllOk(files, cache, dev, fm)
    requires Available(cache.resident.Keys, fm.free, 1 + Total(DataSectors(Min(len, MAX_FILE_SIZE))))
    modifies dev, fm`free, fm.bitmap.elems, cache`disk
    ensures fresh(f) && fresh(f.ptr) && AllOk(files + [f], cache, dev, fm)
    ensures FileOk(f, cache, dev, fm) && Content(f, cache, dev, fm) == Zeros(Min(len, MAX_FILE_SIZE))
    ensures f.denyWriteCnt == 0 && f.isDir == dir && f.parent == FreeMap.ROOT_DIR_SECTOR
    ensures forall j :: 0 <= j < |files| ==>
              FileOk(files[j], cache, dev, fm) && Content(files[j], cache, dev, fm) == old(Content(files[j], cache, dev, fm))
    ensures IsLeast(old(fm.free), f.sector) && Took(old(fm.free) - {f.sector}, EmptyTree, fm.free, f.tree)
    ensures |cache.disk| == |old(cache.disk)| && forall s :: s in cache.resident && s < |cache.disk| ==> cache.disk[s] == old(cache.disk)[s]
  {
    hide FileOk, Good, Held, Content, Sound, Cache.Cache.Shows, Cache.Cache.Indexed, Cache.Cache.CanGet, FreeMap.FreeMap.Valid, CursorOf, DataSectors, Available, Took, Zeroed, IsLeast;
    ghost var was, sectors, free0, resident := States(files, dev, fm), dev.sectors, fm.free, cache.resident.Keys;
    AllGood(files, cache, dev, fm);
    cache.ShowsElsewhere(dev);
    AvailableApart(resident, free0, 1 + Total(DataSectors(Min(len, MAX_FILE_SIZE))));
    f := MakeInode(dev, fm, len, dir, resident);
    ShowBeside(f, files, cache, dev, fm, was, sectors, free0);
  }

  lemma AllOkWith(files: seq<Inode>, f: Inode, cache: Cache.Cache, dev: BlockDevice, fm: FreeMap.FreeMap)
    requires SystemOk(cache, dev, fm) && FileOk(f, cache, dev, fm)
    requires forall i :: 0 <= i < |files| ==> FileOk(files[i], cache, dev, fm) && Strangers(f, files[i]) && Strangers(files[i], f)
    requires forall i, j :: 0 <= i < |files| && 0 <= j < |files| && i != j ==> Strangers(files[i], files[j])
    ensures AllOk(files + [f], cache, dev, fm)
  {
    hide FileOk, Strangers, SystemOk;
  }
}
