/** Reading and writing a file's bytes through the buffer cache
    (`inode_read_at` and `inode_write_at` of `project4/src/filesys/inode.c`),
    proved against the flat sequence of bytes of module FlatFile. */
module InodeIo {
  import opened Basics
  import opened Device
  import opened InodeTree
  import opened FlatFile
  import opened Allocation
  import opened Inode
  import FreeMap
  import Cache

  /** The largest `off_t`. */
  const OFF_MAX := 0x7FFF_FFFF

  /** The inode and the cache are in order, the cache can serve a request, and
      nothing resident is an index block of this file (index blocks are read and
      written past the cache). */
  ghost predicate Ready(inode: Inode, cache: Cache.Cache, dev: BlockDevice, fm: FreeMap.FreeMap)
    reads inode, inode.ptr, cache, cache.entries, dev, fm, fm.bitmap, fm.bitmap.elems
  {
    && inode.Valid(dev, fm) && cache.Valid(dev) && cache.CanGet()
    && Coherent(cache.resident.Keys, inode.tree)
  }

  ghost predicate Coherent(resident: set<Sector>, t: Tree) {
    forall s :: s in resident ==> !IsIndexBlock(t, s)
  }

  /** The bytes of the file's sectors. */
  ghost function Bytes(inode: Inode, cache: Cache.Cache): seq<Byte>
    requires InRange(inode.tree, |cache.disk|) && Separate(inode.tree)
    reads inode`tree, cache`disk
  {
    DataInRange(inode.tree, |cache.disk|);
    Raw(cache.disk, inode.tree.data)
  }

  lemma DataInRange(t: Tree, size: nat)
    requires InRange(t, size) && Separate(t)
    ensures forall k :: 0 <= k < |t.data| ==> t.data[k] < size
  {}

  /** What one cache request changes on the device leaves the file's tree alone. */
  lemma RequestKeepsTree(s0: seq<Block>, s1: seq<Block>, free: set<Sector>, ptr: seq<Sector>, t: Tree, resident: set<Sector>)
    requires Sound(State(s0, free, ptr, t)) && |s1| == |s0| && Coherent(resident, t)
    requires forall s :: 0 <= s < |s0| && s !in resident ==> s1[s] == s0[s]
    ensures Sound(State(s1, free, ptr, t))
  {
    MapsFrame(s0, s1, ptr, t);
  }

  lemma SoundRange(st: State)
    requires Sound(st)
    ensures InRange(st.tree, |st.sectors|) && Separate(st.tree)
    ensures forall k :: 0 <= k < |st.tree.data| ==> st.tree.data[k] < |st.sectors| && st.tree.data[k] !in st.free && !IsIndexBlock(st.tree, st.tree.data[k])
  {}

  /** What requests for the sectors `mine` do beside their purpose: only sectors that
      were resident, or are among `mine`, change on the device, and only sectors of
      `mine` become resident. */
  ghost predicate Spares(s0: seq<Block>, s1: seq<Block>, r0: set<Sector>, r1: set<Sector>, mine: set<Sector>) {
    |s1| == |s0| && r1 <= r0 + mine && forall s :: 0 <= s < |s0| && s !in r0 && s !in mine ==> s1[s] == s0[s]
  }

  lemma SparesAll(s0: seq<Block>, r0: set<Sector>, mine: set<Sector>)
    ensures Spares(s0, s0, r0, r0, mine)
  {}

  lemma SparesResident(s0: seq<Block>, s1: seq<Block>, r0: set<Sector>, r1: set<Sector>, mine: set<Sector>)
    requires Spares(s0, s1, r0, r1, mine)
    ensures r1 <= r0 + mine
  {}

  lemma SparesTrans(s0: seq<Block>, s1: seq<Block>, s2: seq<Block>, r0: set<Sector>, r1: set<Sector>, r2: set<Sector>,
                    mine: set<Sector>, more: set<Sector>)
    requires Spares(s0, s1, r0, r1, mine) && Spares(s1, s2, r1, r2, more) && more <= mine
    ensures Spares(s0, s2, r0, r2, mine)
  {}

  /** The bytes one round of the read or write loop moves. */
  function Chunk(size: int, offset: nat, length: nat): int {
    Min(size, Min(length - offset, SECTOR_SIZE - offset % SECTOR_SIZE))
  }

  /** One cache request for a data sector of the file. */
  method GetBlock(inode: Inode, cache: Cache.Cache, dev: BlockDevice, fm: FreeMap.FreeMap, sector: Sector, dirty: bool, ghost k: nat)
    returns (c: Cache.Entry)
    requires Ready(inode, cache, dev, fm) && k < |inode.tree.data| && sector == inode.tree.data[k]
    modifies cache`entries, cache`size, cache`resident, cache.entries, dev
    ensures inode.Valid(dev, fm) && cache.Valid(dev) && Coherent(cache.resident.Keys, inode.tree)
    ensures c in cache.entries && c.sector == sector < |cache.disk| && c.block == cache.disk[sector] && 0 < c.openCnt
    ensures cache.RoomBeside(c)
    ensures fresh(set e | e in cache.entries && e !in old(cache.entries))
    ensures Spares(old(dev.sectors), dev.sectors, old(cache.resident.Keys), cache.resident.Keys, Owned(inode.tree))
  {
    hide Sound, Maps, CursorOf, FreeMap.FreeMap.Valid, Cache.Cache.Indexed, Cache.Cache.Shows, Separate, InRange;
    SoundRange(inode.Now(dev, fm));
    ghost var st0 := inode.Now(dev, fm);
    c := cache.Get(dev, sector, dirty);
    RequestKeepsTree(st0.sectors, dev.sectors, st0.free, st0.ptr, st0.tree, old(cache.resident.Keys));
    DataBelongs(st0, k);
  }

  /** `memcpy` out of a block into the caller's buffer. */
  method CopyOut(block: Block, ofs: nat, cnt: nat, buffer: array<Byte>, start: nat)
    requires ofs + cnt <= SECTOR_SIZE && start + cnt <= buffer.Length
    modifies buffer
    ensures buffer[..] == Splice(old(buffer[..]), start, block[ofs..ofs + cnt])
  {
    forall i | 0 <= i < cnt {
      buffer[start + i] := block[ofs + i];
    }
  }

  lemma SpliceNothing(f: seq<Byte>)
    ensures Splice(f, 0, []) == f
  {}

  /** Laying down two adjoining stretches of `bytes` lays down both. */
  lemma SpliceOn(f: seq<Byte>, bytes: seq<Byte>, offset: nat, a: nat, b: nat)
    requires offset + a + b <= |bytes| && a + b <= |f|
    ensures Splice(Splice(f, 0, bytes[offset..offset + a]), a, bytes[offset + a..offset + a + b]) == Splice(f, 0, bytes[offset..offset + a + b])
  {}

  lemma ReadSlice(bytes: seq<Byte>, length: nat, offset: nat, size: nat)
    requires length <= |bytes|
    ensures Read(bytes[..length], offset, size) == if length <= offset then [] else bytes[offset..Min(length, offset + size)]
  {}

  /** One round of the read loop: a chunk of one sector goes to the buffer. */
  method ReadChunk(inode: Inode, cache: Cache.Cache, dev: BlockDevice, fm: FreeMap.FreeMap, buffer: array<Byte>, start: nat,
                   sectorIdx: Sector, ofs: nat, chunkSize: nat)
    requires Ready(inode, cache, dev, fm) && InRange(inode.tree, |cache.disk|) && Separate(inode.tree)
    requires ofs / SECTOR_SIZE < |inode.tree.data| && sectorIdx == inode.tree.data[ofs / SECTOR_SIZE]
    requires ofs % SECTOR_SIZE + chunkSize <= SECTOR_SIZE && start + chunkSize <= buffer.Length
    modifies buffer, cache`entries, cache`size, cache`resident, cache.entries, dev
    ensures Ready(inode, cache, dev, fm) && ofs + chunkSize <= |Bytes(inode, cache)| && cache.IsMarked(sectorIdx)
    ensures buffer[..] == Splice(old(buffer[..]), start, Bytes(inode, cache)[ofs..ofs + chunkSize])
    ensures fresh(set e | e in cache.entries && e !in old(cache.entries))
    ensures Spares(old(dev.sectors), dev.sectors, old(cache.resident.Keys), cache.resident.Keys, Owned(inode.tree))
  {
    hide Spares, Sound, Maps, CursorOf, FreeMap.FreeMap.Valid, Cache.Cache.Indexed, Cache.Cache.Shows, Separate, InRange, Coherent, Raw, Splice;
    ghost var k := ofs / SECTOR_SIZE;
    DataInRange(inode.tree, |cache.disk|);
    var c := GetBlock(inode, cache, dev, fm, sectorIdx, false, k);
    CopyOut(c.block, ofs % SECTOR_SIZE, chunkSize, buffer, start);
    RawChunk(cache.disk, inode.tree.data, k, ofs % SECTOR_SIZE, chunkSize);
    cache.Release(dev, c);
  }

  lemma ReadRange(inode: Inode, cache: Cache.Cache, dev: BlockDevice, fm: FreeMap.FreeMap, length: nat)
    requires Ready(inode, cache, dev, fm) && DataSectors(length) <= |inode.tree.data|
    ensures InRange(inode.tree, |cache.disk|) && Separate(inode.tree) && length <= |Bytes(inode, cache)|
  {
    SoundRange(inode.Now(dev, fm));
  }

  /** The sector of the last byte read or written is in the cache, with a second chance;
      if it was written, to be written back. */
  ghost predicate LastUsed(cache: Cache.Cache, t: Tree, offset: nat, done: nat, written: bool)
    reads cache, cache.entries
  {
    done > 0 ==>
      && (offset + done - 1) / SECTOR_SIZE < |t.data|
      && var s := t.data[(offset + done - 1) / SECTOR_SIZE]; cache.IsMarked(s) && (written ==> cache.IsDirty(s))
  }

  lemma ChunkLast(ofs: nat, cnt: nat)
    requires 0 < cnt && ofs % SECTOR_SIZE + cnt <= SECTOR_SIZE
    ensures (ofs + cnt - 1) / SECTOR_SIZE == ofs / SECTOR_SIZE
  {}

  lemma ChunkUsed(cache: Cache.Cache, t: Tree, offset: nat, done: nat, cnt: nat, s: Sector, written: bool)
    requires 0 < cnt && (offset + done) % SECTOR_SIZE + cnt <= SECTOR_SIZE && (offset + done) / SECTOR_SIZE < |t.data|
    requires s == t.data[(offset + done) / SECTOR_SIZE] && cache.IsMarked(s) && (written ==> cache.IsDirty(s))
    ensures LastUsed(cache, t, offset, done + cnt, written)
  {
    ChunkLast(offset + done, cnt);
  }

  lemma NoneUsed(cache: Cache.Cache, t: Tree, offset: nat, written: bool)
    ensures LastUsed(cache, t, offset, 0, written)
  {}

  /** The buffer after one more chunk. */
  lemma ReadMore(b0: seq<Byte>, b1: seq<Byte>, b2: seq<Byte>, bytes: seq<Byte>, offset: nat, a: nat, n: nat)
    requires offset + a + n <= |bytes| && a + n <= |b0| && b1 == Splice(b0, 0, bytes[offset..offset + a]) && |b1| == |b0|
    requires b2 == Splice(b1, a, bytes[offset + a..offset + a + n])
    ensures b2 == Splice(b0, 0, bytes[offset..offset + (a + n)])
  {
    SpliceOn(b0, bytes, offset, a, n);
  }

  /** The loop of `inode_read_at`. */
  method ReadLoop(inode: Inode, cache: Cache.Cache, dev: BlockDevice, fm: FreeMap.FreeMap, buffer: array<Byte>, size: nat, offset: nat, length: nat)
    returns (bytesRead: nat)
    requires Ready(inode, cache, dev, fm) && DataSectors(length) <= |inode.tree.data| && size <= buffer.Length
    requires InRange(inode.tree, |cache.disk|) && Separate(inode.tree) && offset < length <= |Bytes(inode, cache)|
    modifies buffer, cache`entries, cache`size, cache`resident, cache.entries, dev
    ensures Ready(inode, cache, dev, fm) && bytesRead == Min(size, length - offset)
    ensures buffer[..] == Splice(old(buffer[..]), 0, Bytes(inode, cache)[offset..offset + bytesRead])
    ensures Spares(old(dev.sectors), dev.sectors, old(cache.resident.Keys), cache.resident.Keys, Owned(inode.tree))
    ensures LastUsed(cache, inode.tree, offset, bytesRead, false)
    ensures fresh(set e | e in cache.entries && e !in old(cache.entries))
  {
    hide LastUsed, Cache.Cache.IsMarked, Cache.Cache.IsDirty, Lookup, CanLookup, Spares, DataSectors, Cache.Cache.Valid, Cache.Cache.CanGet, Sound, Maps, CursorOf, FreeMap.FreeMap.Valid, Cache.Cache.Indexed, Cache.Cache.Shows, Separate, InRange, Coherent, Raw, Splice;
    bytesRead := 0;
    ghost var bytes, b0 := Bytes(inode, cache), buffer[..];
    ghost var s0, r0, mine := dev.sectors, cache.resident.Keys, Owned(inode.tree);
    SparesAll(s0, r0, mine);
    NoneUsed(cache, inode.tree, offset, false);
    SpliceNothing(b0);
    assert bytes[offset..offset + 0] == [];
    var left, ofs := size, offset;
    while left > 0
      invariant Ready(inode, cache, dev, fm)
      invariant fresh(set e | e in cache.entries && e !in old(cache.entries))
      invariant ofs == offset + bytesRead <= length && 0 <= left && left + bytesRead == size && |buffer[..]| == |b0|
      invariant buffer[..] == Splice(b0, 0, bytes[offset..offset + bytesRead])
      invariant Spares(s0, dev.sectors, r0, cache.resident.Keys, mine) && LastUsed(cache, inode.tree, offset, bytesRead, false)
    {
      if ofs < length { inode.LookupHere(dev, fm, length, ofs); }
      var sectorIdx := inode.ByteToSector(dev, length, ofs);
      var chunkSize := Chunk(left, ofs, length);
      if chunkSize <= 0 {
        break;
      }
      ghost var s1, r1, b1 := dev.sectors, cache.resident.Keys, buffer[..];
      ReadChunk(inode, cache, dev, fm, buffer, bytesRead, sectorIdx, ofs, chunkSize);
      SparesTrans(s0, s1, dev.sectors, r0, r1, cache.resident.Keys, mine, mine);
      ChunkUsed(cache, inode.tree, offset, bytesRead, chunkSize, sectorIdx, false);
      ReadMore(b0, b1, buffer[..], bytes, offset, bytesRead, chunkSize);
      left, ofs, bytesRead := left - chunkSize, ofs + chunkSize, bytesRead + chunkSize;
    }
  }

  /** `inode_read_at`: the bytes read are those of the flat file, as far as there
      are any, and nothing but the buffer and the cache's own bookkeeping changes. */
  method ReadAt(inode: Inode, cache: Cache.Cache, dev: BlockDevice, fm: FreeMap.FreeMap, buffer: array<Byte>, size: nat, offset: nat)
    returns (bytesRead: nat)
    requires Ready(inode, cache, dev, fm) && DataSectors(inode.readLength) <= |inode.tree.data| && size <= buffer.Length
    modifies buffer, cache`entries, cache`size, cache`resident, cache.entries, dev
    ensures Ready(inode, cache, dev, fm)
    ensures InRange(inode.tree, |cache.disk|) && Separate(inode.tree) && inode.readLength <= |Bytes(inode, cache)|
    ensures bytesRead == |Read(Bytes(inode, cache)[..inode.readLength], offset, size)| <= buffer.Length
    ensures buffer[..] == Splice(old(buffer[..]), 0, Read(Bytes(inode, cache)[..inode.readLength], offset, size))
    // Beside, blocks of this file may become resident, and resident blocks be written back.
    ensures Spares(old(dev.sectors), dev.sectors, old(cache.resident.Keys), cache.resident.Keys, Owned(inode.tree))
    // The last block used has its second chance.
    ensures LastUsed(cache, inode.tree, offset, bytesRead, false)
    ensures fresh(set e | e in cache.entries && e !in old(cache.entries))
  {
    hide LastUsed, Spares, DataSectors, Cache.Cache.Valid, Cache.Cache.CanGet, Sound, Maps, CursorOf, FreeMap.FreeMap.Valid, Cache.Cache.Indexed, Cache.Cache.Shows, Separate, InRange, Coherent, Raw, Splice, Read;
    bytesRead := 0;
    var length := inode.readLength;
    ReadRange(inode, cache, dev, fm, length);
    ghost var bytes := Bytes(inode, cache);
    ReadSlice(bytes, length, offset, size);
    if offset >= length {
      SparesAll(dev.sectors, cache.resident.Keys, Owned(inode.tree));
      NoneUsed(cache, inode.tree, offset, false);
      SpliceNothing(buffer[..]);
      return;
    }
    bytesRead := ReadLoop(inode, cache, dev, fm, buffer, size, offset, length);
    assert Bytes(inode, cache) == bytes;
  }

  /** Only sectors of `changed` differ. */
  ghost predicate ChangedWithin(d0: seq<Block>, d1: seq<Block>, changed: set<Sector>) {
    |d1| == |d0| && forall s :: 0 <= s < |d0| && s !in changed ==> d1[s] == d0[s]
  }

  lemma ChangedTrans(d0: seq<Block>, d1: seq<Block>, d2: seq<Block>, c1: set<Sector>, c2: set<Sector>)
    requires ChangedWithin(d0, d1, c1) && ChangedWithin(d1, d2, c2)
    ensures ChangedWithin(d0, d2, c1 + c2)
  {}

  /** Growth seen through the cache, when nothing new is resident: the bytes the file
      had stay and the new sectors read as zeros. */
  lemma GrowthThroughCache(a: State, b: State, resident: set<Sector>, d0: seq<Block>, d1: seq<Block>)
    requires Apart(a) && Apart(b) && Grown(a, b) && Coherent(resident, a.tree)
    requires |d0| == |d1| == |a.sectors| && forall s :: s in resident ==> !IsNew(a, b, s)
    requires forall s :: 0 <= s < |d0| && s !in resident ==> a.sectors[s] == d0[s]
    requires forall s :: 0 <= s < |d1| ==> d1[s] == if s in resident then d0[s] else b.sectors[s]
    ensures forall k :: 0 <= k < |a.tree.data| ==> a.tree.data[k] < |d0|
    ensures forall k :: 0 <= k < |b.tree.data| ==> b.tree.data[k] < |d1|
    ensures Raw(d1, b.tree.data) == Raw(d0, a.tree.data) + Zeros(SECTOR_SIZE * (|b.tree.data| - |a.tree.data|))
    ensures ChangedWithin(d0, d1, a.free + Owned(a.tree))
  {
    hide Raw, Orderly;
    forall k | 0 <= k < |a.tree.data|
      ensures a.tree.data[k] < |d0| && d1[a.tree.data[k]] == d0[a.tree.data[k]]
    {
      assert a.tree.roles[a.tree.data[k]] == Data(k);
    }
    forall k | |a.tree.data| <= k < |b.tree.data|
      ensures Zeroed(d1, b.tree.data[k])
    {
      assert Zeroed(b.sectors, b.tree.data[k]) && b.tree.roles[b.tree.data[k]] == Data(k);
      NewSector(a, b, k);
    }
    RawGrow(d0, d1, a.tree.data, b.tree.data);
  }

  lemma NewSector(a: State, b: State, k: nat)
    requires Apart(a) && Apart(b) && Grown(a, b) && |a.tree.data| <= k < |b.tree.data|
    ensures b.tree.data[k] in a.free && IsNew(a, b, b.tree.data[k])
  {
    var s := b.tree.data[k];
    assert b.tree.roles[s] == Data(k);
    assert s in a.tree.roles ==> Listed(a.tree, s, a.tree.roles[s]);
  }

  /** No resident sector changes on the device when the file grows, or becomes an index
      block, if none is taken. */
  lemma GrowthSparesResident(a: State, b: State, resident: set<Sector>)
    requires Grown(a, b) && Coherent(resident, a.tree) && forall s :: s in resident ==> !IsNew(a, b, s)
    ensures |b.sectors| == |a.sectors| && forall s :: s in resident && s < |a.sectors| ==> b.sectors[s] == a.sectors[s]
    ensures Coherent(resident, b.tree)
  {
    hide Orderly;
  }

  lemma GrowthSpares(a: State, b: State, resident: set<Sector>)
    requires Grown(a, b)
    ensures Spares(a.sectors, b.sectors, resident, resident, a.free + Owned(a.tree))
  {}

  /** `inode_expand` when no sector it takes is in the cache: the disk means what it meant at resident sectors, and
      elsewhere what the device holds. */
  method ExpandPast(inode: Inode, cache: Cache.Cache, dev: BlockDevice, fm: FreeMap.FreeMap, newLength: nat)
    requires Ready(inode, cache, dev, fm) && |inode.tree.data| == DataSectors(inode.length) && inode.length < newLength
    requires CanGrow(cache.resident.Keys, fm.free, |inode.tree.data|, newLength)
    modifies inode`tree, inode`directIndex, inode`indirectIndex, inode`doubleIndirectIndex, inode`length, inode.ptr,
             dev, fm`free, fm.bitmap.elems, cache`disk
    ensures Ready(inode, cache, dev, fm) && forall s :: s in cache.resident ==> !IsNew(old(inode.Now(dev, fm)), inode.Now(dev, fm), s)
    ensures inode.length == ExpandedLength(newLength) && |inode.tree.data| == Min(DataSectors(newLength), MAX_SECTORS)
    ensures Grown(old(inode.Now(dev, fm)), inode.Now(dev, fm))
    ensures forall s :: 0 <= s < |cache.disk| ==> cache.disk[s] == if s in cache.resident then old(cache.disk[s]) else dev.sectors[s]
  {
    hide Rank, IsNew, DataSectors, Total, Cache.Cache.Shows, Sound, Maps, CursorOf, FreeMap.FreeMap.Valid, Cache.Cache.Indexed, Cache.Cache.Placed, Separate, InRange, Grown, Apart, Coherent, PtrOk, LeavesOk;
    ghost var st0 := inode.Now(dev, fm);
    cache.ShowsElsewhere(dev);
    inode.length := inode.Expand(dev, fm, newLength);
    NoneNew(st0, inode.Now(dev, fm), cache.resident.Keys);
    GrowthSparesResident(st0, inode.Now(dev, fm), cache.resident.Keys);
    cache.Resync(dev, st0.sectors);
  }

  /** The part of `inode_write_at` that extends the file. */
  method Extend(inode: Inode, cache: Cache.Cache, dev: BlockDevice, fm: FreeMap.FreeMap, newLength: nat)
    requires Ready(inode, cache, dev, fm) && |inode.tree.data| == DataSectors(inode.length) && inode.length < newLength
    requires CanGrow(cache.resident.Keys, fm.free, |inode.tree.data|, newLength)
    requires InRange(inode.tree, |cache.disk|) && Separate(inode.tree)
    modifies inode`tree, inode`directIndex, inode`indirectIndex, inode`doubleIndirectIndex, inode`length, inode.ptr,
             dev, fm`free, fm.bitmap.elems, cache`disk
    ensures Ready(inode, cache, dev, fm) && InRange(inode.tree, |cache.disk|) && Separate(inode.tree)
    ensures inode.length == ExpandedLength(newLength) && |inode.tree.data| == Min(DataSectors(newLength), MAX_SECTORS)
    ensures |old(inode.tree).data| <= |inode.tree.data|
    ensures Bytes(inode, cache) == old(Bytes(inode, cache)) + Zeros(SECTOR_SIZE * (|inode.tree.data| - |old(inode.tree).data|))
    ensures Grown(old(inode.Now(dev, fm)), inode.Now(dev, fm))
    ensures ChangedWithin(old(cache.disk), cache.disk, old(fm.free) + old(Owned(inode.tree)))
    ensures Spares(old(dev.sectors), dev.sectors, old(cache.resident.Keys), cache.resident.Keys, old(fm.free) + old(Owned(inode.tree)))
    ensures Took(old(fm.free), old(inode.tree), fm.free, inode.tree)
  {
    hide Took, CanGrow, Available, Spares, ChangedWithin, DataSectors, Total, Zeros, Cache.Cache.CanGet, Cache.Cache.Shows, Sound, Maps, CursorOf, FreeMap.FreeMap.Valid, Cache.Cache.Indexed, Cache.Cache.Placed, Separate, InRange, Coherent, Raw, Grown, Apart;
    ghost var st0, disk0 := inode.Now(dev, fm), cache.disk;
    SoundParts(st0);
    cache.ShowsElsewhere(dev);
    ExpandPast(inode, cache, dev, fm, newLength);
    ghost var st1 := inode.Now(dev, fm);
    SoundParts(st1);
    GrownSizes(st0, st1);
    GrowthSpares(st0, st1, cache.resident.Keys);
    GrownTook(st0, st1);
    GrowthThroughCache(st0, st1, cache.resident.Keys, disk0, cache.disk);
    SoundRange(st1);
  }

  lemma DataBelongs(st: State, k: nat)
    requires Sound(st) && k < |st.tree.data|
    ensures st.tree.data[k] < |st.sectors| && st.tree.data[k] in Owned(st.tree)
  {}

  /** One round of the write loop: a chunk of one sector comes from the buffer. */
  method WriteChunk(inode: Inode, cache: Cache.Cache, dev: BlockDevice, fm: FreeMap.FreeMap, chunk: seq<Byte>,
                    sectorIdx: Sector, ofs: nat)
    requires Ready(inode, cache, dev, fm) && InRange(inode.tree, |cache.disk|) && Separate(inode.tree)
    requires ofs / SECTOR_SIZE < |inode.tree.data| && sectorIdx == inode.tree.data[ofs / SECTOR_SIZE]
    requires ofs % SECTOR_SIZE + |chunk| <= SECTOR_SIZE
    modifies cache`entries, cache`size, cache`resident, cache`disk, cache.entries, dev
    ensures Ready(inode, cache, dev, fm) && InRange(inode.tree, |cache.disk|)
    ensures ofs + |chunk| <= |old(Bytes(inode, cache))|
    ensures Bytes(inode, cache) == Splice(old(Bytes(inode, cache)), ofs, chunk) && cache.IsDirty(sectorIdx) && cache.IsMarked(sectorIdx)
    ensures ChangedWithin(old(cache.disk), cache.disk, Owned(inode.tree))
    ensures fresh(set e | e in cache.entries && e !in old(cache.entries))
    ensures Spares(old(dev.sectors), dev.sectors, old(cache.resident.Keys), cache.resident.Keys, Owned(inode.tree))
  {
    hide Spares, Sound, Maps, CursorOf, FreeMap.FreeMap.Valid, Cache.Cache.Indexed, Cache.Cache.Shows, Separate, InRange, Coherent, Raw, Splice;
    ghost var k, disk0 := ofs / SECTOR_SIZE, cache.disk;
    DataInRange(inode.tree, |cache.disk|);
    DataBelongs(inode.Now(dev, fm), k);
    var c := GetBlock(inode, cache, dev, fm, sectorIdx, true, k);
    var block := Overlay(c.block, ofs % SECTOR_SIZE, chunk);
    cache.Store(dev, c, block);
    RawSplice(disk0, inode.tree, k, ofs % SECTOR_SIZE, chunk, block);
  }

  /** `memcpy` of `chunk` into a block. */
  function Overlay(block: Block, ofs: nat, chunk: seq<Byte>): (r: Block)
    requires ofs + |chunk| <= SECTOR_SIZE
    ensures r == Splice(block, ofs, chunk)
  {
    block[..ofs] + chunk + block[ofs + |chunk|..]
  }

  /** The length of a file after a write that ends at byte `end`. */
  function LengthAfter(length: nat, end: nat): nat {
    if length < end then ExpandedLength(end) else length
  }

  /** How many of `size` bytes at `offset` fit below `length`. */
  function Fitting(size: nat, offset: nat, length: nat): nat {
    if length <= offset then 0 else Min(size, length - offset)
  }

  lemma SpliceMore(f: seq<Byte>, b: seq<Byte>, offset: nat, m: nat, n: nat)
    requires m + n <= |b| && offset + m + n <= |f|
    ensures Splice(Splice(f, offset, b[..m]), offset + m, b[m..m + n]) == Splice(f, offset, b[..m + n])
  {}

  /** `bytes` is `before` with the first `written` bytes of `b` laid over it at
      `offset`; nothing is laid where nothing was written. */
  ghost predicate Laid(before: seq<Byte>, offset: nat, b: seq<Byte>, written: nat, bytes: seq<Byte>) {
    if written == 0 then bytes == before
    else written <= |b| && offset + written <= |before| && bytes == Splice(before, offset, b[..written])
  }

  lemma LaidMore(before: seq<Byte>, offset: nat, b: seq<Byte>, m: nat, bytes: seq<Byte>, n: nat)
    requires Laid(before, offset, b, m, bytes) && 0 < n && m + n <= |b| && offset + m + n <= |bytes|
    ensures Laid(before, offset, b, m + n, Splice(bytes, offset + m, b[m..m + n]))
  {
    if m > 0 {
      SpliceMore(before, b, offset, m, n);
    }
  }

  /** The loop of `inode_write_at`. */
  method WriteLoop(inode: Inode, cache: Cache.Cache, dev: BlockDevice, fm: FreeMap.FreeMap, buffer: seq<Byte>, offset: nat)
    returns (bytesWritten: nat)
    requires Ready(inode, cache, dev, fm) && |inode.tree.data| == DataSectors(inode.length)
    requires InRange(inode.tree, |cache.disk|) && Separate(inode.tree)
    modifies cache`entries, cache`size, cache`resident, cache`disk, cache.entries, dev
    ensures Ready(inode, cache, dev, fm) && InRange(inode.tree, |cache.disk|)
    ensures bytesWritten == Fitting(|buffer|, offset, inode.length)
    ensures Laid(old(Bytes(inode, cache)), offset, buffer, bytesWritten, Bytes(inode, cache))
    ensures ChangedWithin(old(cache.disk), cache.disk, Owned(inode.tree))
    ensures Spares(old(dev.sectors), dev.sectors, old(cache.resident.Keys), cache.resident.Keys, Owned(inode.tree))
    ensures LastUsed(cache, inode.tree, offset, bytesWritten, true)
    ensures fresh(set e | e in cache.entries && e !in old(cache.entries))
  {
    hide LastUsed, Cache.Cache.IsMarked, Cache.Cache.IsDirty, Lookup, CanLookup, DataSectors, Cache.Cache.Valid, Spares, Sound, Maps, CursorOf, FreeMap.FreeMap.Valid, Cache.Cache.Indexed, Cache.Cache.Shows, Separate, InRange, Coherent, Raw, Splice, Laid, ChangedWithin;
    ghost var s0, r0, mine := dev.sectors, cache.resident.Keys, Owned(inode.tree);
    SparesAll(s0, r0, mine);
    bytesWritten := 0;
    ghost var disk0, bytes0 := cache.disk, Bytes(inode, cache);
    var left, ofs := |buffer|, offset;
    LaidStart(bytes0, offset, buffer, disk0, Owned(inode.tree));
    NoneUsed(cache, inode.tree, offset, true);
    while left > 0
      invariant Ready(inode, cache, dev, fm) && InRange(inode.tree, |cache.disk|)
      invariant fresh(set e | e in cache.entries && e !in old(cache.entries))
      invariant ofs == offset + bytesWritten && 0 <= left && left + bytesWritten == |buffer|
      invariant (bytesWritten == 0 || ofs <= inode.length) && LastUsed(cache, inode.tree, offset, bytesWritten, true)
      invariant Laid(bytes0, offset, buffer, bytesWritten, Bytes(inode, cache))
      invariant ChangedWithin(disk0, cache.disk, Owned(inode.tree))
      invariant Spares(s0, dev.sectors, r0, cache.resident.Keys, mine)
    {
      if ofs < inode.length { inode.LookupHere(dev, fm, inode.length, ofs); }
      var sectorIdx := inode.ByteToSector(dev, inode.length, ofs);
      var chunkSize := Chunk(left, ofs, inode.length);
      if chunkSize <= 0 {
        break;
      }
      ghost var disk1, bytes1 := cache.disk, Bytes(inode, cache);
      ghost var s1, r1 := dev.sectors, cache.resident.Keys;
      WriteChunk(inode, cache, dev, fm, buffer[bytesWritten..bytesWritten + chunkSize], sectorIdx, ofs);
      ChunkUsed(cache, inode.tree, offset, bytesWritten, chunkSize, sectorIdx, true);
      LaidMore(bytes0, offset, buffer, bytesWritten, bytes1, chunkSize);
      ChangedTrans(disk0, disk1, cache.disk, Owned(inode.tree), Owned(inode.tree));
      SetTwice(Owned(inode.tree));
      SparesTrans(s0, s1, dev.sectors, r0, r1, cache.resident.Keys, mine, mine);
      left, ofs, bytesWritten := left - chunkSize, ofs + chunkSize, bytesWritten + chunkSize;
    }
  }

  lemma LaidStart(before: seq<Byte>, offset: nat, b: seq<Byte>, d: seq<Block>, changed: set<Sector>)
    ensures Laid(before, offset, b, 0, before) && ChangedWithin(d, d, changed)
  {}

  lemma SetTwice(s: set<Sector>)
    ensures s + s == s
  {}

  lemma ZerosNone(f: seq<Byte>)
    ensures f + Zeros(0) == f
  {}

  /** The length returned for a file past the cap has as many sectors as the cap. */
  lemma ExpandedSectors(newLength: nat)
    ensures DataSectors(ExpandedLength(newLength)) == Min(DataSectors(newLength), MAX_SECTORS)
  {}

  /** A longer file: what `Extend` did, in terms of its bytes and sectors. */
  method ExtendTo(inode: Inode, cache: Cache.Cache, dev: BlockDevice, fm: FreeMap.FreeMap, end: nat)
    requires Ready(inode, cache, dev, fm) && |inode.tree.data| == DataSectors(inode.length)
    requires InRange(inode.tree, |cache.disk|) && Separate(inode.tree)
    requires inode.length < end
    requires CanGrow(cache.resident.Keys, fm.free, |inode.tree.data|, end)
    modifies inode`tree, inode`directIndex, inode`indirectIndex, inode`doubleIndirectIndex, inode`length,
             inode.ptr, dev, fm`free, fm.bitmap.elems, cache`disk
    ensures Ready(inode, cache, dev, fm) && |inode.tree.data| == DataSectors(inode.length)
    ensures InRange(inode.tree, |cache.disk|) && Separate(inode.tree)
    ensures inode.length == LengthAfter(old(inode.length), end) && |old(inode.tree).data| <= |inode.tree.data|
    ensures Bytes(inode, cache) == old(Bytes(inode, cache)) + Zeros(SECTOR_SIZE * (|inode.tree.data| - |old(inode.tree).data|))
    ensures ChangedWithin(old(cache.disk), cache.disk, old(fm.free) + old(Owned(inode.tree)))
    ensures fm.free + Owned(inode.tree) == old(fm.free) + old(Owned(inode.tree))
    ensures Spares(old(dev.sectors), dev.sectors, old(cache.resident.Keys), cache.resident.Keys, old(fm.free) + old(Owned(inode.tree)))
    ensures Took(old(fm.free), old(inode.tree), fm.free, inode.tree)
  {
    hide Took, CanGrow, Available, Spares, Apart, DataSectors, Total, ExpandedLength, Cache.Cache.CanGet, Sound, Maps, CursorOf, FreeMap.FreeMap.Valid, Cache.Cache.Indexed, Cache.Cache.Shows, Separate, InRange, Coherent, Raw, Grown, ChangedWithin, Zeros;
    ghost var st0 := inode.Now(dev, fm);
    Extend(inode, cache, dev, fm, end);
    ExtendedBy(st0, inode.Now(dev, fm), end);
  }

  lemma ExtendedBy(a: State, b: State, end: nat)
    requires Grown(a, b)
    ensures a.free + Owned(a.tree) == b.free + Owned(b.tree)
    ensures DataSectors(ExpandedLength(end)) == Min(DataSectors(end), MAX_SECTORS)
  {
    GrowthConserves(a, b);
    ExpandedSectors(end);
  }

  /** The first half of `inode_write_at`: the file is extended if the write ends
      past its end. */
  method ExtendFor(inode: Inode, cache: Cache.Cache, dev: BlockDevice, fm: FreeMap.FreeMap, end: nat)
    requires Ready(inode, cache, dev, fm) && |inode.tree.data| == DataSectors(inode.length)
    requires InRange(inode.tree, |cache.disk|) && Separate(inode.tree)
    requires inode.length < end ==> CanGrow(cache.resident.Keys, fm.free, |inode.tree.data|, end)
    modifies inode`tree, inode`directIndex, inode`indirectIndex, inode`doubleIndirectIndex, inode`length,
             inode.ptr, dev, fm`free, fm.bitmap.elems, cache`disk
    ensures Ready(inode, cache, dev, fm) && |inode.tree.data| == DataSectors(inode.length)
    ensures InRange(inode.tree, |cache.disk|) && Separate(inode.tree)
    ensures inode.length == LengthAfter(old(inode.length), end) && |old(inode.tree).data| <= |inode.tree.data|
    ensures Bytes(inode, cache) == old(Bytes(inode, cache)) + Zeros(SECTOR_SIZE * (|inode.tree.data| - |old(inode.tree).data|))
    ensures ChangedWithin(old(cache.disk), cache.disk, old(fm.free) + old(Owned(inode.tree)))
    ensures fm.free + Owned(inode.tree) == old(fm.free) + old(Owned(inode.tree))
    ensures Spares(old(dev.sectors), dev.sectors, old(cache.resident.Keys), cache.resident.Keys, old(fm.free) + old(Owned(inode.tree)))
    ensures Took(old(fm.free), old(inode.tree), fm.free, inode.tree)
  {
    hide Took, CanGrow, Available, Spares, Ready, Apart, DataSectors, Total, Separate, InRange, Raw, ChangedWithin, Zeros, Owned;
    SparesAll(dev.sectors, cache.resident.Keys, fm.free + Owned(inode.tree));
    if end > inode.length {
      ExtendTo(inode, cache, dev, fm, end);
    } else {
      LaidStart(Bytes(inode, cache), 0, [], cache.disk, fm.free + Owned(inode.tree));
      TookNothing(fm.free, inode.tree, fm.free);
      ZerosNone(Bytes(inode, cache));
    }
  }

  /** `inode_write_at`. */
  method WriteAt(inode: Inode, cache: Cache.Cache, dev: BlockDevice, fm: FreeMap.FreeMap, buffer: seq<Byte>, offset: nat)
    returns (bytesWritten: nat)
    requires Ready(inode, cache, dev, fm) && |inode.tree.data| == DataSectors(inode.length)
    requires InRange(inode.tree, |cache.disk|) && Separate(inode.tree)
    requires offset + |buffer| + SECTOR_SIZE - 1 <= OFF_MAX
    requires inode.denyWriteCnt == 0 && inode.length < offset + |buffer| ==>
               CanGrow(cache.resident.Keys, fm.free, |inode.tree.data|, offset + |buffer|)
    modifies inode`tree, inode`directIndex, inode`indirectIndex, inode`doubleIndirectIndex, inode`length, inode`readLength,
             inode.ptr, dev, fm`free, fm.bitmap.elems,
             cache`entries, cache`size, cache`resident, cache`disk, cache.entries
    ensures Ready(inode, cache, dev, fm) && |inode.tree.data| == DataSectors(inode.length)
    ensures InRange(inode.tree, |cache.disk|) && Separate(inode.tree)
    // A file closed to writing is left alone ...
    ensures inode.denyWriteCnt != 0 ==>
              && bytesWritten == 0 && inode.length == old(inode.length) && inode.readLength == old(inode.readLength)
              && inode.tree == old(inode.tree) && cache.disk == old(cache.disk)
    // ... otherwise the file is as long as asked for, as far as the cap allows ...
    ensures inode.denyWriteCnt == 0 ==>
              && inode.length == inode.readLength == LengthAfter(old(inode.length), offset + |buffer|)
              && bytesWritten == Fitting(|buffer|, offset, inode.length)
              && |old(inode.tree).data| <= |inode.tree.data|
              // ... its new sectors read as zeros, and the bytes that fit are laid over the rest ...
              && Laid(old(Bytes(inode, cache)) + Zeros(SECTOR_SIZE * (|inode.tree.data| - |old(inode.tree).data|)),
                      offset, buffer, bytesWritten, Bytes(inode, cache))
    // ... no sector in use by anything else changes, and no sector is lost.
    ensures ChangedWithin(old(cache.disk), cache.disk, old(fm.free) + old(Owned(inode.tree)))
    ensures fm.free + Owned(inode.tree) == old(fm.free) + old(Owned(inode.tree))
    ensures Spares(old(dev.sectors), dev.sectors, old(cache.resident.Keys), cache.resident.Keys, old(fm.free) + old(Owned(inode.tree)))
    ensures LastUsed(cache, inode.tree, offset, bytesWritten, true)
    ensures fresh(set e | e in cache.entries && e !in old(cache.entries))
    ensures cache.resident.Keys <= old(cache.resident.Keys) + Owned(inode.tree)
    ensures Took(old(fm.free), old(inode.tree), fm.free, inode.tree)
  {
    hide LastUsed, Took, CanGrow, Available, Spares, LengthAfter, Fitting, DataSectors, Total, Cache.Cache.CanGet, Sound, Maps, CursorOf, FreeMap.FreeMap.Valid, Cache.Cache.Indexed, Cache.Cache.Shows, Separate, InRange, Coherent, Raw, Splice, Laid, Grown, ChangedWithin, Zeros;
    bytesWritten := 0;
    ghost var st0, disk0 := inode.Now(dev, fm), cache.disk;
    ghost var r0, mine := cache.resident.Keys, fm.free + Owned(inode.tree);
    if inode.denyWriteCnt != 0 {
      TookNothing(fm.free, inode.tree, fm.free);
      NoneUsed(cache, inode.tree, offset, true);
      SparesAll(st0.sectors, r0, mine);
      LaidStart([], 0, [], disk0, st0.free + Owned(st0.tree));
      return;
    }
    ExtendFor(inode, cache, dev, fm, offset + |buffer|);
    ghost var disk1, s1, r1 := cache.disk, dev.sectors, cache.resident.Keys;
    bytesWritten := WriteLoop(inode, cache, dev, fm, buffer, offset);
    ChangedTrans(disk0, disk1, cache.disk, st0.free + Owned(st0.tree), Owned(inode.tree));
    SparesResident(s1, dev.sectors, r1, cache.resident.Keys, Owned(inode.tree));
    assert st0.free + Owned(st0.tree) + Owned(inode.tree) == st0.free + Owned(st0.tree);
    SparesTrans(st0.sectors, s1, dev.sectors, r0, r1, cache.resident.Keys, mine, Owned(inode.tree));
    inode.readLength := inode.length;
  }
}
