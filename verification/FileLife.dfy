/** What the file system's operations guarantee together: over the whole life of
    a file, for two files side by side, and at the edges where the code keeps
    less than it promises. */
module FileLife {
  import opened Basics
  import opened Device
  import opened InodeTree
  import opened FlatFile
  import opened Inode
  import opened InodeIo
  import opened Allocation
  import Bitmap
  import FreeMap

  // ---- From creation to release ----

  /** The length after extending writes that end at `ends`, in that order. */
  function LengthAfterAll(length: nat, ends: seq<nat>): nat {
    if ends == [] then length else LengthAfter(LengthAfterAll(length, ends[..|ends| - 1]), ends[|ends| - 1])
  }

  /** There are sectors enough for a file as long as any of `ends`. */
  ghost predicate RoomFor(ends: seq<nat>, sectors: int) {
    forall i :: 0 <= i < |ends| ==> sectors >= Total(Min(DataSectors(ends[i]), MAX_SECTORS))
  }

  /** The search for byte `pos` ends at the sector that the tree has for it. */
  ghost predicate Finds(st: State, pos: nat) {
    && pos / SECTOR_SIZE < |st.tree.data| && CanLookup(st.sectors, st.ptr, pos)
    && Lookup(st.sectors, st.ptr, pos) == st.tree.data[pos / SECTOR_SIZE]
  }

  /** However often a file grows: its tree, cursor and length agree, its old sectors are
      kept and the new ones zeroed, and every byte below its length is found in the
      sector that the tree has for it. */
  method GrowAll(inode: Inode, dev: BlockDevice, fm: FreeMap.FreeMap, ends: seq<nat>)
    requires inode.Valid(dev, fm) && |inode.tree.data| == DataSectors(inode.length)
    requires RoomFor(ends, |fm.free| + Size(inode.tree))
    modifies inode`tree, inode`directIndex, inode`indirectIndex, inode`doubleIndirectIndex, inode`length, inode.ptr,
             dev, fm`free, fm.bitmap.elems
    ensures inode.Valid(dev, fm) && |inode.tree.data| == DataSectors(inode.length)
    ensures inode.length == LengthAfterAll(old(inode.length), ends)
    ensures Grown(old(inode.Now(dev, fm)), inode.Now(dev, fm))
    ensures forall pos: nat :: pos < inode.length ==> Finds(inode.Now(dev, fm), pos)
  {
    hide Sound, Grown, Apart, Size, DataSectors, Total, FreeMap.FreeMap.Valid, CursorOf, ExpandedLength, Lookup, CanLookup;
    ghost var st0 := inode.Now(dev, fm);
    SoundApart(st0);
    GrownRefl(st0);
    var i := 0;
    while i < |ends|
      invariant i <= |ends| && inode.Valid(dev, fm) && |inode.tree.data| == DataSectors(inode.length)
      invariant inode.length == LengthAfterAll(old(inode.length), ends[..i])
      invariant Grown(st0, inode.Now(dev, fm)) && RoomFor(ends, |fm.free| + Size(inode.tree))
    {
      ghost var st1 := inode.Now(dev, fm);
      GrowOnce(inode, dev, fm, ends[i]);
      SoundApart(st1);
      GrownTrans(st0, st1, inode.Now(dev, fm));
      assert ends[..i + 1][..i] == ends[..i];
      i := i + 1;
    }
    assert ends[..i] == ends;
    forall pos: nat | pos < inode.length
      ensures Finds(inode.Now(dev, fm), pos)
    {
      inode.LookupHere(dev, fm, inode.length, pos);
    }
  }

  /** The first lines of `inode_write_at` for a write that ends at byte `end`. */
  method GrowOnce(inode: Inode, dev: BlockDevice, fm: FreeMap.FreeMap, end: nat)
    requires inode.Valid(dev, fm) && |inode.tree.data| == DataSectors(inode.length)
    requires |fm.free| + Size(inode.tree) >= Total(Min(DataSectors(end), MAX_SECTORS))
    modifies inode`tree, inode`directIndex, inode`indirectIndex, inode`doubleIndirectIndex, inode`length, inode.ptr,
             dev, fm`free, fm.bitmap.elems
    ensures inode.Valid(dev, fm) && |inode.tree.data| == DataSectors(inode.length)
    ensures inode.length == LengthAfter(old(inode.length), end) && Grown(old(inode.Now(dev, fm)), inode.Now(dev, fm))
    ensures |fm.free| + Size(inode.tree) == |old(fm.free)| + Size(old(inode.tree))
  {
    hide Sound, Grown, Apart, Size, DataSectors, Total, FreeMap.FreeMap.Valid, CursorOf, ExpandedLength;
    ghost var st0 := inode.Now(dev, fm);
    SizeIs(st0);
    SoundApart(st0);
    GrownRefl(st0);
    if end > inode.length {
      inode.length := inode.Expand(dev, fm, end);
      ExpandedSectors(end);
    }
    GrownSizes(st0, inode.Now(dev, fm));
  }

  /** Create, grow any number of times, release: the bitmap is back to what it was bit
      for bit, and no sector in use by anything else was written. */
  method WholeLife(dev: BlockDevice, fm: FreeMap.FreeMap, ends: seq<nat>)
    requires fm.Valid() && fm.bitmap.bitCnt == |dev.sectors| && RoomFor(ends, |fm.free|)
    modifies dev, fm`free, fm.bitmap.elems
    ensures fm.Valid() && fm.free == old(fm.free) && fm.Bits() == old(fm.Bits())
    ensures |dev.sectors| == |old(dev.sectors)|
    ensures forall s :: 0 <= s < |dev.sectors| && s !in fm.free ==> dev.sectors[s] == old(dev.sectors)[s]
  {
    hide Sound, Grown, Total, FreeMap.FreeMap.Valid, CursorOf, LengthAfterAll;
    ghost var bits, free0 := fm.Bits(), fm.free;
    FreeBits(fm);
    var inode := new Inode();
    EmptyIsSound(inode.Now(dev, fm));
    ghost var st0 := inode.Now(dev, fm);
    GrowAll(inode, dev, fm, ends);
    ghost var st1 := inode.Now(dev, fm);
    NewFileFrame(st0, st1);
    inode.Dealloc(dev, fm);
    FreeBits(fm);
    SameBits(bits, fm.Bits(), free0);
  }

  lemma NewFileFrame(a: State, b: State)
    requires a.tree == EmptyTree && Grown(a, b)
    ensures b.free + Owned(b.tree) == a.free && |b.sectors| == |a.sectors|
    ensures forall s :: 0 <= s < |a.sectors| && s !in a.free ==> b.sectors[s] == a.sectors[s]
  {
    GrowthConserves(a, b);
  }

  lemma FreeBits(fm: FreeMap.FreeMap)
    requires fm.Valid()
    ensures fm.free == FreeMap.FreeSectors(fm.Bits()) && |fm.Bits()| == fm.bitmap.bitCnt < Bitmap.BITMAP_ERROR
  {}

  /** The free sectors determine the bitmap. */
  lemma SameBits(p: seq<bool>, q: seq<bool>, free: set<Sector>)
    requires |p| == |q| < Bitmap.BITMAP_ERROR && FreeMap.FreeSectors(p) == free == FreeMap.FreeSectors(q)
    ensures p == q
  {
    forall i | 0 <= i < |p|
      ensures p[i] == q[i]
    {
      assert i in FreeMap.FreeSectors(p) <==> !p[i];
      assert i in FreeMap.FreeSectors(q) <==> !q[i];
    }
  }

  // ---- Two files ----

  /** While one file grows, another one that shares no sector with it stays as it
      is, and goes on sharing none. */
  lemma OtherFileKept(a: State, b: State, ptr: seq<Sector>, t: Tree)
    requires Grown(a, b) && Maps(a.sectors, ptr, t)
    requires forall s :: s in Owned(t) ==> s !in a.free && s !in Owned(a.tree)
    ensures Maps(b.sectors, ptr, t)
    ensures forall s :: s in Owned(t) ==> s !in b.free && s !in Owned(b.tree)
    ensures forall k :: 0 <= k < |t.data| ==> t.data[k] < |a.sectors| && b.sectors[t.data[k]] == a.sectors[t.data[k]]
  {
    forall k | 0 <= k < |t.data|
      ensures t.data[k] < |a.sectors| && b.sectors[t.data[k]] == a.sectors[t.data[k]]
    {
      assert t.roles[t.data[k]] == Data(k);
    }
    MapsFrame(a.sectors, b.sectors, ptr, t);
  }

  /** A write to one file, which changes only sectors that were free or its own,
      leaves the bytes of every file that shares none of them. */
  lemma OtherFileReads(d0: seq<Block>, d1: seq<Block>, changed: set<Sector>, t: Tree)
    requires ChangedWithin(d0, d1, changed) && Separate(t) && InRange(t, |d0|) && changed !! Owned(t)
    ensures forall k :: 0 <= k < |t.data| ==> t.data[k] < |d0|
    ensures Raw(d1, t.data) == Raw(d0, t.data)
  {
    DataInRange(t, |d0|);
    forall k | 0 <= k < |t.data|
      ensures d1[t.data[k]] == d0[t.data[k]]
    {
      assert t.roles[t.data[k]] == Data(k);
    }
    RawFrame(d0, d1, t.data);
  }

  // ---- The flat file ----

  /** The sector-level effect of `inode_write_at` is the flat write as far as the
      file's new length goes: what was written reads back, the rest of the file is as
      before and gaps read as zeros.  Unless the file has become shorter, the unused end
      of the last sector stays zero. */
  lemma WriteIsFlat(before: seq<Byte>, length: nat, offset: nat, b: seq<Byte>, bytes: seq<Byte>)
    requires TailZero(before, length) && |before| == SECTOR_SIZE * DataSectors(length) && length <= MAX_FILE_SIZE
    requires var length' := LengthAfter(length, offset + |b|);
             && DataSectors(length) <= DataSectors(length')
             && Laid(before + Zeros(SECTOR_SIZE * (DataSectors(length') - DataSectors(length))), offset, b, Fitting(|b|, offset, length'), bytes)
    ensures var length' := LengthAfter(length, offset + |b|);
            && length' <= |bytes| && length' <= |FlatFile.Write(before[..length], offset, b)|
            && bytes[..length'] == FlatFile.Write(before[..length], offset, b)[..length']
            && (length <= length' ==> TailZero(bytes, length'))
  {
    hide FlatFile.Write, Splice;
    var length' := LengthAfter(length, offset + |b|);
    var grown := SECTOR_SIZE * (DataSectors(length') - DataSectors(length));
    WriteEffect(before[..length], offset, b);
    LengthFits(length, offset + |b|);
    SpliceIsWrite(before, length, grown, offset, b, length', Fitting(|b|, offset, length'));
  }

  lemma LengthFits(length: nat, end: nat)
    requires length <= MAX_FILE_SIZE
    ensures LengthAfter(length, end) <= (if length < end then end else length)
    ensures LengthAfter(length, end) <= SECTOR_SIZE * DataSectors(LengthAfter(length, end))
    ensures LengthAfter(length, end) <= MAX_FILE_SIZE && DataSectors(length) <= DataSectors(LengthAfter(length, end))
    ensures end <= MAX_FILE_SIZE ==> LengthAfter(length, end) == if length < end then end else length
  {}

  /** So a read of what was just written returns it, as far as it was written; within
      the size limit that is all of it. */
  lemma ReadsBack(before: seq<Byte>, length: nat, offset: nat, b: seq<Byte>, bytes: seq<Byte>)
    requires TailZero(before, length) && |before| == SECTOR_SIZE * DataSectors(length) && length <= MAX_FILE_SIZE
    requires var length' := LengthAfter(length, offset + |b|);
             && DataSectors(length) <= DataSectors(length')
             && Laid(before + Zeros(SECTOR_SIZE * (DataSectors(length') - DataSectors(length))), offset, b, Fitting(|b|, offset, length'), bytes)
    ensures var length' := LengthAfter(length, offset + |b|);
            var n := Fitting(|b|, offset, length');
            && length' <= |bytes| && n <= |b| && FlatFile.Read(bytes[..length'], offset, |b|) == b[..n]
            && (offset + |b| <= MAX_FILE_SIZE ==> n == |b|)
  {
    var length' := LengthAfter(length, offset + |b|);
    var n := Fitting(|b|, offset, length');
    WriteIsFlat(before, length, offset, b, bytes);
    LengthFits(length, offset + |b|);
    ReadCut(before[..length], offset, b, bytes[..length'], n);
  }

  lemma ReadCut(f: seq<Byte>, offset: nat, b: seq<Byte>, g: seq<Byte>, n: nat)
    requires |g| <= |FlatFile.Write(f, offset, b)| && g == FlatFile.Write(f, offset, b)[..|g|] && n == Fitting(|b|, offset, |g|)
    ensures n <= |b| && FlatFile.Read(g, offset, |b|) == b[..n]
  {
    ReadAfterWrite(f, offset, b);
  }

  // ---- At the size limit ----

  /** Asked to pass the size limit, `inode_expand` ends at the limit if and only if
      the excess is whole sectors; else it ends below it. */
  lemma LimitReached(newLength: nat)
    ensures ExpandedLength(newLength) == Min(newLength, MAX_FILE_SIZE) <==> newLength <= MAX_FILE_SIZE || newLength % SECTOR_SIZE == 0
    ensures ExpandedLength(newLength) <= MAX_FILE_SIZE
  {}

  /** So a write that ends past the limit can shorten a full file. */
  lemma FullFileShrinks()
    ensures LengthAfter(MAX_FILE_SIZE, MAX_FILE_SIZE + 1) == MAX_FILE_SIZE - 511
  {}

  /** A write does not shorten a file if and only if the end of the write is within
      the limit, or is whole sectors past it, or the file is short enough. */
  lemma NeverShortens(length: nat, end: nat)
    requires length <= MAX_FILE_SIZE
    ensures length <= LengthAfter(length, end) <==>
              end <= MAX_FILE_SIZE || end % SECTOR_SIZE == 0 || length <= MAX_FILE_SIZE - SECTOR_SIZE + end % SECTOR_SIZE
  {}
}
