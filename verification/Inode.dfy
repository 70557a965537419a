/** In-memory inodes: growth, lookup and deallocation of the block tree
    (`project4/src/filesys/inode.c`).  The three work out the shape of the tree
    independently; here each is proved against the same abstract tree. */
module Inode {
  import opened Basics
  import opened Device
  import opened InodeTree
  import opened Allocation
  import FreeMap

  /** The length `inode_expand` returns for a file of `n` data sectors asked to
      grow to `newLength`: what is asked for, less whole sectors past the cap. */
  function ExpandedLength(newLength: nat): nat {
    newLength - SECTOR_SIZE * (if DataSectors(newLength) > MAX_SECTORS then DataSectors(newLength) - MAX_SECTORS else 0)
  }

  lemma MoreSectors(length: nat, newLength: nat)
    requires length <= newLength
    ensures DataSectors(length) <= DataSectors(newLength)
  {}

  /** The length for `n` sectors, when `rest` could not be had. */
  lemma ExpandedRest(newLength: nat, n: nat, rest: nat)
    requires n + rest == DataSectors(newLength) && n <= MAX_SECTORS && (rest == 0 || n == MAX_SECTORS)
    ensures n == Min(DataSectors(newLength), MAX_SECTORS)
    ensures newLength - rest * SECTOR_SIZE == ExpandedLength(newLength)
  {}

  /** `bytes_to_indirect_sectors`. */
  function IndirectSectors(size: nat): nat {
    if size <= SECTOR_SIZE * DIRECT_BLOCKS then 0
    else (size - SECTOR_SIZE * DIRECT_BLOCKS + SECTOR_SIZE * BLOCK_PTRS - 1) / (SECTOR_SIZE * BLOCK_PTRS)
  }

  /** `bytes_to_double_indirect_sector`. */
  function DoubleIndirectSector(size: nat): nat {
    if size <= SECTOR_SIZE * (DIRECT_BLOCKS + INDIRECT_BLOCKS * BLOCK_PTRS) then 0 else 1
  }

  /** The counts worked out in bytes are those of the tree. */
  lemma SectorCounts(size: nat)
    ensures IndirectSectors(size) == LeafCount(DataSectors(size))
    ensures DoubleIndirectSector(size) == OuterCount(DataSectors(size))
  {}

  /** The on-disk inode as 32-bit words: length, magic, the three cursors, the
      directory flag, the parent, 107 unused words and the pointers. */
  const INODE_MAGIC: Sector := 0x494e4f44
  const PTR_WORD := 114

  /** The words of an on-disk inode describe the file `t`. */
  ghost predicate Stored(words: seq<Sector>, sectors: seq<Block>, free: set<Sector>, t: Tree)
    requires |words| == BLOCK_PTRS
  {
    && DataSectors(words[0]) == |t.data| && Cursor(words[2], words[3], words[4]) == CursorOf(|t.data|)
    && Sound(State(sectors, free, words[PTR_WORD..], t))
  }

  class Inode {
    /** The sector that the inode itself is in. */
    var sector: Sector
    var length: nat
    var readLength: nat
    var denyWriteCnt: nat
    var isDir: bool
    var parent: Sector
    var directIndex: nat
    var indirectIndex: nat
    var doubleIndirectIndex: nat
    const ptr: array<Sector>
    ghost var tree: Tree

    /** The state of a new, empty file (`inode_alloc`); the pointers are whatever
        the memory held. */
    constructor ()
      ensures length == readLength == denyWriteCnt == 0 && tree == EmptyTree
      ensures fresh(ptr) && ptr.Length == INODE_PTRS && CursorIs(0)
    {
      length, readLength, denyWriteCnt := 0, 0, 0;
      sector, isDir, parent := 0, false, 0;
      directIndex, indirectIndex, doubleIndirectIndex := 0, 0, 0;
      ptr := new Sector[INODE_PTRS];
      tree := EmptyTree;
    }

    ghost predicate CursorIs(n: nat)
      reads this`directIndex, this`indirectIndex, this`doubleIndirectIndex
    {
      Cursor(directIndex, indirectIndex, doubleIndirectIndex) == CursorOf(n)
    }

    /** The device and the free map have the same size, and the inode has its
        fourteen pointers. */
    ghost predicate Wired(dev: BlockDevice, fm: FreeMap.FreeMap)
      reads dev, fm, fm.bitmap, fm.bitmap.elems
    {
      ptr.Length == INODE_PTRS && fm.Valid() && fm.bitmap.bitCnt == |dev.sectors|
    }

    ghost function Now(dev: BlockDevice, fm: FreeMap.FreeMap): State
      reads this`tree, ptr, dev, fm
    {
      State(dev.sectors, fm.free, ptr[..], tree)
    }

    /** The pointers, cursor and device together represent `tree`. */
    ghost predicate Valid(dev: BlockDevice, fm: FreeMap.FreeMap)
      reads this`tree, this`directIndex, this`indirectIndex, this`doubleIndirectIndex, ptr, dev, fm, fm.bitmap, fm.bitmap.elems
    {
      Wired(dev, fm) && Sound(Now(dev, fm)) && CursorIs(|tree.data|)
    }

    // ---- byte_to_sector ----

    /** What the pointers on the device lead to. */
    method ByteToSector(dev: BlockDevice, len: int, pos: nat) returns (s: Sector)
      requires ptr.Length == INODE_PTRS && (pos < len ==> CanLookup(dev.sectors, ptr[..], pos))
      ensures s == if pos < len then Lookup(dev.sectors, ptr[..], pos) else NO_SECTOR
    {
      hide Ptrs, PtrAt;
      if pos < len {
        if pos < SECTOR_SIZE * DIRECT_BLOCKS {
          return ptr[pos / SECTOR_SIZE];
        }
        var block := new Sector[BLOCK_PTRS];
        if pos < SECTOR_SIZE * (DIRECT_BLOCKS + INDIRECT_BLOCKS * BLOCK_PTRS) {
          var rest := pos - SECTOR_SIZE * DIRECT_BLOCKS;
          var idx := rest / (SECTOR_SIZE * BLOCK_PTRS) + DIRECT_BLOCKS;
          dev.ReadPtrs(ptr[idx], block);
          rest := rest % (SECTOR_SIZE * BLOCK_PTRS);
          return block[rest / SECTOR_SIZE];
        } else {
          dev.ReadPtrs(ptr[DOUBLE_INDIRECT_INDEX], block);
          var rest := pos - SECTOR_SIZE * (DIRECT_BLOCKS + INDIRECT_BLOCKS * BLOCK_PTRS);
          var idx := rest / (SECTOR_SIZE * BLOCK_PTRS);
          dev.ReadPtrs(block[idx], block);
          rest := rest % (SECTOR_SIZE * BLOCK_PTRS);
          return block[rest / SECTOR_SIZE];
        }
      } else {
        return NO_SECTOR;
      }
    }

    /** For a file in order that is entry pos/512 of its sectors. */
    lemma LookupHere(dev: BlockDevice, fm: FreeMap.FreeMap, len: int, pos: nat)
      requires Valid(dev, fm) && 0 <= len && DataSectors(len) <= |tree.data| && pos < len
      ensures CanLookup(dev.sectors, ptr[..], pos) && pos / SECTOR_SIZE < |tree.data|
      ensures Lookup(dev.sectors, ptr[..], pos) == tree.data[pos / SECTOR_SIZE]
    {
      hide Apart, LeavesOk, OuterOk, FreeMap.FreeMap.Valid, Lookup, CanLookup;
      LookupIs(dev.sectors, ptr[..], tree, pos);
    }

    // ---- inode_expand ----

    /** `free_map_allocate` of a data sector followed by the write of zeros to it. */
    method AddDataSector(dev: BlockDevice, fm: FreeMap.FreeMap) returns (s: Sector)
      requires Wired(dev, fm) && fm.free != {}
      modifies this`tree, dev, fm`free, fm.bitmap.elems
      ensures Wired(dev, fm) && IsLeast(old(fm.free), s) && s < |dev.sectors|
      ensures Now(dev, fm) == AddData(old(Now(dev, fm)), s)
    {
      var ok;
      ok, s := fm.AllocateOne();
      dev.Write(s, ZeroBlock());
      tree := tree.(data := tree.data + [s], roles := tree.roles[s := Data(|tree.data|)]);
    }

    /** The loop that both index-block functions run over the entries of one block,
        from entry `start` on: a data sector is allocated and zeroed for each. */
    method FillBlock(dev: BlockDevice, fm: FreeMap.FreeMap, block: array<Sector>, start: nat, newDataSectors: nat,
                     ghost st0: State, ghost base: nat, ghost goal: nat)
      returns (filled: nat, rest: nat)
      requires Wired(dev, fm) && block.Length == BLOCK_PTRS && block != ptr
      requires start < BLOCK_PTRS && 0 < newDataSectors && |tree.data| == base + start
      requires goal == Min(|tree.data| + newDataSectors, MAX_SECTORS)
      requires Filling(st0, Now(dev, fm), base, start, block[..]) && base + BLOCK_PTRS <= MAX_SECTORS
      requires |tree.outer| == OuterCount(base + 1) && |tree.index| == LeafCount(base + 1)
      requires |fm.free| >= Total(goal) - Size(tree)
      modifies this`tree, block, dev, fm`free, fm.bitmap.elems
      ensures Wired(dev, fm) && tree.outer == old(tree).outer && tree.index == old(tree).index
      ensures start < filled <= BLOCK_PTRS && filled + rest == start + newDataSectors
      ensures rest == 0 || filled == BLOCK_PTRS
      ensures |tree.data| == base + filled && |fm.free| >= Total(goal) - Size(tree)
      ensures Filling(st0, Now(dev, fm), base, filled, block[..])
    {
      hide Grown, Apart, PtrOk, LeavesOk, OuterOk, Filling, Ptrs, ZeroBlock, FreeMap.FreeMap.Valid, PtrAt;
      filled, rest := start, newDataSectors;
      while filled < BLOCK_PTRS
        invariant Wired(dev, fm) && 0 < rest && start <= filled <= BLOCK_PTRS && filled + rest == start + newDataSectors
        invariant filled == BLOCK_PTRS ==> start < filled
        invariant tree.outer == old(tree).outer && tree.index == old(tree).index && |tree.data| == base + filled
        invariant Filling(st0, Now(dev, fm), base, filled, block[..])
        invariant |fm.free| >= Total(goal) - Size(tree)
      {
        ghost var st1, entries := Now(dev, fm), block[..];
        TotalMonotone(base + 1, goal);
        var s := AddDataSector(dev, fm);
        FillStep(st0, st1, base, filled, entries, s);
        block[filled] := s;
        assert block[..] == entries[filled := s];
        filled := filled + 1;
        rest := rest - 1;
        if rest == 0 {
          break;
        }
      }
    }

    /** `inode_expand_indirect_block`: fills the single-indirect block at
        `directIndex`, from `indirectIndex` on. */
    method ExpandIndirectBlock(dev: BlockDevice, fm: FreeMap.FreeMap, newDataSectors: nat) returns (rest: nat)
      requires Valid(dev, fm) && 0 < newDataSectors
      requires DIRECT_BLOCKS <= directIndex < DOUBLE_INDIRECT_INDEX
      requires |fm.free| >= Total(Min(|tree.data| + newDataSectors, MAX_SECTORS)) - Size(tree)
      modifies this`tree, this`directIndex, this`indirectIndex, ptr, dev, fm`free, fm.bitmap.elems
      ensures Valid(dev, fm) && rest < newDataSectors
      ensures |tree.data| + rest == |old(tree).data| + newDataSectors
      ensures rest == 0 || |tree.data| == DIRECT_BLOCKS + BLOCK_PTRS * (old(directIndex) - DIRECT_BLOCKS + 1)
      ensures Grown(old(Now(dev, fm)), Now(dev, fm))
    {
      hide Grown, Apart, PtrOk, LeavesOk, OuterOk, Filling, Sound, Ptrs, ZeroBlock, CursorOf, FreeMap.FreeMap.Valid, PtrAt;
      ghost var goal := Min(|tree.data| + newDataSectors, MAX_SECTORS);
      ghost var st0 := Now(dev, fm);
      ghost var m := directIndex - DIRECT_BLOCKS;
      ghost var base := DIRECT_BLOCKS + BLOCK_PTRS * m;
      var block := new Sector[BLOCK_PTRS];
      SingleStart(st0, Cursor(directIndex, indirectIndex, doubleIndirectIndex));
      TotalMonotone(base + 1, goal);
      if indirectIndex == 0 {
        var ok, s := fm.AllocateOne();
        ptr[directIndex] := s;
        tree := tree.(index := tree.index + [s], roles := tree.roles[s := Index(|tree.index|)]);
        SingleNew(st0, m, s, block[..]);
      } else {
        dev.ReadPtrs(ptr[directIndex], block);
        SingleOld(st0, m, indirectIndex, block[..]);
      }
      indirectIndex, rest := FillBlock(dev, fm, block, indirectIndex, newDataSectors, st0, base, goal);
      ghost var st2 := Now(dev, fm);
      SingleBlock(st0, st2, m, indirectIndex, block[..]);
      dev.WritePtrs(ptr[directIndex], block);
      SingleEnd(st0, st2, m, indirectIndex, block[..], dev.sectors[ptr[directIndex]]);
      ghost var st3 := Now(dev, fm);
      assert Sound(st3) && Grown(st0, st3);
      if indirectIndex == BLOCK_PTRS {
        indirectIndex, directIndex := 0, directIndex + 1;
      }
      assert Now(dev, fm) == st3;
    }

    /** The start of `inode_expand_double_indirect_block_lvl_two`: the block to fill is
        allocated, or read back if it is partly filled. */
    method OpenInnerBlock(dev: BlockDevice, fm: FreeMap.FreeMap, outer: array<Sector>, block: array<Sector>)
      requires Wired(dev, fm) && outer.Length == block.Length == BLOCK_PTRS && outer != ptr && block != ptr && block != outer
      requires InnerOk(Now(dev, fm), outer[..]) && CursorIs(|tree.data|) && indirectIndex < BLOCK_PTRS && fm.free != {}
      modifies this`tree, outer, block, fm`free, fm.bitmap.elems
      ensures Wired(dev, fm) && OuterOk(outer[..], tree) && tree.outer == old(tree).outer && tree.data == old(tree).data
      ensures Filling(old(Now(dev, fm)), Now(dev, fm), DOUBLE_BASE + BLOCK_PTRS * indirectIndex, doubleIndirectIndex, block[..])
      ensures |fm.free| + Size(tree) == |old(fm.free)| + Size(old(tree))
    {
      hide Grown, Apart, PtrOk, LeavesOk, Filling, InnerOk, Ptrs, ZeroBlock, CursorOf, FreeMap.FreeMap.Valid, PtrAt;
      ghost var st0, outer0 := Now(dev, fm), outer[..];
      InnerStart(st0, outer[..], Cursor(directIndex, indirectIndex, doubleIndirectIndex));
      if doubleIndirectIndex == 0 {
        var ok, s := fm.AllocateOne();
        outer[indirectIndex] := s;
        tree := tree.(index := tree.index + [s], roles := tree.roles[s := Index(|tree.index|)]);
        InnerNew(st0, outer0, indirectIndex, s, block[..]);
        assert outer[..] == outer0[indirectIndex := s];
      } else {
        dev.ReadPtrs(outer[indirectIndex], block);
        InnerOld(st0, outer[..], indirectIndex, doubleIndirectIndex, block[..]);
        InnerOuter(st0, outer[..]);
      }
    }

    /** `inode_expand_double_indirect_block_lvl_two`: fills the second-level block
        that entry `indirectIndex` of the double-indirect block names; that block
        is in the caller's memory. */
    method ExpandInnerBlock(dev: BlockDevice, fm: FreeMap.FreeMap, newDataSectors: nat, outer: array<Sector>) returns (rest: nat)
      requires Wired(dev, fm) && outer.Length == BLOCK_PTRS && outer != ptr && 0 < newDataSectors
      requires InnerOk(Now(dev, fm), outer[..]) && CursorIs(|tree.data|) && indirectIndex < BLOCK_PTRS
      requires |fm.free| >= Total(Min(|tree.data| + newDataSectors, MAX_SECTORS)) - Size(tree)
      modifies this`tree, this`indirectIndex, this`doubleIndirectIndex, outer, dev, fm`free, fm.bitmap.elems
      ensures Wired(dev, fm) && InnerOk(Now(dev, fm), outer[..]) && CursorIs(|tree.data|)
      ensures rest < newDataSectors && |tree.data| + rest == |old(tree).data| + newDataSectors
      ensures rest == 0 || (doubleIndirectIndex == 0 && indirectIndex == old(indirectIndex) + 1)
      ensures Grown(old(Now(dev, fm)), Now(dev, fm))
    {
      hide Grown, Apart, PtrOk, LeavesOk, OuterOk, Filling, InnerOk, Ptrs, ZeroBlock, CursorOf, FreeMap.FreeMap.Valid, PtrAt;
      ghost var goal := Min(|tree.data| + newDataSectors, MAX_SECTORS);
      ghost var st0 := Now(dev, fm);
      ghost var m := indirectIndex;
      ghost var base := DOUBLE_BASE + BLOCK_PTRS * m;
      var block := new Sector[BLOCK_PTRS];
      InnerStart(st0, outer[..], Cursor(directIndex, indirectIndex, doubleIndirectIndex));
      TotalMonotone(base + 1, goal);
      OpenInnerBlock(dev, fm, outer, block);
      ghost var st1 := Now(dev, fm);
      FillingSizes(st0, st1, base, doubleIndirectIndex, block[..]);
      doubleIndirectIndex, rest := FillBlock(dev, fm, block, doubleIndirectIndex, newDataSectors, st0, base, goal);
      OuterSame(outer[..], st1.tree, tree);
      CloseInnerBlock(dev, fm, outer, block, st0);
    }

    /** Its end: the block is written, and the cursor moves on if it is full. */
    method CloseInnerBlock(dev: BlockDevice, fm: FreeMap.FreeMap, outer: array<Sector>, block: array<Sector>, ghost st0: State)
      requires Wired(dev, fm) && outer.Length == block.Length == BLOCK_PTRS && |tree.outer| == 1 && OuterOk(outer[..], tree)
      requires directIndex == DOUBLE_INDIRECT_INDEX && indirectIndex < BLOCK_PTRS && 0 < doubleIndirectIndex <= BLOCK_PTRS
      requires Filling(st0, Now(dev, fm), DOUBLE_BASE + BLOCK_PTRS * indirectIndex, doubleIndirectIndex, block[..])
      modifies this`indirectIndex, this`doubleIndirectIndex, dev
      ensures Wired(dev, fm) && InnerOk(Now(dev, fm), outer[..]) && CursorIs(|tree.data|) && Grown(st0, Now(dev, fm))
      ensures if old(doubleIndirectIndex) < BLOCK_PTRS then
                indirectIndex == old(indirectIndex) && doubleIndirectIndex == old(doubleIndirectIndex)
              else indirectIndex == old(indirectIndex) + 1 && doubleIndirectIndex == 0
    {
      hide Grown, OuterOk, Filling, InnerOk, Ptrs, CursorOf, FreeMap.FreeMap.Valid, PtrAt;
      ghost var st2, m := Now(dev, fm), indirectIndex;
      InnerBlock(st0, st2, outer[..], m, doubleIndirectIndex, block[..]);
      dev.WritePtrs(outer[indirectIndex], block);
      InnerEnd(st0, st2, outer[..], m, doubleIndirectIndex, block[..], dev.sectors[outer[indirectIndex]]);
      ghost var st3 := Now(dev, fm);
      assert InnerOk(st3, outer[..]) && Grown(st0, st3);
      if doubleIndirectIndex == BLOCK_PTRS {
        doubleIndirectIndex, indirectIndex := 0, indirectIndex + 1;
      }
      assert Now(dev, fm) == st3;
    }

    /** The loop of `inode_expand_double_indirect_block`, with the double-indirect
        block in `outer`. */
    method FillOuterBlock(dev: BlockDevice, fm: FreeMap.FreeMap, newDataSectors: nat, outer: array<Sector>) returns (rest: nat)
      requires Wired(dev, fm) && outer.Length == BLOCK_PTRS && outer != ptr && 0 < newDataSectors
      requires InnerOk(Now(dev, fm), outer[..]) && CursorIs(|tree.data|)
      requires |fm.free| >= Total(Min(|tree.data| + newDataSectors, MAX_SECTORS)) - Size(tree)
      modifies this`tree, this`indirectIndex, this`doubleIndirectIndex, outer, dev, fm`free, fm.bitmap.elems
      ensures Wired(dev, fm) && InnerOk(Now(dev, fm), outer[..]) && CursorIs(|tree.data|)
      ensures |tree.data| + rest == |old(tree).data| + newDataSectors && DOUBLE_BASE < |tree.data| <= MAX_SECTORS
      ensures rest == 0 || |tree.data| == MAX_SECTORS
      ensures Grown(old(Now(dev, fm)), Now(dev, fm))
    {
      hide Grown, Apart, PtrOk, LeavesOk, OuterOk, InnerOk, CursorOf, FreeMap.FreeMap.Valid;
      ghost var st0 := Now(dev, fm);
      rest := newDataSectors;
      InnerParts(st0, outer[..]);
      GrownRefl(st0);
      CursorRanges(|tree.data|, Cursor(directIndex, indirectIndex, doubleIndirectIndex));
      while indirectIndex < BLOCK_PTRS
        invariant Wired(dev, fm) && InnerOk(Now(dev, fm), outer[..]) && CursorIs(|tree.data|) && 0 < rest
        invariant |tree.data| + rest == |st0.tree.data| + newDataSectors && DOUBLE_BASE <= |tree.data| <= MAX_SECTORS
        invariant indirectIndex <= BLOCK_PTRS && |tree.data| == DOUBLE_BASE + BLOCK_PTRS * indirectIndex + doubleIndirectIndex
        invariant indirectIndex == BLOCK_PTRS ==> doubleIndirectIndex == 0
        invariant Grown(st0, Now(dev, fm))
      {
        ghost var st1 := Now(dev, fm);
        InnerParts(st1, outer[..]);
        GrownSizes(st0, st1);
        rest := ExpandInnerBlock(dev, fm, rest, outer);
        InnerParts(Now(dev, fm), outer[..]);
        GrownTrans(st0, st1, Now(dev, fm));
        CursorRanges(|tree.data|, Cursor(directIndex, indirectIndex, doubleIndirectIndex));
        if rest == 0 {
          break;
        }
      }
    }

    /** `inode_expand_double_indirect_block`. */
    method ExpandDoubleBlock(dev: BlockDevice, fm: FreeMap.FreeMap, newDataSectors: nat) returns (rest: nat)
      requires Valid(dev, fm) && 0 < newDataSectors && directIndex == DOUBLE_INDIRECT_INDEX
      requires |fm.free| >= Total(Min(|tree.data| + newDataSectors, MAX_SECTORS)) - Size(tree)
      modifies this`tree, this`indirectIndex, this`doubleIndirectIndex, ptr, dev, fm`free, fm.bitmap.elems
      ensures Valid(dev, fm) && |tree.data| + rest == |old(tree).data| + newDataSectors
      ensures rest == 0 || |tree.data| == MAX_SECTORS
      ensures Grown(old(Now(dev, fm)), Now(dev, fm))
    {
      hide Grown, Apart, PtrOk, LeavesOk, OuterOk, InnerOk, Sound, Ptrs, CursorOf, FreeMap.FreeMap.Valid;
      ghost var goal := Min(|tree.data| + newDataSectors, MAX_SECTORS);
      ghost var st0 := Now(dev, fm);
      var block := new Sector[BLOCK_PTRS];
      SoundParts(st0);
      CursorRanges(|tree.data|, Cursor(directIndex, indirectIndex, doubleIndirectIndex));
      if doubleIndirectIndex == 0 && indirectIndex == 0 {
        TotalMonotone(|tree.data|, goal);
        var ok, s := fm.AllocateOne();
        ptr[directIndex] := s;
        tree := tree.(outer := [s], roles := tree.roles[s := Outer]);
        OuterNew(st0, s, block[..]);
      } else {
        OuterOld(st0);
        dev.ReadPtrs(ptr[directIndex], block);
      }
      ghost var st1 := Now(dev, fm);
      InnerParts(st1, block[..]);
      rest := FillOuterBlock(dev, fm, newDataSectors, block);
      ghost var st2 := Now(dev, fm);
      GrownTrans(st0, st1, st2);
      InnerParts(st2, block[..]);
      dev.WritePtrs(ptr[directIndex], block);
      OuterEnd(st0, st2, block[..], dev.sectors[ptr[directIndex]]);
    }

    /** One round of the loop over the direct pointers.  With no sector free, it writes
        zeros to the sector that the unused pointer happens to name. */
    method AddDirectSector(dev: BlockDevice, fm: FreeMap.FreeMap)
      requires Valid(dev, fm) && directIndex < DIRECT_BLOCKS && (fm.free == {} ==> ptr[directIndex] < |dev.sectors|)
      modifies this`tree, this`directIndex, ptr, dev, fm`free, fm.bitmap.elems
      ensures directIndex == old(directIndex) + 1
      ensures old(fm.free) != {} ==>
                Valid(dev, fm) && |tree.data| == |old(tree).data| + 1 && Grown(old(Now(dev, fm)), Now(dev, fm))
      ensures old(fm.free) == {} ==>
                && fm.Valid() && fm.free == {} && tree == old(tree) && ptr[..] == old(ptr[..])
                && dev.sectors == old(dev.sectors)[ptr[old(directIndex)] := ZeroBlock()]
    {
      hide Grown, Apart, PtrOk, LeavesOk, OuterOk, Sound, Ptrs, ZeroBlock, CursorOf, FreeMap.FreeMap.Valid, PtrAt;
      ghost var st0 := Now(dev, fm);
      SoundParts(st0);
      CursorRanges(|tree.data|, Cursor(directIndex, indirectIndex, doubleIndirectIndex));
      var ok, s := fm.AllocateOne();
      if ok {
        ptr[directIndex] := s;
      }
      dev.Write(ptr[directIndex], ZeroBlock());
      if ok {
        tree := tree.(data := tree.data + [s], roles := tree.roles[s := Data(|tree.data|)]);
        DirectStep(st0, s);
      }
      directIndex := directIndex + 1;
    }

    /** The loop of `inode_expand` over the direct pointers. */
    method ExpandDirect(dev: BlockDevice, fm: FreeMap.FreeMap, newDataSectors: nat) returns (rest: nat)
      requires Valid(dev, fm) && 0 < newDataSectors
      requires |fm.free| >= Total(Min(|tree.data| + newDataSectors, MAX_SECTORS)) - Size(tree)
      modifies this`tree, this`directIndex, ptr, dev, fm`free, fm.bitmap.elems
      ensures Valid(dev, fm) && |tree.data| + rest == |old(tree).data| + newDataSectors
      ensures rest == 0 || DIRECT_BLOCKS <= directIndex
      ensures Grown(old(Now(dev, fm)), Now(dev, fm))
    {
      hide Grown, Apart, PtrOk, LeavesOk, OuterOk, Sound, CursorOf, FreeMap.FreeMap.Valid;
      ghost var st0 := Now(dev, fm);
      ghost var goal := Min(|tree.data| + newDataSectors, MAX_SECTORS);
      SoundParts(st0);
      GrownRefl(st0);
      rest := newDataSectors;
      while directIndex < DIRECT_BLOCKS
        invariant Valid(dev, fm) && Grown(st0, Now(dev, fm)) && 0 < rest
        invariant |tree.data| + rest == |st0.tree.data| + newDataSectors
        decreases rest
      {
        ghost var st1 := Now(dev, fm);
        SoundParts(st1);
        GrownSizes(st0, st1);
        CursorRanges(|tree.data|, Cursor(directIndex, indirectIndex, doubleIndirectIndex));
        TotalMonotone(|tree.data|, goal);
        AddDirectSector(dev, fm);
        GrownTrans(st0, st1, Now(dev, fm));
        rest := rest - 1;
        if rest == 0 {
          return;
        }
      }
    }

    /** The loop of `inode_expand` over the single-indirect blocks. */
    method ExpandIndirects(dev: BlockDevice, fm: FreeMap.FreeMap, newDataSectors: nat) returns (rest: nat)
      requires Valid(dev, fm) && 0 < newDataSectors && DIRECT_BLOCKS <= directIndex
      requires |fm.free| >= Total(Min(|tree.data| + newDataSectors, MAX_SECTORS)) - Size(tree)
      modifies this`tree, this`directIndex, this`indirectIndex, ptr, dev, fm`free, fm.bitmap.elems
      ensures Valid(dev, fm) && |tree.data| + rest == |old(tree).data| + newDataSectors
      ensures rest == 0 || directIndex == DOUBLE_INDIRECT_INDEX
      ensures Grown(old(Now(dev, fm)), Now(dev, fm))
    {
      hide Grown, Apart, PtrOk, LeavesOk, OuterOk, Sound, CursorOf, FreeMap.FreeMap.Valid;
      ghost var st0 := Now(dev, fm);
      SoundParts(st0);
      GrownRefl(st0);
      rest := newDataSectors;
      CursorRanges(|tree.data|, Cursor(directIndex, indirectIndex, doubleIndirectIndex));
      while directIndex < DOUBLE_INDIRECT_INDEX
        invariant Valid(dev, fm) && Grown(st0, Now(dev, fm)) && 0 < rest && DIRECT_BLOCKS <= directIndex <= DOUBLE_INDIRECT_INDEX
        invariant |tree.data| + rest == |st0.tree.data| + newDataSectors
        decreases rest
      {
        ghost var st1 := Now(dev, fm);
        SoundParts(st1);
        GrownSizes(st0, st1);
        rest := ExpandIndirectBlock(dev, fm, rest);
        SoundParts(Now(dev, fm));
        GrownTrans(st0, st1, Now(dev, fm));
        CursorRanges(|tree.data|, Cursor(directIndex, indirectIndex, doubleIndirectIndex));
        if rest == 0 {
          return;
        }
      }
    }

    /** `inode_expand`: grows the file, which is at least as long as its sectors
        need, to `newLength` bytes, as far as the cap allows. */
    method Expand(dev: BlockDevice, fm: FreeMap.FreeMap, newLength: nat) returns (len: nat)
      requires Valid(dev, fm) && |tree.data| == DataSectors(length) && length <= newLength
      requires |fm.free| >= Total(Min(DataSectors(newLength), MAX_SECTORS)) - Total(|tree.data|)
      modifies this`tree, this`directIndex, this`indirectIndex, this`doubleIndirectIndex, ptr, dev, fm`free, fm.bitmap.elems
      ensures Valid(dev, fm) && |tree.data| == Min(DataSectors(newLength), MAX_SECTORS)
      ensures len == ExpandedLength(newLength)
      ensures Grown(old(Now(dev, fm)), Now(dev, fm))
    {
      hide Grown, Apart, PtrOk, LeavesOk, OuterOk, Sound, CursorOf, FreeMap.FreeMap.Valid, DataSectors, ExpandedLength, Total, Size;
      ghost var st0 := Now(dev, fm);
      var newDataSectors := DataSectors(newLength) - DataSectors(length);
      MoreSectors(length, newLength);
      SizeIs(st0);
      SoundApart(st0);
      GrownRefl(st0);
      if newDataSectors == 0 {
        ExpandedRest(newLength, |tree.data|, newDataSectors);
        return newLength;
      }
      newDataSectors := ExpandDirect(dev, fm, newDataSectors);
      ghost var st1 := Now(dev, fm);
      SizeIs(st1);
      SoundApart(st1);
      GrownSizes(st0, st1);
      if newDataSectors == 0 {
        ExpandedRest(newLength, |tree.data|, newDataSectors);
        return newLength;
      }
      newDataSectors := ExpandIndirects(dev, fm, newDataSectors);
      ghost var st2 := Now(dev, fm);
      SizeIs(st2);
      SoundApart(st2);
      GrownTrans(st0, st1, st2);
      GrownSizes(st0, st2);
      if newDataSectors == 0 {
        ExpandedRest(newLength, |tree.data|, newDataSectors);
        return newLength;
      }
      if directIndex == DOUBLE_INDIRECT_INDEX {
        newDataSectors := ExpandDoubleBlock(dev, fm, newDataSectors);
        GrownTrans(st0, st2, Now(dev, fm));
        SizeIs(Now(dev, fm));
      }
      ExpandedRest(newLength, |tree.data|, newDataSectors);
      return newLength - newDataSectors * SECTOR_SIZE;
    }

    // ---- inode_dealloc ----

    /** `inode_dealloc_indirect_block` on index block number `m`. */
    method DeallocIndirectBlock(dev: BlockDevice, fm: FreeMap.FreeMap, s: Sector, dataPtrs: nat,
                                ghost st: State, ghost m: nat, ghost o: bool)
      requires Wired(dev, fm) && Sound(st) && st.sectors == dev.sectors && m < |st.tree.index| && s == st.tree.index[m]
      requires dataPtrs == Min(BLOCK_PTRS, |st.tree.data| - (DIRECT_BLOCKS + BLOCK_PTRS * m))
      requires fm.free == st.free + Part(st.tree, DIRECT_BLOCKS + BLOCK_PTRS * m, m, o)
      modifies fm`free, fm.bitmap.elems
      ensures Wired(dev, fm)
      ensures fm.free == st.free + Part(st.tree, DIRECT_BLOCKS + BLOCK_PTRS * m + dataPtrs, m + 1, o)
    {
      hide Sound, Apart, PtrOk, LeavesOk, Part, Ptrs, FreeMap.FreeMap.Valid;
      ghost var base := DIRECT_BLOCKS + BLOCK_PTRS * m;
      SoundParts(st);
      LeafContent(st, m, dataPtrs);
      var block := new Sector[BLOCK_PTRS];
      dev.ReadPtrs(s, block);
      var i := 0;
      while i < dataPtrs
        invariant i <= dataPtrs && Wired(dev, fm) && fm.free == st.free + Part(st.tree, base + i, m, o)
        invariant block[..] == Ptrs(dev.sectors[s])
      {
        ReleaseData(st, base + i, m, o);
        assert block[i] == Ptrs(dev.sectors[s])[i];
        fm.ReleaseOne(block[i]);
        i := i + 1;
      }
      ReleaseIndex(st, base + dataPtrs, m, o);
      fm.ReleaseOne(s);
    }

    /** `inode_dealloc_double_indirect_block`. */
    method DeallocDoubleBlock(dev: BlockDevice, fm: FreeMap.FreeMap, s: Sector, indirectPtrs: nat, dataPtrs: nat, ghost st: State)
      requires Wired(dev, fm) && Sound(st) && st.sectors == dev.sectors && st.tree.outer == [s]
      requires indirectPtrs == |st.tree.index| - INDIRECT_BLOCKS && dataPtrs == |st.tree.data| - DOUBLE_BASE
      requires fm.free == st.free + Part(st.tree, DOUBLE_BASE, INDIRECT_BLOCKS, false)
      modifies fm`free, fm.bitmap.elems
      ensures Wired(dev, fm) && fm.free == st.free + Owned(st.tree)
    {
      hide Sound, Apart, PtrOk, LeavesOk, Part, Ptrs, FreeMap.FreeMap.Valid;
      SoundParts(st);
      OuterContent(st);
      var block := new Sector[BLOCK_PTRS];
      dev.ReadPtrs(s, block);
      var i, rest := 0, dataPtrs;
      while i < indirectPtrs
        invariant i <= indirectPtrs && Wired(dev, fm)
        invariant rest == if i < indirectPtrs then |st.tree.data| - DOUBLE_BASE - BLOCK_PTRS * i else 0
        invariant fm.free == st.free + Part(st.tree, |st.tree.data| - rest, INDIRECT_BLOCKS + i, false)
        invariant block[..] == Ptrs(dev.sectors[s])
      {
        var perBlock := if rest < BLOCK_PTRS then rest else BLOCK_PTRS;
        assert block[i] == Ptrs(dev.sectors[s])[i];
        DeallocIndirectBlock(dev, fm, block[i], perBlock, st, INDIRECT_BLOCKS + i, false);
        rest := rest - perBlock;
        i := i + 1;
      }
      SoundSeparate(st);
      PartAll(st.tree);
      ReleaseOuter(st, |st.tree.data|, |st.tree.index|);
      fm.ReleaseOne(s);
    }

    /** The loop of `inode_dealloc` over the direct pointers. */
    method DeallocDirect(dev: BlockDevice, fm: FreeMap.FreeMap, dataSectors: nat) returns (idx: nat, rest: nat)
      requires Valid(dev, fm) && |tree.data| == dataSectors
      modifies fm`free, fm.bitmap.elems
      ensures Wired(dev, fm) && idx == Min(dataSectors, DIRECT_BLOCKS) && rest + idx == dataSectors
      ensures fm.free == old(fm.free) + Part(tree, idx, 0, false)
    {
      hide Sound, Apart, PtrOk, LeavesOk, Part, CursorOf, FreeMap.FreeMap.Valid;
      ghost var st := Now(dev, fm);
      SoundParts(st);
      SoundSeparate(st);
      PartAll(tree);
      idx, rest := 0, dataSectors;
      while rest != 0 && idx < DIRECT_BLOCKS
        invariant idx <= DIRECT_BLOCKS && rest + idx == |tree.data| && Wired(dev, fm)
        invariant fm.free == st.free + Part(tree, idx, 0, false)
      {
        ReleaseData(st, idx, 0, false);
        DirectEntry(st, idx);
        fm.ReleaseOne(ptr[idx]);
        rest := rest - 1;
        idx := idx + 1;
      }
    }

    /** The loop of `inode_dealloc` over the single-indirect blocks. */
    method DeallocIndirects(dev: BlockDevice, fm: FreeMap.FreeMap, start: nat, dataSectors: nat, indirectSectors: nat, ghost st: State)
      returns (idx: nat, dataLeft: nat, indirectLeft: nat)
      requires Wired(dev, fm) && Sound(st) && st == Now(dev, fm).(free := st.free)
      requires |tree.data| <= MAX_SECTORS && indirectSectors == |tree.index| == LeafCount(|tree.data|)
      requires start == Min(|tree.data|, DIRECT_BLOCKS) && dataSectors == |tree.data| - start
      requires fm.free == st.free + Part(tree, start, 0, false)
      modifies fm`free, fm.bitmap.elems
      ensures Wired(dev, fm) && indirectLeft == |tree.index| - Min(|tree.index|, INDIRECT_BLOCKS)
      ensures indirectLeft > 0 ==> idx == DOUBLE_INDIRECT_INDEX && dataLeft == |tree.data| - DOUBLE_BASE
      ensures indirectLeft == 0 ==> dataLeft == 0
      ensures fm.free == st.free + Part(tree, |tree.data| - dataLeft, Min(|tree.index|, INDIRECT_BLOCKS), false)
    {
      hide LeafCount, Sound, Part, FreeMap.FreeMap.Valid;
      LeafBounds(|tree.data|);
      idx, dataLeft, indirectLeft := start, dataSectors, indirectSectors;
      ghost var m := 0;
      while indirectLeft != 0 && idx < DOUBLE_INDIRECT_INDEX
        invariant Wired(dev, fm) && m <= INDIRECT_BLOCKS && indirectLeft + m == |tree.index|
        invariant |tree.index| > 0 ==> idx == DIRECT_BLOCKS + m
        invariant dataLeft == if indirectLeft == 0 then 0 else |tree.data| - (DIRECT_BLOCKS + BLOCK_PTRS * m)
        invariant fm.free == st.free + Part(tree, |tree.data| - dataLeft, m, false)
      {
        var dataPtrs := if dataLeft < BLOCK_PTRS then dataLeft else BLOCK_PTRS;
        SingleEntry(st, m);
        DeallocIndirectBlock(dev, fm, ptr[idx], dataPtrs, st, m, false);
        dataLeft := dataLeft - dataPtrs;
        indirectLeft := indirectLeft - 1;
        idx := idx + 1;
        m := m + 1;
      }
    }

    /** `inode_dealloc`: works out from the length alone how many sectors of each
        kind there are, and gives back exactly the file's sectors, each once. */
    method Dealloc(dev: BlockDevice, fm: FreeMap.FreeMap)
      requires Valid(dev, fm) && |tree.data| == DataSectors(length)
      modifies fm`free, fm.bitmap.elems
      ensures Wired(dev, fm) && fm.free == old(fm.free) + Owned(tree)
    {
      hide LeafCount, OuterCount, DataSectors, Sound, Apart, PtrOk, LeavesOk, Part, Ptrs, CursorOf, FreeMap.FreeMap.Valid;
      ghost var st := Now(dev, fm);
      SoundParts(st);
      SoundSeparate(st);
      PartAll(tree);
      LeafBounds(|tree.data|);
      SectorCounts(length);
      var indirectSectors := IndirectSectors(length);
      var doubleIndirectSector := DoubleIndirectSector(length);
      var idx, dataSectors := DeallocDirect(dev, fm, DataSectors(length));
      idx, dataSectors, indirectSectors := DeallocIndirects(dev, fm, idx, dataSectors, indirectSectors, st);
      if doubleIndirectSector != 0 {
        OuterContent(st);
        DeallocDoubleBlock(dev, fm, ptr[idx], indirectSectors, dataSectors, st);
      }
    }

    // ---- inode_close and inode_open ----

    /** The end of `inode_close` for a file that stays: the inode goes to its own
        sector, which is none of the file's. */
    method Save(dev: BlockDevice, fm: FreeMap.FreeMap, sector: Sector)
      requires Valid(dev, fm) && |tree.data| == DataSectors(length) && length <= MAX_FILE_SIZE
      requires sector < |dev.sectors| && sector !in Owned(tree)
      modifies dev
      ensures Valid(dev, fm) && |dev.sectors| == |old(dev.sectors)| && dev.sectors == old(dev.sectors)[sector := dev.sectors[sector]]
      ensures Stored(Ptrs(dev.sectors[sector]), dev.sectors, fm.free, tree)
      ensures var w := Ptrs(dev.sectors[sector]);
              && w[0] == length && w[1] == 0x494e4f44 && w[2] == directIndex && w[3] == indirectIndex && w[4] == doubleIndirectIndex
              && (w[5] != 0) == isDir && w[6] == parent && w[114..] == ptr[..]
    {
      hide Sound, Maps, CursorOf, FreeMap.FreeMap.Valid, Ptrs, PtrBlock;
      ghost var st := Now(dev, fm);
      SoundParts(st);
      CursorRanges(|tree.data|, Cursor(directIndex, indirectIndex, doubleIndirectIndex));
      var block := Pack();
      dev.WritePtrs(sector, block);
      OtherSectorWritten(st, sector, dev.sectors);
      assert Now(dev, fm) == st.(sectors := dev.sectors);
    }

    /** The on-disk inode, as `inode_close` lays it out. */
    method Pack() returns (block: array<Sector>)
      requires ptr.Length == INODE_PTRS && length <= MAX_FILE_SIZE
      requires directIndex <= DOUBLE_INDIRECT_INDEX && indirectIndex <= BLOCK_PTRS && doubleIndirectIndex < BLOCK_PTRS
      ensures fresh(block) && block.Length == BLOCK_PTRS && block[PTR_WORD..] == ptr[..]
      ensures block[0] == length && block[1] == INODE_MAGIC && (block[5] != 0) == isDir && block[6] == parent
      ensures block[2] == directIndex && block[3] == indirectIndex && block[4] == doubleIndirectIndex
    {
      block := new Sector[BLOCK_PTRS](_ => 0);
      block[0], block[1], block[2], block[3], block[4] := length, INODE_MAGIC, directIndex, indirectIndex, doubleIndirectIndex;
      block[5], block[6] := if isDir then 1 else 0, parent;
      forall i | 0 <= i < INODE_PTRS {
        block[PTR_WORD + i] := ptr[i];
      }
    }

    /** `inode_open` of a sector that holds the inode of the file `t`. */
    constructor Open(dev: BlockDevice, sector: Sector, ghost fm: FreeMap.FreeMap, ghost t: Tree)
      requires fm.Valid() && fm.bitmap.bitCnt == |dev.sectors| && sector < |dev.sectors|
      requires Stored(Ptrs(dev.sectors[sector]), dev.sectors, fm.free, t)
      ensures Valid(dev, fm) && tree == t && fresh(ptr) && denyWriteCnt == 0 && this.sector == sector
      ensures var w := Ptrs(dev.sectors[sector]);
              && length == readLength == w[0] && directIndex == w[2] && indirectIndex == w[3] && doubleIndirectIndex == w[4]
              && isDir == (w[5] != 0) && parent == w[6] && ptr[..] == w[114..]
    {
      hide Sound, Maps, CursorOf, FreeMap.FreeMap.Valid, PtrAt, PtrBlock;
      var words := Ptrs(dev.sectors[sector]);
      length, readLength, denyWriteCnt := words[0], words[0], 0;
      directIndex, indirectIndex, doubleIndirectIndex := words[2], words[3], words[4];
      this.sector, isDir, parent := sector, words[5] != 0, words[6];
      ptr := new Sector[INODE_PTRS](i requires 0 <= i < INODE_PTRS => words[PTR_WORD + i]);
      tree := t;
      new;
      assert ptr[..] == words[PTR_WORD..];
    }

    /** `inode_alloc`: a new file of `len` zeroed bytes, made of free sectors. */
    static method Alloc(dev: BlockDevice, fm: FreeMap.FreeMap, len: nat) returns (inode: Inode)
      requires fm.Valid() && fm.bitmap.bitCnt == |dev.sectors| && len <= MAX_FILE_SIZE
      requires |fm.free| >= Total(DataSectors(len))
      modifies dev, fm`free, fm.bitmap.elems
      ensures fresh(inode) && fresh(inode.ptr) && inode.Valid(dev, fm) && |inode.tree.data| == DataSectors(len)
      ensures Grown(State(old(dev.sectors), old(fm.free), inode.ptr[..], EmptyTree), inode.Now(dev, fm))
    {
      hide Sound, Maps, CursorOf, FreeMap.FreeMap.Valid, Grown, Apart;
      inode := new Inode();
      ghost var st0 := inode.Now(dev, fm);
      EmptyIsSound(st0);
      var _ := inode.Expand(dev, fm, len);
      GrownFromAnyPtr(st0, inode.Now(dev, fm), inode.ptr[..]);
    }

    /** `inode_create`: a zeroed file of the asked length, at most the size limit,
        whose inode is in `sector`. */
    static method Create(dev: BlockDevice, fm: FreeMap.FreeMap, sector: Sector, len: nat, dir: bool) returns (ok: bool, ghost t: Tree)
      requires fm.Valid() && fm.bitmap.bitCnt == |dev.sectors| && sector < |dev.sectors| && sector !in fm.free
      requires |fm.free| >= Total(DataSectors(Min(len, MAX_FILE_SIZE)))
      modifies dev, fm`free, fm.bitmap.elems
      ensures ok && fm.Valid() && |dev.sectors| == |old(dev.sectors)| && sector !in Owned(t)
      ensures Stored(Ptrs(dev.sectors[sector]), dev.sectors, fm.free, t)
      ensures var w := Ptrs(dev.sectors[sector]);
              w[0] == Min(len, MAX_FILE_SIZE) && (w[5] != 0) == dir && w[6] == FreeMap.ROOT_DIR_SECTOR
      ensures Owned(t) <= old(fm.free) && Took(old(fm.free), EmptyTree, fm.free, t)
      ensures |t.data| == DataSectors(Min(len, MAX_FILE_SIZE))
      ensures forall k :: 0 <= k < |t.data| ==> Zeroed(dev.sectors, t.data[k])
      ensures forall s :: 0 <= s < |dev.sectors| && s !in Owned(t) && s != sector ==> dev.sectors[s] == old(dev.sectors[s])
    {
      hide Took, Sound, Maps, CursorOf, FreeMap.FreeMap.Valid, Ptrs, Stored, Grown, Apart, DataSectors, Total;
      var capped := if len > MAX_FILE_SIZE then MAX_FILE_SIZE else len;
      var inode := Alloc(dev, fm, capped);
      t := inode.tree;
      ghost var st0 := State(old(dev.sectors), old(fm.free), inode.ptr[..], EmptyTree);
      NewFile(st0, inode.Now(dev, fm), sector);
      EmptyIsSound(st0);
      GrownTook(st0, inode.Now(dev, fm));
      inode.length, inode.isDir, inode.parent := capped, dir, FreeMap.ROOT_DIR_SECTOR;
      inode.Save(dev, fm, sector);
      ok := true;
    }
  }
}
