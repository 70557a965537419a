/** What becomes of sectors that stay in the cache after their file is released
    (`inode_dealloc`, `project4/src/filesys/inode.c`, lines 453 to 511, does not take
    them out), once another file grows onto them past the cache: their old content is
    read in place of zeros, and a flush or an eviction writes it over index blocks. */
module StaleCache {
  import opened Basics
  import opened Device
  import opened InodeTree
  import opened Allocation
  import opened FlatFile
  import opened Inode
  import opened InodeIo
  import FreeMap
  import Cache

  /** A file that grows from `n0` to `n1` data sectors gets the sector `x` for data. */
  ghost predicate WillBeData(free: set<Sector>, x: Sector, n0: nat, n1: nat) {
    Taken(free, x, n0, n1) && RoleToBe(free, x, n0).Data?
  }

  /** It gets it as one of its index blocks. */
  ghost predicate WillBeIndex(free: set<Sector>, x: Sector, n0: nat, n1: nat) {
    Taken(free, x, n0, n1) && !RoleToBe(free, x, n0).Data?
  }

  ghost predicate NewData(a: State, b: State, x: Sector) {
    exists k :: |a.tree.data| <= k < |b.tree.data| && b.tree.data[k] == x
  }

  lemma NewDataIs(a: State, b: State, x: Sector)
    requires Sound(a) && Sound(b) && Grown(a, b)
    ensures NewData(a, b, x) <==> IsNew(a, b, x) && b.tree.roles[x].Data?
  {
    if IsNew(a, b, x) && b.tree.roles[x].Data? {
      assert Listed(b.tree, x, b.tree.roles[x]);
      assert b.tree.data[b.tree.roles[x].k] == x;
    }
    if NewData(a, b, x) {
      var k :| |a.tree.data| <= k < |b.tree.data| && b.tree.data[k] == x;
      assert b.tree.roles[x] == Data(k);
      assert x in a.tree.roles ==> Listed(a.tree, x, a.tree.roles[x]);
    }
  }

  /** What growth makes of a sector can be told before it. */
  lemma Foreseen(a: State, b: State, x: Sector)
    requires Sound(a) && Sound(b) && Grown(a, b)
    ensures WillBeData(a.free, x, |a.tree.data|, |b.tree.data|) <==> NewData(a, b, x)
    ensures WillBeIndex(a.free, x, |a.tree.data|, |b.tree.data|) <==> IsNew(a, b, x) && IsIndexBlock(b.tree, x)
  {
    hide Sound, Grown, Taken, RoleToBe, NewData;
    TakenIs(a, b, x);
    NewDataIs(a, b, x);
  }

  // ---- New sectors read as zeros ----

  /** The sectors that are in the cache with anything but zeros. */
  ghost function Marked(resident: set<Sector>, disk: seq<Block>): set<Sector> {
    set x | x in resident && x < |disk| && disk[x] != ZeroBlock()
  }

  /** None of them is about to be taken for data. */
  ghost predicate Clear(free: set<Sector>, marked: set<Sector>, n0: nat, n1: nat) {
    forall x :: x in marked ==> !WillBeData(free, x, n0, n1)
  }

  /** What a request for sector `x` is given: the resident block, or the device's. */
  ghost function Served(resident: set<Sector>, cached: seq<Block>, sectors: seq<Block>, x: Sector): Block
    requires x < |cached| == |sectors|
  {
    if x in resident then cached[x] else sectors[x]
  }

  /** The new sectors of a file read as zeros if and only if the cache was clear of the
      sectors that the free map was about to give. */
  lemma NewSectorsReadZero(a: State, b: State, resident: set<Sector>, disk: seq<Block>)
    requires Sound(a) && Sound(b) && Grown(a, b) && |disk| == |a.sectors|
    ensures |b.sectors| == |a.sectors| && forall k :: 0 <= k < |b.tree.data| ==> b.tree.data[k] < |disk|
    ensures (forall k :: |a.tree.data| <= k < |b.tree.data| ==> Served(resident, disk, b.sectors, b.tree.data[k]) == ZeroBlock())
       <==> Clear(a.free, Marked(resident, disk), |a.tree.data|, |b.tree.data|)
  {
    hide Sound, Grown, WillBeData, WillBeIndex, ZeroBlock, NewData;
    SoundRange(b);
    GrownSizes(a, b);
    forall x: Sector
      ensures WillBeData(a.free, x, |a.tree.data|, |b.tree.data|) <==> NewData(a, b, x)
    {
      Foreseen(a, b, x);
    }
    ZeroIff(a, b, resident, disk);
  }

  lemma ZeroIff(a: State, b: State, resident: set<Sector>, disk: seq<Block>)
    requires Grown(a, b) && |disk| == |b.sectors| && (forall k :: 0 <= k < |b.tree.data| ==> b.tree.data[k] < |disk|)
    requires forall x: Sector :: WillBeData(a.free, x, |a.tree.data|, |b.tree.data|) <==> NewData(a, b, x)
    ensures (forall k :: |a.tree.data| <= k < |b.tree.data| ==> Served(resident, disk, b.sectors, b.tree.data[k]) == ZeroBlock())
       <==> Clear(a.free, Marked(resident, disk), |a.tree.data|, |b.tree.data|)
  {
    hide Grown, WillBeData, ZeroBlock;
    forall k | |a.tree.data| <= k < |b.tree.data|
      ensures b.sectors[b.tree.data[k]] == ZeroBlock() && NewData(a, b, b.tree.data[k])
    {
      NewZeroed(a, b, k);
    }
  }

  lemma NewZeroed(a: State, b: State, k: nat)
    requires Grown(a, b) && |a.tree.data| <= k < |b.tree.data|
    ensures b.tree.data[k] < |b.sectors| && b.sectors[b.tree.data[k]] == ZeroBlock()
  {
    hide Orderly;
    assert Zeroed(b.sectors, b.tree.data[k]);
  }

  /** What the cache gives for a sector, in order or not. */
  ghost function ServedNow(cache: Cache.Cache, dev: BlockDevice, x: Sector): Block
    requires x < |dev.sectors|
    reads cache, cache.entries, dev
  {
    if x in cache.resident && cache.resident[x] < |cache.entries| then cache.entries[cache.resident[x]].block else dev.sectors[x]
  }

  // ---- Index blocks stay ----

  /** Some sector of `dirt` is about to be taken for an index block. */
  ghost predicate Threatened(free: set<Sector>, dirt: set<Sector>, n0: nat, n1: nat) {
    exists x :: x in dirt && WillBeIndex(free, x, n0, n1)
  }

  ghost predicate HitsIndex(dirt: set<Sector>, t: Tree) {
    exists x :: x in dirt && IsIndexBlock(t, x)
  }

  /** A dirty block of the cache has become an index block of the file if and only if
      one was about to. */
  lemma HitsIffThreatened(a: State, b: State, dirt: set<Sector>)
    requires Sound(a) && Sound(b) && Grown(a, b) && !HitsIndex(dirt, a.tree)
    ensures HitsIndex(dirt, b.tree) <==> Threatened(a.free, dirt, |a.tree.data|, |b.tree.data|)
  {
    hide Sound, Grown, WillBeIndex, WillBeData, NewData, IsIndexBlock;
    forall x | x in dirt
      ensures WillBeIndex(a.free, x, |a.tree.data|, |b.tree.data|) <==> IsIndexBlock(b.tree, x)
    {
      Foreseen(a, b, x);
      if !IsNew(a, b, x) {
        OldRoles(a, b, x);
      }
    }
  }

  lemma OldRoles(a: State, b: State, x: Sector)
    requires Grown(a, b) && !IsIndexBlock(a.tree, x) && !IsNew(a, b, x)
    ensures !IsIndexBlock(b.tree, x)
  {
    hide Orderly;
  }

  /** `inode_expand` with any sectors in the cache: the file's tree is as it should be,
      and from the free map, the lengths and the cache before the call it can be told
      whether the new sectors read as zeros, and whether a dirty block of the cache is
      of a sector that is now an index block. */
  method ExpandOver(inode: Inode, cache: Cache.Cache, dev: BlockDevice, fm: FreeMap.FreeMap, newLength: nat)
    requires inode.Valid(dev, fm) && cache.Valid(dev)
    requires |inode.tree.data| == DataSectors(inode.length) && inode.length <= newLength
    requires |fm.free| >= Total(Min(DataSectors(newLength), MAX_SECTORS)) - Total(|inode.tree.data|)
    modifies inode`tree, inode`directIndex, inode`indirectIndex, inode`doubleIndirectIndex, inode`length, inode.ptr,
             dev, fm`free, fm.bitmap.elems
    ensures inode.Valid(dev, fm) && |inode.tree.data| == Min(DataSectors(newLength), MAX_SECTORS)
    ensures inode.length == ExpandedLength(newLength) && Grown(old(inode.Now(dev, fm)), inode.Now(dev, fm))
    ensures |cache.disk| == |dev.sectors| && forall k :: 0 <= k < |inode.tree.data| ==> inode.tree.data[k] < |dev.sectors|
    ensures (forall k :: |old(inode.tree).data| <= k < |inode.tree.data| ==> ServedNow(cache, dev, inode.tree.data[k]) == ZeroBlock())
       <==> Clear(old(fm.free), Marked(cache.resident.Keys, cache.disk), |old(inode.tree).data|, |inode.tree.data|)
    ensures !HitsIndex(cache.DirtySectors(), old(inode.tree)) ==>
              (HitsIndex(cache.DirtySectors(), inode.tree) <==>
               Threatened(old(fm.free), cache.DirtySectors(), |old(inode.tree).data|, |inode.tree.data|))
  {
    hide Cache.Cache.DirtySectors, HitsIndex, Threatened, Marked, DataSectors, Total, Cache.Cache.Shows, Sound, Grown, FreeMap.FreeMap.Valid, Clear, Served;
    ghost var a := inode.Now(dev, fm);
    ResidentBlocks(cache, dev);
    inode.length := inode.Expand(dev, fm, newLength);
    ghost var b := inode.Now(dev, fm);
    NewSectorsReadZero(a, b, cache.resident.Keys, cache.disk);
    if !HitsIndex(cache.DirtySectors(), a.tree) {
      HitsIffThreatened(a, b, cache.DirtySectors());
    }
    forall x: Sector | 0 <= x < |dev.sectors|
      ensures ServedNow(cache, dev, x) == Served(cache.resident.Keys, cache.disk, dev.sectors, x)
    {
      ServedHere(cache, dev, x);
    }
  }

  lemma ResidentBlocks(cache: Cache.Cache, dev: BlockDevice)
    requires cache.Valid(dev)
    ensures |cache.disk| == |dev.sectors|
    ensures forall x :: x in cache.resident && x < |cache.disk| ==>
              cache.resident[x] < |cache.entries| && cache.entries[cache.resident[x]].block == cache.disk[x]
  {
    forall x | x in cache.resident && x < |cache.disk|
      ensures cache.resident[x] < |cache.entries| && cache.entries[cache.resident[x]].block == cache.disk[x]
    {
      assert cache.Placed(x);
    }
  }

  lemma ServedHere(cache: Cache.Cache, dev: BlockDevice, x: Sector)
    requires x < |cache.disk| == |dev.sectors|
    requires x in cache.resident ==> cache.resident[x] < |cache.entries| && cache.entries[cache.resident[x]].block == cache.disk[x]
    ensures ServedNow(cache, dev, x) == Served(cache.resident.Keys, cache.disk, dev.sectors, x)
  {}

  /** A block that would do for the file's sector `x`: for an index block or the outer
      block, the entries in use are right. */
  ghost predicate Agrees(t: Tree, x: Sector, block: Block)
    requires x in t.roles
  {
    match t.roles[x]
    case Data(_) => true
    case Index(m) =>
      forall r :: 0 <= r < BLOCK_PTRS && DIRECT_BLOCKS + BLOCK_PTRS * m + r < |t.data| ==>
        Ptrs(block)[r] == t.data[DIRECT_BLOCKS + BLOCK_PTRS * m + r]
    case Outer => OuterOk(Ptrs(block), t)
  }

  /** A flush with any sectors in the cache: afterwards the file is in order on the
      device if and only if no dirty block of the cache is of one of its index blocks,
      but with other entries.  Each dirty block is written, whatever it replaces. */
  method FlushOver(inode: Inode, cache: Cache.Cache, dev: BlockDevice, fm: FreeMap.FreeMap)
    requires inode.Valid(dev, fm) && cache.Holds() && |cache.disk| == |dev.sectors|
    modifies cache`entries, cache`resident, cache.entries`dirty, dev
    ensures |dev.sectors| == |cache.disk| == |old(dev.sectors)|
    ensures inode.Valid(dev, fm) <==>
            forall x :: x in old(cache.DirtySectors()) && IsIndexBlock(inode.tree, x) && x < |cache.disk| ==> Agrees(inode.tree, x, cache.disk[x])
    ensures !old(HitsIndex(cache.DirtySectors(), inode.tree)) ==> inode.Valid(dev, fm)
    ensures forall s :: 0 <= s < |dev.sectors| ==>
              dev.sectors[s] == if s in old(cache.DirtySectors()) then cache.disk[s] else old(dev.sectors)[s]
  {
    hide Sound, FreeMap.FreeMap.Valid, Cache.Cache.Holds, Cache.Cache.DirtySectors, Agrees, CursorOf;
    ghost var a := inode.Now(dev, fm);
    ghost var dirt := cache.DirtySectors();
    cache.WriteToDisk(dev, false);
    IndexKeptIff(a, dev.sectors, dirt, cache.disk);
    assert inode.Now(dev, fm) == a.(sectors := dev.sectors);
  }

  lemma IndexKeptIff(a: State, sectors: seq<Block>, dirt: set<Sector>, disk: seq<Block>)
    requires Sound(a) && |sectors| == |a.sectors| == |disk|
    requires forall s :: 0 <= s < |sectors| ==> sectors[s] == if s in dirt then disk[s] else a.sectors[s]
    ensures Sound(a.(sectors := sectors)) <==>
            forall x :: x in dirt && IsIndexBlock(a.tree, x) && x < |disk| ==> Agrees(a.tree, x, disk[x])
  {
    hide Sound, Agrees;
    if Sound(a.(sectors := sectors)) {
      forall x | x in dirt && IsIndexBlock(a.tree, x) && x < |disk|
        ensures Agrees(a.tree, x, disk[x])
      {
        SoundAgrees(a.(sectors := sectors), x);
      }
    }
    if forall x :: x in dirt && IsIndexBlock(a.tree, x) && x < |disk| ==> Agrees(a.tree, x, disk[x]) {
      forall x | IsIndexBlock(a.tree, x)
        ensures x < |sectors| && Agrees(a.tree, x, sectors[x])
      {
        SoundAgrees(a, x);
      }
      AgreesSound(a, sectors);
    }
  }

  lemma SoundAgrees(a: State, x: Sector)
    requires Sound(a) && IsIndexBlock(a.tree, x)
    ensures x < |a.sectors| && Agrees(a.tree, x, a.sectors[x])
  {
    hide Ptrs;
    assert Listed(a.tree, x, a.tree.roles[x]);
    if a.tree.roles[x].Index? {
      var m := a.tree.roles[x].m;
      forall r | 0 <= r < BLOCK_PTRS && DIRECT_BLOCKS + BLOCK_PTRS * m + r < |a.tree.data|
        ensures Ptrs(a.sectors[x])[r] == a.tree.data[DIRECT_BLOCKS + BLOCK_PTRS * m + r]
      {
        var k := DIRECT_BLOCKS + BLOCK_PTRS * m + r;
        assert (k - DIRECT_BLOCKS) / BLOCK_PTRS == m && (k - DIRECT_BLOCKS) % BLOCK_PTRS == r;
        assert LeafEntry(a.sectors, a.tree, k) == a.tree.data[k];
      }
    }
  }

  lemma AgreesSound(a: State, sectors: seq<Block>)
    requires Sound(a) && |sectors| == |a.sectors|
    requires forall x :: IsIndexBlock(a.tree, x) ==> x < |sectors| && Agrees(a.tree, x, sectors[x])
    ensures Sound(a.(sectors := sectors))
  {
    hide Ptrs;
    forall k | DIRECT_BLOCKS <= k < |a.tree.data|
      ensures LeafEntry(sectors, a.tree, k) == a.tree.data[k]
    {
      var m, r := (k - DIRECT_BLOCKS) / BLOCK_PTRS, (k - DIRECT_BLOCKS) % BLOCK_PTRS;
      var y := a.tree.index[m];
      assert IsIndexBlock(a.tree, y) && a.tree.roles[y] == Index(m);
      assert Ptrs(sectors[y])[r] == a.tree.data[DIRECT_BLOCKS + BLOCK_PTRS * m + r];
    }
    if a.tree.outer != [] {
      assert IsIndexBlock(a.tree, a.tree.outer[0]);
    }
  }

  /** The write-back of an eviction, with any sectors in the cache: it keeps the file in
      order if and only if the victim is clean, or is no index block of the file, or has
      the right entries. */
  method EvictOver(inode: Inode, cache: Cache.Cache, dev: BlockDevice, fm: FreeMap.FreeMap) returns (c: Cache.Entry)
    requires inode.Valid(dev, fm) && cache.Listed(dev) && exists i :: 0 <= i < |cache.entries| && cache.entries[i].openCnt == 0
    modifies cache.entries`accessed, dev
    ensures c in cache.entries && c.openCnt == 0 && c.sector < |dev.sectors| == |old(dev.sectors)|
    ensures inode.Valid(dev, fm) <==> (c.dirty && IsIndexBlock(inode.tree, c.sector) ==> Agrees(inode.tree, c.sector, c.block))
    ensures dev.sectors == if c.dirty then old(dev.sectors)[c.sector := c.block] else old(dev.sectors)
  {
    hide Sound, FreeMap.FreeMap.Valid, Agrees, CursorOf;
    ghost var a := inode.Now(dev, fm);
    ghost var v, rounds;
    c, v, rounds := cache.Victim(dev);
    if c.dirty {
      IndexKeptIff(a, dev.sectors, {c.sector}, dev.sectors);
    }
    assert inode.Now(dev, fm) == a.(sectors := dev.sectors);
  }

  /** Where the device holds something else than the file's index blocks, that is what a
      search through it goes by: in the double-indirect range first for the index block,
      and then for the sector. */
  lemma LookupThrough(b: State, sectors: seq<Block>, pos: nat)
    requires Sound(b) && |sectors| == |b.sectors| && DIRECT_BLOCKS <= pos / SECTOR_SIZE < |b.tree.data|
    ensures var k := pos / SECTOR_SIZE;
            && (k - DIRECT_BLOCKS) / BLOCK_PTRS < |b.tree.index|
            && (k >= DOUBLE_BASE ==> |b.tree.outer| == 1 && b.tree.outer[0] < |sectors| && (k - DOUBLE_BASE) / BLOCK_PTRS < BLOCK_PTRS)
            && var s := if k < DOUBLE_BASE then b.tree.index[(k - DIRECT_BLOCKS) / BLOCK_PTRS]
                        else Ptrs(sectors[b.tree.outer[0]])[(k - DOUBLE_BASE) / BLOCK_PTRS];
               && (CanLookup(sectors, b.ptr, pos) <==> s < |sectors|)
               && (s < |sectors| ==> Lookup(sectors, b.ptr, pos) == Ptrs(sectors[s])[(k - DIRECT_BLOCKS) % BLOCK_PTRS])
  {
    hide Ptrs, Sound;
    var k := pos / SECTOR_SIZE;
    IndexPointers(b, k);
    if k < DOUBLE_BASE {
      SpanOffset(pos, DIRECT_BLOCKS);
    } else {
      SpanOffset(pos, DOUBLE_BASE);
      assert (k - DIRECT_BLOCKS) % BLOCK_PTRS == (k - DOUBLE_BASE) % BLOCK_PTRS;
    }
  }

  /** The inode's pointers on the way to data sector `k`. */
  lemma IndexPointers(b: State, k: nat)
    requires Sound(b) && DIRECT_BLOCKS <= k < |b.tree.data|
    ensures |b.ptr| == INODE_PTRS && k < MAX_SECTORS
    ensures var m := (k - DIRECT_BLOCKS) / BLOCK_PTRS;
            && m < |b.tree.index| && b.tree.index[m] < |b.sectors|
            && (k < DOUBLE_BASE ==> b.ptr[DIRECT_BLOCKS + m] == b.tree.index[m])
    ensures k >= DOUBLE_BASE ==> |b.tree.outer| == 1 && b.ptr[DOUBLE_INDIRECT_INDEX] == b.tree.outer[0] < |b.sectors|
  {
    hide LeafEntry;
  }

  // ---- Told before the growth ----

  /** The free sector of this rank. */
  ghost predicate IsNth(free: set<Sector>, y: Sector, n: int) { y in free && Rank(free, y) == n }

  /** A block that would do for the free sector `x`, which is about to be taken: if it is
      to be an index block or the outer block, the entries in use are the sectors that
      their ranks foretell. */
  ghost predicate Foretold(free: set<Sector>, n0: nat, n1: nat, x: Sector, block: Block) {
    match RoleToBe(free, x, n0)
    case Data(_) => true
    case Index(m) =>
      forall r :: 0 <= r < BLOCK_PTRS && DIRECT_BLOCKS + BLOCK_PTRS * m + r < n1 ==>
        IsNth(free, Ptrs(block)[r], Order(Data(DIRECT_BLOCKS + BLOCK_PTRS * m + r)) - Total(n0))
    case Outer =>
      forall m :: INDIRECT_BLOCKS <= m < LeafCount(n1) && m < INDIRECT_BLOCKS + BLOCK_PTRS ==>
        IsNth(free, Ptrs(block)[m - INDIRECT_BLOCKS], Order(Index(m)) - Total(n0))
  }

  /** A new sector is the only free one of its rank. */
  lemma NthIsNew(a: State, b: State, x: Sector, y: Sector)
    requires Sound(a) && Sound(b) && Grown(a, b) && IsNew(a, b, x)
    ensures IsNth(a.free, y, Order(b.tree.roles[x]) - Total(|a.tree.data|)) <==> y == x
  {
    hide Sound, Grown, Order, Rank, Total;
    NewRank(a, b, x);
    if IsNth(a.free, y, Order(b.tree.roles[x]) - Total(|a.tree.data|)) {
      RankSame(a.free, x, y);
    }
  }

  /** Whatever comes after a new sector in the order of allocation is new too. */
  lemma LaterIsNew(a: State, b: State, x: Sector, y: Sector)
    requires Sound(a) && Sound(b) && Grown(a, b) && IsNew(a, b, x) && y in b.tree.roles
    requires Order(b.tree.roles[x]) <= Order(b.tree.roles[y])
    ensures IsNew(a, b, y)
  {
    hide Sound, Order;
    SizeIs(a);
    if y in a.tree.roles {
      RolesListed(a, y);
    }
  }

  lemma ForetoldAgrees(a: State, b: State, x: Sector, block: Block)
    requires Sound(a) && Sound(b) && Grown(a, b) && IsNew(a, b, x)
    ensures Foretold(a.free, |a.tree.data|, |b.tree.data|, x, block) <==> Agrees(b.tree, x, block)
  {
    hide Sound, Grown, Ptrs, Order, Total, RoleToBe, Rank, IsNth, LeafCount;
    TakenIs(a, b, x);
    SoundSeparate(b);
    match b.tree.roles[x]
    case Data(_) =>
    case Index(m) =>
      forall r | 0 <= r < BLOCK_PTRS && DIRECT_BLOCKS + BLOCK_PTRS * m + r < |b.tree.data|
        ensures IsNth(a.free, Ptrs(block)[r], Order(Data(DIRECT_BLOCKS + BLOCK_PTRS * m + r)) - Total(|a.tree.data|))
           <==> Ptrs(block)[r] == b.tree.data[DIRECT_BLOCKS + BLOCK_PTRS * m + r]
      {
        EntryForetold(a, b, x, b.tree.data[DIRECT_BLOCKS + BLOCK_PTRS * m + r], Ptrs(block)[r]);
      }
    case Outer =>
      OuterEntries(a, b, x, block);
  }

  /** An index block is allocated before its sectors, and the outer block before its
      index blocks. */
  lemma EntryForetold(a: State, b: State, x: Sector, y: Sector, found: Sector)
    requires Sound(a) && Sound(b) && Grown(a, b) && IsNew(a, b, x) && y in b.tree.roles
    requires match b.tree.roles[y]
             case Data(k) => b.tree.roles[x].Index? && k >= DIRECT_BLOCKS + BLOCK_PTRS * b.tree.roles[x].m
             case Index(m) => b.tree.roles[x].Outer? && m >= INDIRECT_BLOCKS
             case Outer => false
    ensures IsNth(a.free, found, Order(b.tree.roles[y]) - Total(|a.tree.data|)) <==> found == y
  {
    OrderGrows(b.tree.roles[x], b.tree.roles[y]);
    hide Sound, Grown, Order, Total, IsNth;
    LaterIsNew(a, b, x, y);
    NthIsNew(a, b, y, found);
  }

  lemma OrderGrows(p: Role, q: Role)
    requires match q
             case Data(k) => p.Index? && k >= DIRECT_BLOCKS + BLOCK_PTRS * p.m
             case Index(m) => p.Outer? && m >= INDIRECT_BLOCKS
             case Outer => false
    ensures Order(p) <= Order(q)
  {
    match q
    case Data(k) => DataOrder(k);
    case Index(m) =>
  }

  lemma OuterEntries(a: State, b: State, x: Sector, block: Block)
    requires Sound(a) && Sound(b) && Grown(a, b) && IsNew(a, b, x) && b.tree.roles[x] == Outer
    ensures (forall m :: INDIRECT_BLOCKS <= m < LeafCount(|b.tree.data|) && m < INDIRECT_BLOCKS + BLOCK_PTRS ==>
               IsNth(a.free, Ptrs(block)[m - INDIRECT_BLOCKS], Order(Index(m)) - Total(|a.tree.data|)))
       <==> OuterOk(Ptrs(block), b.tree)
  {
    hide Grown, Ptrs, Order, Total, IsNth, LeafCount, Apart;
    forall m | INDIRECT_BLOCKS <= m < LeafCount(|b.tree.data|) && m < INDIRECT_BLOCKS + BLOCK_PTRS
      ensures IsNth(a.free, Ptrs(block)[m - INDIRECT_BLOCKS], Order(Index(m)) - Total(|a.tree.data|))
         <==> Ptrs(block)[m - INDIRECT_BLOCKS] == b.tree.index[m]
    {
      EntryForetold(a, b, x, b.tree.index[m], Ptrs(block)[m - INDIRECT_BLOCKS]);
    }
  }

  /** So it can be told before the growth whether dirty blocks of the cache will do for
      the index blocks they come to be of. */
  lemma AgreesIffForetold(a: State, b: State, dirt: set<Sector>, disk: seq<Block>)
    requires Sound(a) && Sound(b) && Grown(a, b) && !HitsIndex(dirt, a.tree)
    ensures (forall x :: x in dirt && IsIndexBlock(b.tree, x) && x < |disk| ==> Agrees(b.tree, x, disk[x]))
       <==> (forall x :: x in dirt && Taken(a.free, x, |a.tree.data|, |b.tree.data|) && x < |disk| ==>
               Foretold(a.free, |a.tree.data|, |b.tree.data|, x, disk[x]))
  {
    hide Sound, Grown, Taken, Agrees, Foretold;
    forall x | x in dirt && x < |disk|
      ensures Taken(a.free, x, |a.tree.data|, |b.tree.data|) <==> IsNew(a, b, x)
      ensures IsNew(a, b, x) ==> (Foretold(a.free, |a.tree.data|, |b.tree.data|, x, disk[x]) <==> Agrees(b.tree, x, disk[x]))
      ensures IsIndexBlock(b.tree, x) ==> IsNew(a, b, x)
    {
      TakenIs(a, b, x);
      if IsNew(a, b, x) {
        ForetoldAgrees(a, b, x, disk[x]);
      } else {
        assert !IsIndexBlock(a.tree, x);
        OldRoles(a, b, x);
      }
    }
    DataAgrees(b.tree, disk);
  }

  lemma DataAgrees(t: Tree, disk: seq<Block>)
    ensures forall x :: x in t.roles && !IsIndexBlock(t, x) && x < |disk| ==> Agrees(t, x, disk[x])
  {}

  /** A growth and then a flush, with any blocks in the cache but those of the file's own
      index blocks: the file is in order on the device afterwards if and only if, before
      the growth, every dirty block of a sector that was about to be taken was one that
      would do there. */
  method ExpandThenFlush(inode: Inode, cache: Cache.Cache, dev: BlockDevice, fm: FreeMap.FreeMap, newLength: nat)
    requires inode.Valid(dev, fm) && cache.Valid(dev) && Coherent(cache.resident.Keys, inode.tree)
    requires |inode.tree.data| == DataSectors(inode.length) && inode.length <= newLength
    requires |fm.free| >= Total(Min(DataSectors(newLength), MAX_SECTORS)) - Total(|inode.tree.data|)
    modifies inode`tree, inode`directIndex, inode`indirectIndex, inode`doubleIndirectIndex, inode`length, inode.ptr,
             dev, fm`free, fm.bitmap.elems, cache`entries, cache`resident, cache.entries`dirty
    ensures |inode.tree.data| == Min(DataSectors(newLength), MAX_SECTORS) && inode.length == ExpandedLength(newLength)
    ensures inode.Valid(dev, fm) <==>
            forall x :: x in old(cache.DirtySectors()) && x < |cache.disk| && Taken(old(fm.free), x, |old(inode.tree).data|, |inode.tree.data|) ==>
              Foretold(old(fm.free), |old(inode.tree).data|, |inode.tree.data|, x, cache.disk[x])
  {
    hide Cache.Cache.DirtySectors, HitsIndex, Threatened, Marked, DataSectors, Total, Sound, Grown, FreeMap.FreeMap.Valid, Clear, ServedNow, Agrees, Foretold, Taken, CursorOf, Cache.Cache.Indexed, Cache.Cache.Shows;
    ghost var a, dirt := inode.Now(dev, fm), cache.DirtySectors();
    DirtyResident(cache, inode.tree);
    CacheHolds(cache, dev);
    ExpandOver(inode, cache, dev, fm, newLength);
    ghost var b := inode.Now(dev, fm);
    AgreesIffForetold(a, b, dirt, cache.disk);
    FlushOver(inode, cache, dev, fm);
  }

  lemma CacheHolds(cache: Cache.Cache, dev: BlockDevice)
    requires cache.Valid(dev)
    ensures cache.Holds()
  {}

  lemma DirtyResident(cache: Cache.Cache, t: Tree)
    requires Coherent(cache.resident.Keys, t)
    ensures cache.DirtySectors() <= cache.resident.Keys && !HitsIndex(cache.DirtySectors(), t)
  {}

  // ---- One file released, another grown ----

  /** No free sector is in the cache. */
  ghost predicate InStep(resident: set<Sector>, free: set<Sector>) { resident !! free }

  /** After a file is released the cache is in step with the free map if and only if it
      was before and none of the file's sectors is resident. */
  method ReleaseOver(f: Inode, cache: Cache.Cache, dev: BlockDevice, fm: FreeMap.FreeMap, g: Inode)
    requires f.Valid(dev, fm) && |f.tree.data| == DataSectors(f.length)
    requires g.Valid(dev, fm) && Owned(f.tree) !! Owned(g.tree)
    modifies fm`free, fm.bitmap.elems
    ensures f.Wired(dev, fm) && g.Valid(dev, fm)
    ensures fm.free == old(fm.free) + Owned(f.tree) && |fm.free| == |old(fm.free)| + |Owned(f.tree)|
    ensures InStep(cache.resident.Keys, fm.free) <==> InStep(cache.resident.Keys, old(fm.free)) && cache.resident.Keys !! Owned(f.tree)
  {
    hide Sound, FreeMap.FreeMap.Valid, DataSectors, CursorOf;
    ghost var a, b := f.Now(dev, fm), g.Now(dev, fm);
    FreedApart(a, b);
    f.Dealloc(dev, fm);
    assert g.Now(dev, fm) == b.(free := fm.free);
  }

  lemma FreedApart(a: State, b: State)
    requires Sound(a) && Sound(b) && b.free == a.free && Owned(a.tree) !! Owned(b.tree)
    ensures a.free !! Owned(a.tree) && |a.free + Owned(a.tree)| == |a.free| + |Owned(a.tree)|
    ensures Sound(b.(free := a.free + Owned(a.tree)))
  {
    hide Maps;
  }

  /** A file is released and another one grows.  What comes of it depends on what is in
      the cache before: the new sectors read as zeros if and only if no block that is not
      all zeros is of a sector taken for data, and the file is in order after a flush if
      and only if every dirty block of a sector taken would do there. */
  method Reuse(f: Inode, g: Inode, cache: Cache.Cache, dev: BlockDevice, fm: FreeMap.FreeMap, newLength: nat)
    requires f.Valid(dev, fm) && |f.tree.data| == DataSectors(f.length) && f != g && f.ptr != g.ptr
    requires g.Valid(dev, fm) && Owned(f.tree) !! Owned(g.tree) && cache.Valid(dev) && Coherent(cache.resident.Keys, g.tree)
    requires |g.tree.data| == DataSectors(g.length) && g.length <= newLength
    requires |fm.free| + |Owned(f.tree)| >= Total(Min(DataSectors(newLength), MAX_SECTORS)) - Total(|g.tree.data|)
    modifies g`tree, g`directIndex, g`indirectIndex, g`doubleIndirectIndex, g`length, g.ptr, dev, fm`free, fm.bitmap.elems
    ensures g.Valid(dev, fm) && |g.tree.data| == Min(DataSectors(newLength), MAX_SECTORS) && g.length == ExpandedLength(newLength)
    ensures Grown(old(g.Now(dev, fm)).(free := old(fm.free) + Owned(f.tree)), g.Now(dev, fm))
    ensures |cache.disk| == |dev.sectors| && forall k :: 0 <= k < |g.tree.data| ==> g.tree.data[k] < |dev.sectors|
    ensures (forall k :: |old(g.tree).data| <= k < |g.tree.data| ==> ServedNow(cache, dev, g.tree.data[k]) == ZeroBlock())
       <==> Clear(old(fm.free) + Owned(f.tree), Marked(cache.resident.Keys, cache.disk), |old(g.tree).data|, |g.tree.data|)
    ensures (forall x :: x in cache.DirtySectors() && IsIndexBlock(g.tree, x) && x < |cache.disk| ==> Agrees(g.tree, x, cache.disk[x]))
       <==> (forall x :: x in cache.DirtySectors() && Taken(old(fm.free) + Owned(f.tree), x, |old(g.tree).data|, |g.tree.data|) && x < |cache.disk| ==>
               Foretold(old(fm.free) + Owned(f.tree), |old(g.tree).data|, |g.tree.data|, x, cache.disk[x]))
  {
    hide Cache.Cache.DirtySectors, Cache.Cache.Valid, HitsIndex, Threatened, Marked, DataSectors, Total, Sound, Grown, FreeMap.FreeMap.Valid, Clear, ServedNow, Coherent, CursorOf, Agrees, Foretold, Taken;
    DirtyResident(cache, g.tree);
    ReleaseOver(f, cache, dev, fm, g);
    ghost var a := g.Now(dev, fm);
    ExpandOver(g, cache, dev, fm, newLength);
    AgreesIffForetold(a, g.Now(dev, fm), cache.DirtySectors(), cache.disk);
  }
}
