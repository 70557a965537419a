/** The abstract shape of a file's block tree: the list of its data sectors, the
    list of its index blocks (single-indirect blocks first, then the second
    level of the double-indirect block) and the double-indirect block itself.
    `Maps` says how an inode's pointers and the device's pointer blocks
    represent it (`project4/src/filesys/inode.c`). */
module InodeTree {
  import opened Basics
  import opened Device

  const DIRECT_BLOCKS := 4
  const INDIRECT_BLOCKS := 9
  const DOUBLE_INDIRECT_INDEX := 13
  const INODE_PTRS := 14

  /** First data sector number reached through the double-indirect block. */
  const DOUBLE_BASE := DIRECT_BLOCKS + INDIRECT_BLOCKS * BLOCK_PTRS

  /** The most data sectors a file can have. */
  const MAX_SECTORS := DOUBLE_BASE + BLOCK_PTRS * BLOCK_PTRS

  const MAX_FILE_SIZE := 8980480

  /** What a sector of the file is: data sector number `k`, index block number
      `m`, or the double-indirect block. */
  datatype Role = Data(k: nat) | Index(m: nat) | Outer

  /** `roles` has one entry for each sector the file owns. */
  datatype Tree = Tree(data: seq<Sector>, index: seq<Sector>, outer: seq<Sector>, roles: map<Sector, Role>)

  const EmptyTree := Tree([], [], [], map[])

  // ---- How many sectors a file of n data sectors needs ----

  function DataSectors(size: nat): nat { (size + SECTOR_SIZE - 1) / SECTOR_SIZE }

  function LeafCount(n: nat): nat { if n <= DIRECT_BLOCKS then 0 else (n - DIRECT_BLOCKS + BLOCK_PTRS - 1) / BLOCK_PTRS }

  function OuterCount(n: nat): nat { if n <= DOUBLE_BASE then 0 else 1 }

  function Total(n: nat): nat { n + LeafCount(n) + OuterCount(n) }

  function Size(t: Tree): nat { |t.data| + |t.index| + |t.outer| }

  lemma TotalMonotone(a: nat, b: nat)
    requires a <= b
    ensures LeafCount(a) <= LeafCount(b) && OuterCount(a) <= OuterCount(b) && Total(a) <= Total(b)
    ensures a < b ==> LeafCount(a + 1) <= LeafCount(b) && OuterCount(a + 1) <= OuterCount(b) && Total(a) < Total(b)
  {}

  lemma LeafBounds(n: nat)
    requires n <= MAX_SECTORS
    ensures n <= DIRECT_BLOCKS ==> LeafCount(n) == 0
    ensures n > DIRECT_BLOCKS ==> LeafCount(n) > 0 && n <= DIRECT_BLOCKS + BLOCK_PTRS * LeafCount(n) < n + BLOCK_PTRS
    ensures OuterCount(n) == 0 ==> LeafCount(n) <= INDIRECT_BLOCKS
    ensures OuterCount(n) != 0 ==> INDIRECT_BLOCKS < LeafCount(n) <= INDIRECT_BLOCKS + BLOCK_PTRS
  {}

  // ---- The odometer ----

  datatype Cursor = Cursor(direct: nat, indirect: nat, doubleIndirect: nat)

  /** The mixed-radix form of a count of data sectors. */
  function CursorOf(n: nat): Cursor {
    if n <= DIRECT_BLOCKS then Cursor(n, 0, 0)
    else if n < DOUBLE_BASE then Cursor(DIRECT_BLOCKS + (n - DIRECT_BLOCKS) / BLOCK_PTRS, (n - DIRECT_BLOCKS) % BLOCK_PTRS, 0)
    else Cursor(DOUBLE_INDIRECT_INDEX, (n - DOUBLE_BASE) / BLOCK_PTRS, (n - DOUBLE_BASE) % BLOCK_PTRS)
  }

  /** The count a cursor stands for. */
  function Count(c: Cursor): nat {
    if c.direct <= DIRECT_BLOCKS then c.direct + c.indirect
    else if c.direct < DOUBLE_INDIRECT_INDEX then DIRECT_BLOCKS + (c.direct - DIRECT_BLOCKS) * BLOCK_PTRS + c.indirect
    else DOUBLE_BASE + c.indirect * BLOCK_PTRS + c.doubleIndirect
  }

  /** The cursor determines the count: no two file sizes share a cursor. */
  lemma CursorCounts(n: nat)
    ensures Count(CursorOf(n)) == n
  {}

  /** The odometer's carries while a single-indirect block, or a second-level
      block, fills up. */
  lemma CursorCarries(m: nat, i: nat)
    requires i <= BLOCK_PTRS
    ensures m < INDIRECT_BLOCKS ==>
              CursorOf(DIRECT_BLOCKS + BLOCK_PTRS * m + i) ==
              if i < BLOCK_PTRS then Cursor(DIRECT_BLOCKS + m, i, 0) else Cursor(DIRECT_BLOCKS + m + 1, 0, 0)
    ensures CursorOf(DOUBLE_BASE + BLOCK_PTRS * m + i) ==
            if i < BLOCK_PTRS then Cursor(DOUBLE_INDIRECT_INDEX, m, i) else Cursor(DOUBLE_INDIRECT_INDEX, m + 1, 0)
  {}

  /** What a cursor in the single-indirect, or in the double-indirect, range says. */
  lemma CursorRanges(n: nat, c: Cursor)
    requires CursorOf(n) == c && n <= MAX_SECTORS
    ensures DIRECT_BLOCKS <= c.direct < DOUBLE_INDIRECT_INDEX ==>
              && n == DIRECT_BLOCKS + BLOCK_PTRS * (c.direct - DIRECT_BLOCKS) + c.indirect
              && c.indirect < BLOCK_PTRS && c.doubleIndirect == 0
    ensures c.direct >= DOUBLE_INDIRECT_INDEX ==>
              && c.direct == DOUBLE_INDIRECT_INDEX && n == DOUBLE_BASE + BLOCK_PTRS * c.indirect + c.doubleIndirect
              && c.indirect <= BLOCK_PTRS && c.doubleIndirect < BLOCK_PTRS && (c.indirect == BLOCK_PTRS ==> c.doubleIndirect == 0)
    ensures c.direct < DIRECT_BLOCKS ==> n == c.direct && c.indirect == c.doubleIndirect == 0
  {}

  // ---- Ownership ----

  /** The lists and the roles say the same: every listed sector has its place in
      the list as its only role, and every owned sector is listed.  So no sector
      is listed twice. */
  ghost predicate Separate(t: Tree) {
    && |t.outer| <= 1
    && (forall k :: 0 <= k < |t.data| ==> t.data[k] in t.roles && t.roles[t.data[k]] == Data(k))
    && (forall m :: 0 <= m < |t.index| ==> t.index[m] in t.roles && t.roles[t.index[m]] == Index(m))
    && (forall o :: 0 <= o < |t.outer| ==> t.outer[o] in t.roles && t.roles[t.outer[o]] == Outer)
    && (forall s :: s in t.roles ==> Listed(t, s, t.roles[s]))
  }

  ghost predicate Listed(t: Tree, s: Sector, r: Role) {
    match r
    case Data(k) => k < |t.data| && t.data[k] == s
    case Index(m) => m < |t.index| && t.index[m] == s
    case Outer => t.outer == [s]
  }

  /** Every sector of the file. */
  function Owned(t: Tree): set<Sector> { t.roles.Keys }

  /** The file's own index blocks, the double-indirect block included. */
  predicate IsIndexBlock(t: Tree, s: int) { s in t.roles && !t.roles[s].Data? }

  ghost predicate InRange(t: Tree, size: nat) { forall s :: s in t.roles ==> s < size }

  /** No sector is in two places of the lists. */
  lemma NoSectorTwice(t: Tree)
    requires Separate(t)
    ensures forall i, j :: 0 <= i < j < |t.data + t.index + t.outer| ==> (t.data + t.index + t.outer)[i] != (t.data + t.index + t.outer)[j]
    ensures forall s :: s in t.data + t.index + t.outer <==> s in Owned(t)
  {
    var all := t.data + t.index + t.outer;
    forall i, j | 0 <= i < j < |all|
      ensures all[i] != all[j]
    {
      assert RoleAt(t, i) != RoleAt(t, j);
      RoleOf(t, i);
      RoleOf(t, j);
    }
    forall s | s in Owned(t)
      ensures s in all
    {
      match t.roles[s] {
        case Data(k) => assert all[k] == s;
        case Index(m) => assert all[|t.data| + m] == s;
        case Outer => assert all[|t.data| + |t.index|] == s;
      }
    }
    forall i | 0 <= i < |all|
      ensures all[i] in Owned(t)
    {
      RoleOf(t, i);
    }
  }

  function RoleAt(t: Tree, i: nat): Role {
    if i < |t.data| then Data(i) else if i < |t.data| + |t.index| then Index(i - |t.data|) else Outer
  }

  lemma RoleOf(t: Tree, i: nat)
    requires Separate(t) && i < |t.data + t.index + t.outer|
    ensures var s := (t.data + t.index + t.outer)[i]; s in t.roles && t.roles[s] == RoleAt(t, i)
  {
    var s := (t.data + t.index + t.outer)[i];
    if i < |t.data| { assert s == t.data[i]; }
    else if i < |t.data| + |t.index| { assert s == t.index[i - |t.data|]; }
    else { assert s == t.outer[i - |t.data| - |t.index|]; }
  }

  // ---- The representation ----

  /** What the growth code sees and changes: the device, the set of free sectors,
      the inode's pointer array, and the tree they represent. */
  datatype State = State(sectors: seq<Block>, free: set<Sector>, ptr: seq<Sector>, tree: Tree)

  /** The direct, single-indirect and double-indirect pointers of the inode. */
  ghost predicate PtrOk(ptr: seq<Sector>, t: Tree) {
    && |ptr| == INODE_PTRS
    && (forall k :: 0 <= k < |t.data| && k < DIRECT_BLOCKS ==> ptr[k] == t.data[k])
    && (forall m :: 0 <= m < |t.index| && m < INDIRECT_BLOCKS ==> ptr[DIRECT_BLOCKS + m] == t.index[m])
    && (t.outer != [] ==> ptr[DOUBLE_INDIRECT_INDEX] == t.outer[0])
  }

  /** `block` is the content of the double-indirect block of `t`. */
  ghost predicate OuterOk(block: seq<Sector>, t: Tree)
    requires |block| == BLOCK_PTRS
  {
    forall m :: INDIRECT_BLOCKS <= m < |t.index| && m < INDIRECT_BLOCKS + BLOCK_PTRS ==> block[m - INDIRECT_BLOCKS] == t.index[m]
  }

  ghost function LeafEntry(sectors: seq<Block>, t: Tree, k: int): Sector
    requires Separate(t) && InRange(t, |sectors|) && DIRECT_BLOCKS <= k && (k - DIRECT_BLOCKS) / BLOCK_PTRS < |t.index|
  {
    Ptrs(sectors[t.index[(k - DIRECT_BLOCKS) / BLOCK_PTRS]])[(k - DIRECT_BLOCKS) % BLOCK_PTRS]
  }

  /** The index blocks hold the numbers of the data sectors up to `upto`. */
  ghost predicate LeavesOk(sectors: seq<Block>, t: Tree, upto: nat) {
    && Separate(t) && InRange(t, |sectors|)
    && upto <= |t.data| && LeafCount(upto) <= |t.index|
    && forall k :: DIRECT_BLOCKS <= k < upto ==> LeafEntry(sectors, t, k) == t.data[k]
  }

  ghost predicate Sized(t: Tree) {
    |t.data| <= MAX_SECTORS && |t.index| == LeafCount(|t.data|) && |t.outer| == OuterCount(|t.data|)
  }

  /** `sectors` and `ptr` together represent `t`. */
  ghost predicate Maps(sectors: seq<Block>, ptr: seq<Sector>, t: Tree) {
    && Sized(t) && Separate(t) && PtrOk(ptr, t) && LeavesOk(sectors, t, |t.data|)
    && (t.outer != [] ==> OuterOk(Ptrs(sectors[t.outer[0]]), t))
  }

  /** No sector is both free and part of the file. */
  ghost predicate Apart(st: State) {
    && InRange(st.tree, |st.sectors|) && Separate(st.tree)
    && (forall s :: s in st.tree.roles ==> s !in st.free)
  }

  ghost predicate Sound(st: State) { Apart(st) && Maps(st.sectors, st.ptr, st.tree) }

  /** A file's tree depends on its own index blocks only: writes to other sectors,
      such as those of a file with disjoint sectors, leave it in place. */
  lemma MapsFrame(s0: seq<Block>, s1: seq<Block>, ptr: seq<Sector>, t: Tree)
    requires Maps(s0, ptr, t) && |s1| == |s0|
    requires forall s :: IsIndexBlock(t, s) ==> s1[s] == s0[s]
    ensures Maps(s1, ptr, t)
  {
    forall k | DIRECT_BLOCKS <= k < |t.data|
      ensures LeafEntry(s1, t, k) == t.data[k]
    {
      assert IsIndexBlock(t, t.index[(k - DIRECT_BLOCKS) / BLOCK_PTRS]);
      assert LeafEntry(s0, t, k) == t.data[k];
    }
  }

  /** Byte offset `pos`, less `base` whole sectors, taken apart by spans of one
      pointer block and by sectors. */
  lemma SpanOffset(pos: nat, base: nat)
    requires SECTOR_SIZE * base <= pos
    ensures var rest, k := pos - SECTOR_SIZE * base, pos / SECTOR_SIZE - base;
            && 0 <= k && rest / (SECTOR_SIZE * BLOCK_PTRS) == k / BLOCK_PTRS
            && rest % (SECTOR_SIZE * BLOCK_PTRS) / SECTOR_SIZE == k % BLOCK_PTRS
  {
    var rest := pos - SECTOR_SIZE * base;
    assert rest / SECTOR_SIZE == pos / SECTOR_SIZE - base;
  }

  const SPAN := SECTOR_SIZE * BLOCK_PTRS

  lemma LookupDirect(sectors: seq<Block>, ptr: seq<Sector>, t: Tree, pos: nat)
    requires Maps(sectors, ptr, t) && pos / SECTOR_SIZE < |t.data|
    ensures |ptr| == INODE_PTRS && (pos / SECTOR_SIZE < DIRECT_BLOCKS ==> ptr[pos / SECTOR_SIZE] == t.data[pos / SECTOR_SIZE])
  {}

  /** Following the pointers to byte `pos` through a single-indirect block. */
  lemma LookupSingle(sectors: seq<Block>, ptr: seq<Sector>, t: Tree, pos: nat)
    requires Maps(sectors, ptr, t) && DIRECT_BLOCKS <= pos / SECTOR_SIZE < DOUBLE_BASE && pos / SECTOR_SIZE < |t.data|
    ensures var rest := pos - SECTOR_SIZE * DIRECT_BLOCKS;
            var idx := rest / SPAN + DIRECT_BLOCKS;
            && 0 <= rest && idx < DOUBLE_INDIRECT_INDEX && ptr[idx] < |sectors|
            && Ptrs(sectors[ptr[idx]])[rest % SPAN / SECTOR_SIZE] == t.data[pos / SECTOR_SIZE]
  {
    var k := pos / SECTOR_SIZE;
    SpanOffset(pos, DIRECT_BLOCKS);
    var m := (k - DIRECT_BLOCKS) / BLOCK_PTRS;
    assert ptr[DIRECT_BLOCKS + m] == t.index[m];
    assert LeafEntry(sectors, t, k) == t.data[k];
  }

  /** Following the pointers to byte `pos` through the double-indirect block. */
  lemma LookupDouble(sectors: seq<Block>, ptr: seq<Sector>, t: Tree, pos: nat)
    requires Maps(sectors, ptr, t) && DOUBLE_BASE <= pos / SECTOR_SIZE < |t.data|
    ensures var rest := pos - SECTOR_SIZE * DOUBLE_BASE;
            && 0 <= rest && rest / SPAN < BLOCK_PTRS && ptr[DOUBLE_INDIRECT_INDEX] < |sectors|
            && var inner := Ptrs(sectors[ptr[DOUBLE_INDIRECT_INDEX]])[rest / SPAN];
               inner < |sectors| && Ptrs(sectors[inner])[rest % SPAN / SECTOR_SIZE] == t.data[pos / SECTOR_SIZE]
  {
    var k := pos / SECTOR_SIZE;
    SpanOffset(pos, DOUBLE_BASE);
    var m := (k - DIRECT_BLOCKS) / BLOCK_PTRS;
    assert m - INDIRECT_BLOCKS == (k - DOUBLE_BASE) / BLOCK_PTRS && (k - DIRECT_BLOCKS) % BLOCK_PTRS == (k - DOUBLE_BASE) % BLOCK_PTRS;
    assert Ptrs(sectors[t.outer[0]])[m - INDIRECT_BLOCKS] == t.index[m];
    assert LeafEntry(sectors, t, k) == t.data[k];
  }

  /** The blocks that the search for byte `pos` reads are on the device. */
  predicate CanLookup(sectors: seq<Block>, ptr: seq<Sector>, pos: nat) {
    && |ptr| == INODE_PTRS
    && (if pos < SECTOR_SIZE * DIRECT_BLOCKS then true
        else if pos < SECTOR_SIZE * DOUBLE_BASE then ptr[(pos - SECTOR_SIZE * DIRECT_BLOCKS) / SPAN + DIRECT_BLOCKS] < |sectors|
        else
          var idx := (pos - SECTOR_SIZE * DOUBLE_BASE) / SPAN;
          && idx < BLOCK_PTRS && ptr[DOUBLE_INDIRECT_INDEX] < |sectors|
          && Ptrs(sectors[ptr[DOUBLE_INDIRECT_INDEX]])[idx] < |sectors|)
  }

  /** What `byte_to_sector` finds on the device, whether or not it is the file's. */
  function Lookup(sectors: seq<Block>, ptr: seq<Sector>, pos: nat): Sector
    requires CanLookup(sectors, ptr, pos)
  {
    if pos < SECTOR_SIZE * DIRECT_BLOCKS then ptr[pos / SECTOR_SIZE]
    else if pos < SECTOR_SIZE * DOUBLE_BASE then
      var rest := pos - SECTOR_SIZE * DIRECT_BLOCKS;
      Ptrs(sectors[ptr[rest / SPAN + DIRECT_BLOCKS]])[rest % SPAN / SECTOR_SIZE]
    else
      var rest := pos - SECTOR_SIZE * DOUBLE_BASE;
      var inner := Ptrs(sectors[ptr[DOUBLE_INDIRECT_INDEX]])[rest / SPAN];
      Ptrs(sectors[inner])[rest % SPAN / SECTOR_SIZE]
  }

  /** For a file in order it finds entry pos/512 of the file's sectors. */
  lemma LookupIs(sectors: seq<Block>, ptr: seq<Sector>, t: Tree, pos: nat)
    requires Maps(sectors, ptr, t) && pos / SECTOR_SIZE < |t.data|
    ensures CanLookup(sectors, ptr, pos) && Lookup(sectors, ptr, pos) == t.data[pos / SECTOR_SIZE]
  {
    LookupDirect(sectors, ptr, t, pos);
    if pos >= SECTOR_SIZE * DOUBLE_BASE {
      LookupDouble(sectors, ptr, t, pos);
    } else if pos >= SECTOR_SIZE * DIRECT_BLOCKS {
      LookupSingle(sectors, ptr, t, pos);
    }
  }

  // ---- Growth ----

  /** How many of a file's sectors are allocated before the one of this role. */
  function Order(r: Role): nat {
    match r
    case Data(k) => Total(k + 1) - 1
    case Index(m) => DIRECT_BLOCKS + BLOCK_PTRS * m + m + (if m < INDIRECT_BLOCKS then 0 else 1)
    case Outer => DOUBLE_BASE + INDIRECT_BLOCKS
  }

  /** New sectors are taken in a fixed order of roles, each the least free one. */
  ghost predicate Orderly(a: State, b: State) {
    && (forall x :: x in b.tree.roles && x !in a.tree.roles ==> Size(a.tree) <= Order(b.tree.roles[x]) < Size(b.tree))
    && (forall x, y :: x in b.tree.roles && x !in a.tree.roles && y in b.free ==> x < y)
    && (forall x, y :: x in b.tree.roles && x !in a.tree.roles && y in b.tree.roles && y !in a.tree.roles ==>
          Order(b.tree.roles[x]) < Order(b.tree.roles[y]) ==> x < y)
  }

  /** It appends zeroed sectors that were free, keeps every sector it had, and writes
      to no other sectors than those it takes and the file's own index blocks. */
  ghost predicate Extends(a: State, b: State) {
    && |b.sectors| == |a.sectors|
    && a.tree.data <= b.tree.data && a.tree.index <= b.tree.index && a.tree.outer <= b.tree.outer
    && (forall s :: s in a.tree.roles ==> s in b.tree.roles && b.tree.roles[s] == a.tree.roles[s])
    && (forall s :: s in b.tree.roles ==> s in a.tree.roles || s in a.free)
    && (forall s :: s in b.free <==> s in a.free && s !in b.tree.roles)
    && |a.free| - |b.free| == Size(b.tree) - Size(a.tree)
    && (forall k :: |a.tree.data| <= k < |b.tree.data| ==> Zeroed(b.sectors, b.tree.data[k]))
    && Untouched(a, b)
  }

  ghost predicate Untouched(a: State, b: State)
    requires |b.sectors| == |a.sectors|
  {
    forall s :: 0 <= s < |a.sectors| && (s in b.tree.roles ==> s in a.tree.roles) && !IsIndexBlock(a.tree, s) ==>
      b.sectors[s] == a.sectors[s]
  }

  /** How the growth code may change the state. */
  ghost predicate Grown(a: State, b: State) { Extends(a, b) && Orderly(a, b) }

  ghost predicate Zeroed(sectors: seq<Block>, s: Sector) { s < |sectors| && sectors[s] == ZeroBlock() }

  lemma GrownRefl(a: State)
    requires Apart(a)
    ensures Grown(a, a)
  {}

  lemma GrownTrans(a: State, b: State, c: State)
    requires Apart(a) && Apart(b) && Grown(a, b) && Grown(b, c)
    ensures Grown(a, c)
  {
    OrderlyTrans(a, b, c);
    UntouchedTrans(a, b, c);
    hide Orderly, Untouched;
    forall k | |a.tree.data| <= k < |c.tree.data|
      ensures Zeroed(c.sectors, c.tree.data[k])
    {
      if k < |b.tree.data| {
        assert c.tree.data[k] == b.tree.data[k];
        assert Zeroed(b.sectors, b.tree.data[k]);
      }
    }
  }

  lemma UntouchedTrans(a: State, b: State, c: State)
    requires Extends(a, b) && Extends(b, c)
    ensures |c.sectors| == |a.sectors| && Untouched(a, c)
  {
    hide Zeroed;
  }

  lemma OrderlyTrans(a: State, b: State, c: State)
    requires Grown(a, b) && Grown(b, c)
    ensures Orderly(a, c)
  {
    hide Order, Zeroed, Apart;
    assert Size(a.tree) <= Size(b.tree) <= Size(c.tree);
  }

  /** Growth takes as many sectors off the free set as it adds to the file, and
      the device keeps its size. */
  lemma GrownSizes(a: State, b: State)
    requires Grown(a, b)
    ensures |a.free| - |b.free| == Size(b.tree) - Size(a.tree) && |b.sectors| == |a.sectors|
    ensures |a.tree.data| <= |b.tree.data|
  {}

  /** Growth moves sectors from the free set to the file and loses none. */
  lemma GrowthConserves(a: State, b: State)
    requires Grown(a, b)
    ensures b.free + Owned(b.tree) == a.free + Owned(a.tree) && b.free !! Owned(b.tree)
  {
    hide Orderly;
    var before, after := a.free + Owned(a.tree), b.free + Owned(b.tree);
    forall s: Sector | s in before ensures s in after {}
    forall s: Sector | s in after ensures s in before {}
    assert before == after;
  }

  // The three kinds of allocation.

  function AddData(st: State, x: Sector): State
    requires x < |st.sectors|
  {
    var t := st.tree;
    st.(sectors := st.sectors[x := ZeroBlock()], free := st.free - {x},
        tree := t.(data := t.data + [x], roles := t.roles[x := Data(|t.data|)]))
  }

  function AddIndex(st: State, x: Sector): State {
    var t := st.tree;
    st.(free := st.free - {x}, tree := t.(index := t.index + [x], roles := t.roles[x := Index(|t.index|)]))
  }

  function AddOuter(st: State, x: Sector): State {
    var t := st.tree;
    st.(free := st.free - {x}, tree := t.(outer := [x], roles := t.roles[x := Outer]))
  }

  ghost predicate IsLeast(free: set<Sector>, x: Sector) {
    x in free && forall y :: y in free ==> x <= y
  }

  lemma AddedOrderly(a: State, b: State, x: Sector, r: Role)
    requires IsLeast(a.free, x) && Order(r) == Size(a.tree) && Size(b.tree) == Size(a.tree) + 1
    requires b.tree.roles == a.tree.roles[x := r] && b.free == a.free - {x}
    ensures Orderly(a, b)
  {
    hide Order;
  }

  /** Each of them, of the least free sector and in its turn, is growth. */
  lemma AddDataIsGrowth(st: State, x: Sector)
    requires Apart(st) && IsLeast(st.free, x) && x < |st.sectors| && Order(Data(|st.tree.data|)) == Size(st.tree)
    ensures Grown(st, AddData(st, x)) && Apart(AddData(st, x))
  {
    hide Order, Orderly;
    AddedOrderly(st, AddData(st, x), x, Data(|st.tree.data|));
  }

  lemma AddIndexIsGrowth(st: State, x: Sector)
    requires Apart(st) && IsLeast(st.free, x) && x < |st.sectors| && Order(Index(|st.tree.index|)) == Size(st.tree)
    ensures Grown(st, AddIndex(st, x)) && Apart(AddIndex(st, x))
  {
    hide Order, Orderly;
    AddedOrderly(st, AddIndex(st, x), x, Index(|st.tree.index|));
  }

  lemma AddOuterIsGrowth(st: State, x: Sector)
    requires Apart(st) && IsLeast(st.free, x) && x < |st.sectors| && st.tree.outer == [] && Order(Outer) == Size(st.tree)
    ensures Grown(st, AddOuter(st, x)) && Apart(AddOuter(st, x))
  {
    hide Order, Orderly;
    AddedOrderly(st, AddOuter(st, x), x, Outer);
  }

  /** The turn of a data sector comes when its index block, if any, is there. */
  lemma DataTurn(t: Tree)
    requires |t.index| == LeafCount(|t.data| + 1) && |t.outer| == OuterCount(|t.data| + 1)
    ensures Order(Data(|t.data|)) == Size(t)
  {}

  lemma IndexTurn(t: Tree)
    requires |t.data| >= DIRECT_BLOCKS && (|t.data| - DIRECT_BLOCKS) % BLOCK_PTRS == 0 && |t.index| == LeafCount(|t.data|)
    requires |t.outer| == if |t.index| < INDIRECT_BLOCKS then 0 else 1
    ensures Order(Index(|t.index|)) == Size(t)
  {}

  lemma SoundParts(st: State)
    requires Sound(st)
    ensures Apart(st) && Sized(st.tree) && PtrOk(st.ptr, st.tree) && LeavesOk(st.sectors, st.tree, |st.tree.data|)
  {}

  lemma SoundApart(st: State)
    requires Sound(st)
    ensures Apart(st)
  {}

  lemma SizeIs(st: State)
    requires Sound(st)
    ensures Size(st.tree) == Total(|st.tree.data|) && Separate(st.tree) && |st.tree.data| <= MAX_SECTORS
  {}

  /** Growth in order takes this many free sectors: with fewer there is no state with
      the file in order that it could end in. */
  lemma RoomIsNeeded(a: State, b: State)
    requires Sound(a) && Sound(b) && Grown(a, b)
    ensures |a.free| >= Total(|b.tree.data|) - Total(|a.tree.data|)
    ensures a.free == {} ==> |b.tree.data| == |a.tree.data|
  {
    SizeIs(a);
    SizeIs(b);
    GrownSizes(a, b);
    if |a.tree.data| < |b.tree.data| {
      TotalMonotone(|a.tree.data|, |b.tree.data|);
    }
  }

  // ---- Filling one index block ----

  /** Midway through an index block, having grown from `st0`: the leaves below `base` are on the device,
      and the first `filled` entries of the current one are in memory. */
  ghost predicate Filling(st0: State, st: State, base: nat, filled: nat, block: seq<Sector>) {
    && Apart(st0) && Grown(st0, st) && Apart(st) && PtrOk(st.ptr, st.tree) && LeavesOk(st.sectors, st.tree, base)
    && DIRECT_BLOCKS <= base && (base - DIRECT_BLOCKS) % BLOCK_PTRS == 0
    && filled <= BLOCK_PTRS == |block| && |st.tree.data| == base + filled
    && |st.tree.index| == LeafCount(base) + 1
    && forall x :: 0 <= x < filled ==> block[x] == st.tree.data[base + x]
  }

  lemma LeavesFrame(s0: seq<Block>, t0: Tree, s1: seq<Block>, t1: Tree, upto: nat)
    requires LeavesOk(s0, t0, upto) && Separate(t1) && InRange(t1, |s1|) && |s1| == |s0|
    requires t0.data <= t1.data && t0.index <= t1.index
    requires forall m :: 0 <= m < LeafCount(upto) ==> s1[t0.index[m]] == s0[t0.index[m]]
    ensures LeavesOk(s1, t1, upto)
  {
    forall k | DIRECT_BLOCKS <= k < upto
      ensures LeafEntry(s1, t1, k) == t1.data[k]
    {
      var m := (k - DIRECT_BLOCKS) / BLOCK_PTRS;
      assert m < LeafCount(upto) && t1.index[m] == t0.index[m];
      assert LeafEntry(s0, t0, k) == t0.data[k];
    }
  }

  /** A fresh index block, not yet written. */
  lemma FillNew(st: State, base: nat, x: Sector, ptr: seq<Sector>, block: seq<Sector>)
    requires Apart(st) && LeavesOk(st.sectors, st.tree, base) && IsLeast(st.free, x) && x < |st.sectors|
    requires DIRECT_BLOCKS <= base == |st.tree.data| && (base - DIRECT_BLOCKS) % BLOCK_PTRS == 0
    requires |st.tree.outer| == if |st.tree.index| < INDIRECT_BLOCKS then 0 else 1
    requires |st.tree.index| == LeafCount(base) && |block| == BLOCK_PTRS
    requires PtrOk(ptr, AddIndex(st, x).tree)
    ensures Filling(st, AddIndex(st, x).(ptr := ptr), base, 0, block)
  {
    hide Grown, Order, LeafEntry;
    IndexTurn(st.tree);
    AddIndexIsGrowth(st, x);
    GrownAnyPtr(st, AddIndex(st, x), ptr);
    LeavesFrame(st.sectors, st.tree, st.sectors, AddIndex(st, x).tree, base);
  }

  /** A partly filled index block, read back. */
  lemma FillOld(st: State, base: nat, filled: nat, block: seq<Sector>)
    requires Apart(st) && PtrOk(st.ptr, st.tree) && LeavesOk(st.sectors, st.tree, |st.tree.data|)
    requires DIRECT_BLOCKS <= base && (base - DIRECT_BLOCKS) % BLOCK_PTRS == 0
    requires 0 < filled <= BLOCK_PTRS && |st.tree.data| == base + filled && |st.tree.index| == LeafCount(base) + 1
    requires block == Ptrs(st.sectors[st.tree.index[LeafCount(base)]])
    ensures Filling(st, st, base, filled, block)
  {
    hide Grown, Ptrs, Separate, InRange;
    GrownRefl(st);
    forall x | 0 <= x < filled
      ensures block[x] == st.tree.data[base + x]
    {
      assert (base + x - DIRECT_BLOCKS) / BLOCK_PTRS == LeafCount(base) && (base + x - DIRECT_BLOCKS) % BLOCK_PTRS == x;
      assert LeafEntry(st.sectors, st.tree, base + x) == st.tree.data[base + x];
    }
  }

  lemma FillTurn(st: State, base: nat, filled: nat)
    requires DIRECT_BLOCKS <= base && (base - DIRECT_BLOCKS) % BLOCK_PTRS == 0 && filled < BLOCK_PTRS
    requires |st.tree.data| == base + filled && |st.tree.index| == LeafCount(base) + 1 && |st.tree.outer| == OuterCount(base + 1)
    ensures Order(Data(|st.tree.data|)) == Size(st.tree)
  {
    LeafCountStep(base, filled + 1);
    DataTurn(st.tree);
  }

  /** One more data sector. */
  lemma FillStep(st0: State, st: State, base: nat, filled: nat, block: seq<Sector>, x: Sector)
    requires Filling(st0, st, base, filled, block) && filled < BLOCK_PTRS && IsLeast(st.free, x) && x < |st.sectors|
    requires |st.tree.outer| == OuterCount(base + 1)
    ensures Filling(st0, AddData(st, x), base, filled + 1, block[filled := x])
  {
    hide Grown, LeafEntry;
    FillTurn(st, base, filled);
    AddDataIsGrowth(st, x);
    var b := AddData(st, x);
    GrownTrans(st0, st, b);
    forall m | 0 <= m < LeafCount(base)
      ensures b.sectors[st.tree.index[m]] == st.sectors[st.tree.index[m]]
    {
      assert IsIndexBlock(st.tree, st.tree.index[m]);
    }
    LeavesFrame(st.sectors, st.tree, b.sectors, b.tree, base);
  }

  /** Writing one of the file's own index blocks counts as growth too. */
  lemma IndexWriteIsGrowth(st: State, y: Sector, content: Block)
    requires Apart(st) && IsIndexBlock(st.tree, y) && y < |st.sectors|
    ensures var b := st.(sectors := st.sectors[y := content]); Grown(st, b) && Apart(b)
  {}

  lemma FillingSizes(st0: State, st: State, base: nat, filled: nat, block: seq<Sector>)
    requires Filling(st0, st, base, filled, block)
    ensures |st.tree.index| == LeafCount(base) + 1 && |st.tree.data| == base + filled
    ensures 0 < filled ==> |st.tree.index| == LeafCount(|st.tree.data|)
    ensures st.tree.index[LeafCount(base)] < |st.sectors|
  {
    hide Grown, LeafEntry, LeafCount;
    if 0 < filled {
      LeafCountStep(base, filled);
    }
  }

  lemma LeafCountStep(base: nat, filled: nat)
    requires DIRECT_BLOCKS <= base && (base - DIRECT_BLOCKS) % BLOCK_PTRS == 0 && 0 < filled <= BLOCK_PTRS
    ensures LeafCount(base + filled) == LeafCount(base) + 1
  {}

  /** Every index block is written: all but the double-indirect block is in place. */
  ghost predicate Filled(st0: State, st: State) {
    && Apart(st0) && Grown(st0, st) && Apart(st) && PtrOk(st.ptr, st.tree) && LeavesOk(st.sectors, st.tree, |st.tree.data|)
    && |st.tree.index| == LeafCount(|st.tree.data|)
  }

  /** Writing the block out completes it. */
  lemma FillEnd(st0: State, st: State, base: nat, filled: nat, block: seq<Sector>, y: Sector, content: Block)
    requires Filling(st0, st, base, filled, block) && 0 < filled && Ptrs(content) == block
    requires LeafCount(base) < |st.tree.index| && y == st.tree.index[LeafCount(base)] && y < |st.sectors|
    ensures Filled(st0, st.(sectors := st.sectors[y := content]))
  {
    hide Grown, LeafEntry, LeafCount, Ptrs;
    FillingSizes(st0, st, base, filled, block);
    var b := st.(sectors := st.sectors[y := content]);
    IndexWriteIsGrowth(st, y, content);
    GrownTrans(st0, st, b);
    FillEndLeaves(st0, st, base, filled, block, y, content);
  }

  // ---- The single-indirect range ----

  lemma SingleStart(st: State, c: Cursor)
    requires Sound(st) && CursorOf(|st.tree.data|) == c && DIRECT_BLOCKS <= c.direct < DOUBLE_INDIRECT_INDEX
    ensures var m := c.direct - DIRECT_BLOCKS;
            && |st.tree.data| == DIRECT_BLOCKS + BLOCK_PTRS * m + c.indirect && c.indirect < BLOCK_PTRS && c.doubleIndirect == 0
            && st.tree.outer == [] && |st.tree.index| == m + (if c.indirect == 0 then 0 else 1)
            && |st.ptr| == INODE_PTRS && (c.indirect > 0 ==> st.ptr[c.direct] < |st.sectors|)
  {
    CursorRanges(|st.tree.data|, c);
    var m := c.direct - DIRECT_BLOCKS;
    if c.indirect > 0 {
      assert st.ptr[DIRECT_BLOCKS + m] == st.tree.index[m];
    }
  }

  /** A single-indirect block is started with the free sector `x`. */
  lemma SingleNew(st: State, m: nat, x: Sector, block: seq<Sector>)
    requires Sound(st) && m < INDIRECT_BLOCKS && |st.tree.data| == DIRECT_BLOCKS + BLOCK_PTRS * m
    requires IsLeast(st.free, x) && x < |st.sectors| && |block| == BLOCK_PTRS
    ensures Filling(st, AddIndex(st, x).(ptr := st.ptr[DIRECT_BLOCKS + m := x]), DIRECT_BLOCKS + BLOCK_PTRS * m, 0, block)
  {
    hide Grown, LeafEntry;
    FillNew(st, DIRECT_BLOCKS + BLOCK_PTRS * m, x, st.ptr[DIRECT_BLOCKS + m := x], block);
  }

  /** A single-indirect block is read back to be filled further. */
  lemma SingleOld(st: State, m: nat, filled: nat, block: seq<Sector>)
    requires Sound(st) && m < INDIRECT_BLOCKS && |st.tree.data| == DIRECT_BLOCKS + BLOCK_PTRS * m + filled
    requires 0 < filled < BLOCK_PTRS && st.ptr[DIRECT_BLOCKS + m] < |st.sectors|
    requires block == Ptrs(st.sectors[st.ptr[DIRECT_BLOCKS + m]])
    ensures Filling(st, st, DIRECT_BLOCKS + BLOCK_PTRS * m, filled, block)
  {
    hide Grown, LeafEntry, Ptrs;
    assert st.ptr[DIRECT_BLOCKS + m] == st.tree.index[m];
    FillOld(st, DIRECT_BLOCKS + BLOCK_PTRS * m, filled, block);
  }

  /** The block being filled is the one its inode entry names. */
  lemma SingleBlock(st0: State, st: State, m: nat, filled: nat, block: seq<Sector>)
    requires Filling(st0, st, DIRECT_BLOCKS + BLOCK_PTRS * m, filled, block) && m < INDIRECT_BLOCKS
    ensures |st.ptr| == INODE_PTRS && st.ptr[DIRECT_BLOCKS + m] < |st.sectors| && |st.tree.index| == m + 1
    ensures st.ptr[DIRECT_BLOCKS + m] == st.tree.index[m] && |st.tree.data| == DIRECT_BLOCKS + BLOCK_PTRS * m + filled
  {
    hide Grown, LeafEntry;
    FillingSizes(st0, st, DIRECT_BLOCKS + BLOCK_PTRS * m, filled, block);
  }

  lemma SingleEnd(st0: State, st: State, m: nat, filled: nat, block: seq<Sector>, content: Block)
    requires Filling(st0, st, DIRECT_BLOCKS + BLOCK_PTRS * m, filled, block) && 0 < filled <= BLOCK_PTRS
    requires m < INDIRECT_BLOCKS && Ptrs(content) == block && st.tree.outer == []
    ensures |st.ptr| == INODE_PTRS && st.ptr[DIRECT_BLOCKS + m] < |st.sectors|
    ensures var b := st.(sectors := st.sectors[st.ptr[DIRECT_BLOCKS + m] := content]);
            && Sound(b) && Grown(st0, b)
            && CursorOf(|b.tree.data|) == if filled < BLOCK_PTRS then Cursor(DIRECT_BLOCKS + m, filled, 0) else Cursor(DIRECT_BLOCKS + m + 1, 0, 0)
  {
    hide Grown, LeafEntry, CursorOf, Filling, Ptrs;
    SingleBlock(st0, st, m, filled, block);
    FillEnd(st0, st, DIRECT_BLOCKS + BLOCK_PTRS * m, filled, block, st.ptr[DIRECT_BLOCKS + m], content);
    CursorCarries(m, filled);
  }

  lemma FillEndLeaves(st0: State, st: State, base: nat, filled: nat, block: seq<Sector>, y: Sector, content: Block)
    requires Filling(st0, st, base, filled, block) && 0 < filled && Ptrs(content) == block
    requires y == st.tree.index[LeafCount(base)]
    ensures LeavesOk(st.sectors[y := content], st.tree, |st.tree.data|)
  {
    hide Grown;
    var m := LeafCount(base);
    var sectors := st.sectors[y := content];
    LeavesFrame(st.sectors, st.tree, sectors, st.tree, base);
    forall k | DIRECT_BLOCKS <= k < |st.tree.data|
      ensures LeafEntry(sectors, st.tree, k) == st.tree.data[k]
    {
      if k >= base {
        assert (k - DIRECT_BLOCKS) / BLOCK_PTRS == m && (k - DIRECT_BLOCKS) % BLOCK_PTRS == k - base;
        assert block[k - base] == st.tree.data[base + (k - base)];
      }
    }
  }

  // ---- The double-indirect range ----

  /** Everything is in place but that the content of the double-indirect block is
      `block`, still in memory. */
  ghost predicate InnerOk(st: State, block: seq<Sector>) {
    && |block| == BLOCK_PTRS && Apart(st) && PtrOk(st.ptr, st.tree) && LeavesOk(st.sectors, st.tree, |st.tree.data|)
    && |st.tree.index| == LeafCount(|st.tree.data|) && |st.tree.outer| == 1
    && DOUBLE_BASE <= |st.tree.data| <= MAX_SECTORS && OuterOk(block, st.tree)
  }

  /** The first sector of the range: a double-indirect block is allocated. */
  lemma OuterNew(st: State, x: Sector, block: seq<Sector>)
    requires Sound(st) && |st.tree.data| == DOUBLE_BASE && IsLeast(st.free, x) && x < |st.sectors| && |block| == BLOCK_PTRS
    ensures var b := AddOuter(st, x).(ptr := st.ptr[DOUBLE_INDIRECT_INDEX := x]); InnerOk(b, block) && Grown(st, b)
  {
    hide Grown, LeafEntry;
    AddOuterIsGrowth(st, x);
    GrownAnyPtr(st, AddOuter(st, x), st.ptr[DOUBLE_INDIRECT_INDEX := x]);
    LeavesFrame(st.sectors, st.tree, st.sectors, AddOuter(st, x).tree, |st.tree.data|);
  }

  lemma GrownAnyPtr(a: State, b: State, ptr: seq<Sector>)
    requires Grown(a, b)
    ensures Grown(a, b.(ptr := ptr))
  {}

  /** Later on it is read back. */
  lemma OuterOld(st: State)
    requires Sound(st) && DOUBLE_BASE < |st.tree.data|
    ensures |st.ptr| == INODE_PTRS && st.ptr[DOUBLE_INDIRECT_INDEX] < |st.sectors|
    ensures InnerOk(st, Ptrs(st.sectors[st.ptr[DOUBLE_INDIRECT_INDEX]])) && Grown(st, st)
  {
    GrownRefl(st);
  }

  /** Writing it out completes the tree. */
  lemma OuterEnd(st0: State, st: State, block: seq<Sector>, content: Block)
    requires InnerOk(st, block) && Apart(st0) && Grown(st0, st) && Ptrs(content) == block && DOUBLE_BASE < |st.tree.data|
    ensures |st.ptr| == INODE_PTRS && st.ptr[DOUBLE_INDIRECT_INDEX] < |st.sectors|
    ensures var b := st.(sectors := st.sectors[st.ptr[DOUBLE_INDIRECT_INDEX] := content]); Sound(b) && Grown(st0, b)
  {
    hide Grown, LeafEntry, Ptrs, LeafCount;
    var y := st.tree.outer[0];
    var b := st.(sectors := st.sectors[y := content]);
    IndexWriteIsGrowth(st, y, content);
    GrownTrans(st0, st, b);
    forall m | 0 <= m < LeafCount(|st.tree.data|)
      ensures b.sectors[st.tree.index[m]] == st.sectors[st.tree.index[m]]
    {
      assert st.tree.roles[st.tree.index[m]] == Index(m);
    }
    LeavesFrame(st.sectors, st.tree, b.sectors, st.tree, |st.tree.data|);
  }

  /** Second-level block number `m` is started with the free sector `x`. */
  lemma InnerNew(st: State, outer: seq<Sector>, m: nat, x: Sector, block: seq<Sector>)
    requires InnerOk(st, outer) && m < BLOCK_PTRS && |st.tree.data| == DOUBLE_BASE + BLOCK_PTRS * m
    requires IsLeast(st.free, x) && x < |st.sectors| && |block| == BLOCK_PTRS
    ensures Filling(st, AddIndex(st, x), DOUBLE_BASE + BLOCK_PTRS * m, 0, block)
    ensures OuterOk(outer[m := x], AddIndex(st, x).tree)
  {
    hide Grown, LeafEntry;
    FillNew(st, DOUBLE_BASE + BLOCK_PTRS * m, x, st.ptr, block);
  }

  /** Second-level block number `m` is read back to be filled further. */
  lemma InnerOld(st: State, outer: seq<Sector>, m: nat, filled: nat, block: seq<Sector>)
    requires InnerOk(st, outer) && m < BLOCK_PTRS && |st.tree.data| == DOUBLE_BASE + BLOCK_PTRS * m + filled
    requires 0 < filled < BLOCK_PTRS && outer[m] < |st.sectors| && block == Ptrs(st.sectors[outer[m]])
    ensures Filling(st, st, DOUBLE_BASE + BLOCK_PTRS * m, filled, block)
  {
    hide Grown, LeafEntry, Ptrs;
    assert outer[(m + INDIRECT_BLOCKS) - INDIRECT_BLOCKS] == st.tree.index[m + INDIRECT_BLOCKS];
    FillOld(st, DOUBLE_BASE + BLOCK_PTRS * m, filled, block);
  }

  /** What a cursor in the range says while `outer` is in memory. */
  lemma InnerStart(st: State, outer: seq<Sector>, c: Cursor)
    requires InnerOk(st, outer) && CursorOf(|st.tree.data|) == c && c.indirect < BLOCK_PTRS
    ensures |st.tree.data| == DOUBLE_BASE + BLOCK_PTRS * c.indirect + c.doubleIndirect && c.doubleIndirect < BLOCK_PTRS
    ensures c.direct == DOUBLE_INDIRECT_INDEX && |st.tree.outer| == 1
    ensures |st.tree.index| == INDIRECT_BLOCKS + c.indirect + (if c.doubleIndirect == 0 then 0 else 1)
    ensures c.doubleIndirect > 0 ==> outer[c.indirect] < |st.sectors|
  {
    hide LeafEntry;
    CursorRanges(|st.tree.data|, c);
    if c.doubleIndirect > 0 {
      var m := c.indirect + INDIRECT_BLOCKS;
      assert outer[m - INDIRECT_BLOCKS] == st.tree.index[m];
      assert st.tree.index[m] in st.tree.roles;
    }
  }

  lemma InnerOuter(st: State, outer: seq<Sector>)
    requires InnerOk(st, outer)
    ensures OuterOk(outer, st.tree) && |st.tree.outer| == 1
  {}

  lemma OuterSame(outer: seq<Sector>, t0: Tree, t1: Tree)
    requires |outer| == BLOCK_PTRS && OuterOk(outer, t0) && t1.index == t0.index
    ensures OuterOk(outer, t1)
  {}

  /** The block being filled is the one the double-indirect block names. */
  lemma InnerBlock(st0: State, st: State, outer: seq<Sector>, m: nat, filled: nat, block: seq<Sector>)
    requires Filling(st0, st, DOUBLE_BASE + BLOCK_PTRS * m, filled, block) && m < BLOCK_PTRS
    requires |outer| == BLOCK_PTRS && OuterOk(outer, st.tree)
    ensures |st.tree.index| == m + INDIRECT_BLOCKS + 1 && outer[m] == st.tree.index[m + INDIRECT_BLOCKS]
    ensures outer[m] < |st.sectors| && |st.tree.data| == DOUBLE_BASE + BLOCK_PTRS * m + filled
  {
    hide Grown, LeafEntry;
    FillingSizes(st0, st, DOUBLE_BASE + BLOCK_PTRS * m, filled, block);
    assert outer[(m + INDIRECT_BLOCKS) - INDIRECT_BLOCKS] == st.tree.index[m + INDIRECT_BLOCKS];
  }

  lemma InnerEnd(st0: State, st: State, outer: seq<Sector>, m: nat, filled: nat, block: seq<Sector>, content: Block)
    requires Filling(st0, st, DOUBLE_BASE + BLOCK_PTRS * m, filled, block) && 0 < filled <= BLOCK_PTRS
    requires m < BLOCK_PTRS && Ptrs(content) == block && |st.tree.outer| == 1
    requires |outer| == BLOCK_PTRS && OuterOk(outer, st.tree)
    ensures outer[m] < |st.sectors|
    ensures var b := st.(sectors := st.sectors[outer[m] := content]);
            && InnerOk(b, outer) && Grown(st0, b)
            && CursorOf(|b.tree.data|) == if filled < BLOCK_PTRS then Cursor(DOUBLE_INDIRECT_INDEX, m, filled) else Cursor(DOUBLE_INDIRECT_INDEX, m + 1, 0)
  {
    hide Grown, LeafEntry, CursorOf, Filling, Ptrs;
    InnerBlock(st0, st, outer, m, filled, block);
    FillEnd(st0, st, DOUBLE_BASE + BLOCK_PTRS * m, filled, block, outer[m], content);
    CursorCarries(m, filled);
  }

  lemma InnerParts(st: State, block: seq<Sector>)
    requires InnerOk(st, block)
    ensures Apart(st) && |st.tree.index| == LeafCount(|st.tree.data|) && |st.tree.outer| == 1
    ensures DOUBLE_BASE <= |st.tree.data| <= MAX_SECTORS && |st.ptr| == INODE_PTRS
    ensures st.ptr[DOUBLE_INDIRECT_INDEX] == st.tree.outer[0] < |st.sectors|
  {}

  // ---- The direct range ----

  lemma DirectStep(st: State, x: Sector)
    requires Sound(st) && |st.tree.data| < DIRECT_BLOCKS && IsLeast(st.free, x) && x < |st.sectors|
    ensures var b := AddData(st, x).(ptr := st.ptr[|st.tree.data| := x]);
            && Sound(b) && Grown(st, b) && CursorOf(|b.tree.data|) == Cursor(|st.tree.data| + 1, 0, 0)
  {
    hide Grown;
    AddDataIsGrowth(st, x);
    GrownAnyPtr(st, AddData(st, x), st.ptr[|st.tree.data| := x]);
  }

  lemma SoundSeparate(st: State)
    requires Sound(st)
    ensures Separate(st.tree)
  {}

  lemma DirectEntry(st: State, k: nat)
    requires Sound(st) && k < |st.tree.data| && k < DIRECT_BLOCKS
    ensures |st.ptr| == INODE_PTRS && st.ptr[k] == st.tree.data[k]
  {}

  lemma SingleEntry(st: State, m: nat)
    requires Sound(st) && m < |st.tree.index| && m < INDIRECT_BLOCKS
    ensures |st.ptr| == INODE_PTRS && st.ptr[DIRECT_BLOCKS + m] == st.tree.index[m]
  {}

  lemma EmptyIsSound(st: State)
    requires st.tree == EmptyTree && |st.ptr| == INODE_PTRS
    ensures Sound(st) && Apart(st) && CursorOf(0) == Cursor(0, 0, 0)
  {}

  lemma GrownFromAnyPtr(a: State, b: State, ptr: seq<Sector>)
    requires Grown(a, b)
    ensures Grown(a.(ptr := ptr), b)
  {}

  /** A file grown from nothing consists of sectors that were free, its data
      zeroed. */
  lemma NewFile(a: State, b: State, x: Sector)
    requires a.tree == EmptyTree && Grown(a, b) && Sound(b) && x !in a.free && x < |a.sectors|
    ensures x !in Owned(b.tree) && Owned(b.tree) <= a.free && b.free == a.free - Owned(b.tree)
    ensures |b.sectors| == |a.sectors|
    ensures forall k :: 0 <= k < |b.tree.data| ==> Zeroed(b.sectors, b.tree.data[k]) && b.tree.data[k] != x
    ensures forall s :: 0 <= s < |a.sectors| && s !in Owned(b.tree) ==> b.sectors[s] == a.sectors[s]
  {
    forall k | 0 <= k < |b.tree.data|
      ensures Zeroed(b.sectors, b.tree.data[k]) && b.tree.data[k] != x
    {
      assert b.tree.roles[b.tree.data[k]] == Data(k);
    }
  }

  /** A write to a sector that is not the file's leaves it in place. */
  lemma OtherSectorWritten(st: State, x: Sector, sectors: seq<Block>)
    requires Sound(st) && x !in Owned(st.tree) && x < |st.sectors| && |sectors| == |st.sectors|
    requires forall s :: 0 <= s < |sectors| && s != x ==> sectors[s] == st.sectors[s]
    ensures Sound(st.(sectors := sectors))
  {
    MapsFrame(st.sectors, sectors, st.ptr, st.tree);
  }

  // ---- Release ----

  /** The first `k` data sectors, the first `m` index blocks and, if `o`, the
      double-indirect block. */
  ghost function Part(t: Tree, k: nat, m: nat, o: bool): set<Sector> {
    set s | s in t.roles && (match t.roles[s] case Data(j) => j < k case Index(j) => j < m case Outer => o)
  }

  lemma PartAll(t: Tree)
    requires Separate(t)
    ensures Part(t, 0, 0, false) == {} && Part(t, |t.data|, |t.index|, true) == Owned(t)
    ensures t.outer == [] ==> Part(t, |t.data|, |t.index|, false) == Owned(t)
  {
    forall s | s in t.roles
      ensures Listed(t, s, t.roles[s])
    {}
  }

  /** Releasing the next data sector: it is in range, in use until now, and the
      only change to the released part. */
  lemma ReleaseData(st: State, k: nat, m: nat, o: bool)
    requires Apart(st) && k < |st.tree.data|
    ensures var x := st.tree.data[k];
            && x < |st.sectors| && x !in st.free + Part(st.tree, k, m, o)
            && Part(st.tree, k + 1, m, o) == Part(st.tree, k, m, o) + {x}
  {
    var t, x := st.tree, st.tree.data[k];
    forall s | s in t.roles && t.roles[s] == Data(k)
      ensures s == x
    {
      assert Listed(t, s, t.roles[s]);
    }
  }

  lemma ReleaseIndex(st: State, k: nat, m: nat, o: bool)
    requires Apart(st) && m < |st.tree.index|
    ensures var x := st.tree.index[m];
            && x < |st.sectors| && x !in st.free + Part(st.tree, k, m, o)
            && Part(st.tree, k, m + 1, o) == Part(st.tree, k, m, o) + {x}
  {
    var t, x := st.tree, st.tree.index[m];
    forall s | s in t.roles && t.roles[s] == Index(m)
      ensures s == x
    {
      assert Listed(t, s, t.roles[s]);
    }
  }

  lemma ReleaseOuter(st: State, k: nat, m: nat)
    requires Apart(st) && |st.tree.outer| == 1
    ensures var x := st.tree.outer[0];
            && x < |st.sectors| && x !in st.free + Part(st.tree, k, m, false)
            && Part(st.tree, k, m, true) == Part(st.tree, k, m, false) + {x}
  {
    var t, x := st.tree, st.tree.outer[0];
    forall s | s in t.roles && t.roles[s] == Outer
      ensures s == x
    {
      assert Listed(t, s, t.roles[s]);
    }
  }

  /** What index block `m` holds on the device. */
  lemma LeafContent(st: State, m: nat, cnt: nat)
    requires Sound(st) && m < |st.tree.index| && cnt <= BLOCK_PTRS && DIRECT_BLOCKS + BLOCK_PTRS * m + cnt <= |st.tree.data|
    ensures st.tree.index[m] < |st.sectors|
    ensures forall i :: 0 <= i < cnt ==> Ptrs(st.sectors[st.tree.index[m]])[i] == st.tree.data[DIRECT_BLOCKS + BLOCK_PTRS * m + i]
  {
    hide Ptrs;
    var base := DIRECT_BLOCKS + BLOCK_PTRS * m;
    forall i | 0 <= i < cnt
      ensures Ptrs(st.sectors[st.tree.index[m]])[i] == st.tree.data[base + i]
    {
      assert LeafEntry(st.sectors, st.tree, base + i) == st.tree.data[base + i];
      assert (base + i - DIRECT_BLOCKS) / BLOCK_PTRS == m && (base + i - DIRECT_BLOCKS) % BLOCK_PTRS == i;
    }
  }

  /** What the double-indirect block holds on the device. */
  lemma OuterContent(st: State)
    requires Sound(st) && st.tree.outer != []
    ensures |st.tree.outer| == 1 && |st.ptr| == INODE_PTRS && st.ptr[DOUBLE_INDIRECT_INDEX] == st.tree.outer[0] < |st.sectors|
    ensures forall i :: 0 <= i < |st.tree.index| - INDIRECT_BLOCKS && i < BLOCK_PTRS ==>
              Ptrs(st.sectors[st.tree.outer[0]])[i] == st.tree.index[i + INDIRECT_BLOCKS]
  {
    hide Ptrs, LeafEntry;
    forall i | 0 <= i < |st.tree.index| - INDIRECT_BLOCKS && i < BLOCK_PTRS
      ensures Ptrs(st.sectors[st.tree.outer[0]])[i] == st.tree.index[i + INDIRECT_BLOCKS]
    {
      var m := i + INDIRECT_BLOCKS;
      assert Ptrs(st.sectors[st.tree.outer[0]])[m - INDIRECT_BLOCKS] == st.tree.index[m];
    }
  }
}
