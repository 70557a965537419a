/** The kernel heap of `pintos/src/threads/malloc.c` as a value: descriptors with
    their free lists, arenas, and the pages in use. */
module Arenas {
  import opened Basics
  import opened Bitmap
  import opened PageAllocator

  /** `sizeof (struct arena)`. */
  const HEADER := 12
  const DESC_CNT := 7
  const SIZE_T := 0x1_0000_0000

  datatype Desc = Desc(blockSize: nat, blocksPerArena: nat, freeList: seq<nat>)

  /** The header of an arena: of small blocks, with their descriptor and the number
      of them that are free, or of one big block of `pages` pages. */
  datatype Arena = Small(desc: nat, freeCnt: nat) | Big(pages: nat)

  /** `owner` says for each page of the heap which arena it belongs to; the other
      pages in use are someone else's. */
  datatype Heap = Heap(descs: seq<Desc>, arenas: map<nat, Arena>, base: nat, bits: seq<bool>, owner: map<nat, nat>)

  function BlockSize(d: nat): (r: nat)
    ensures r > 0
  {
    if d == 0 then 16 else 2 * BlockSize(d - 1)
  }

  function PerArena(d: nat): nat {
    DivNat(PGSIZE - HEADER, BlockSize(d));
    (PGSIZE - HEADER) / BlockSize(d)
  }

  /** The seven block sizes. */
  lemma BlockSizes()
    ensures BlockSize(0) == 16 && BlockSize(1) == 32 && BlockSize(2) == 64 && BlockSize(3) == 128
    ensures BlockSize(4) == 256 && BlockSize(5) == 512 && BlockSize(6) == 1024
    ensures forall d :: 0 <= d < DESC_CNT ==> BlockSize(d) <= 1024 && PerArena(d) >= 3
  {
    assert BlockSize(2) == 64;
    assert BlockSize(4) == 256;
    assert BlockSize(6) == 1024;
    forall d | 0 <= d < DESC_CNT
      ensures BlockSize(d) <= 1024 && PerArena(d) >= 3
    {
      assert d == 0 || d == 1 || d == 2 || d == 3 || d == 4 || d == 5 || d == 6;
    }
  }

  /** `arena_to_block`. */
  function BlockAt(p: nat, d: nat, i: nat): nat {
    PGSIZE * p + HEADER + i * BlockSize(d)
  }

  /** `pg_round_down`, as a page number. */
  function PageOf(addr: nat): nat { addr / PGSIZE }

  lemma BlockInPage(p: nat, d: nat, i: nat)
    requires i < PerArena(d)
    ensures PGSIZE * p + HEADER <= BlockAt(p, d, i)
    ensures BlockAt(p, d, i) + BlockSize(d) <= PGSIZE * (p + 1) && PageOf(BlockAt(p, d, i)) == p
  {
    var b := BlockSize(d);
    Room(b, i, PerArena(d));
    DivNat(PGSIZE - HEADER, b);
  }

  /** Different blocks of one arena do not overlap. */
  lemma BlocksApart(p: nat, d: nat, i: nat, j: nat)
    requires i != j
    ensures BlockAt(p, d, i) + BlockSize(d) <= BlockAt(p, d, j) || BlockAt(p, d, j) + BlockSize(d) <= BlockAt(p, d, i)
  {
    if i < j {
      Room(BlockSize(d), i, j);
    } else {
      Room(BlockSize(d), j, i);
    }
  }

  // ---- The invariant ----

  predicate IsSmall(h: Heap, p: nat, d: nat) {
    p in h.arenas && h.arenas[p].Small? && h.arenas[p].desc == d
  }

  /** `x` is where a block of `d` begins in page `p`. */
  ghost predicate IsBlock(p: nat, d: nat, x: nat) {
    exists i :: 0 <= i < PerArena(d) && x == BlockAt(p, d, i)
  }

  /** Address `x` is a block of an arena of descriptor `d`. */
  ghost predicate InArena(h: Heap, d: nat, x: nat) {
    IsSmall(h, PageOf(x), d) && IsBlock(PageOf(x), d, x)
  }

  /** The indexes of the free blocks of an arena. */
  ghost function FreeIdx(q: seq<nat>, p: nat, d: nat): set<nat> {
    set i | 0 <= i < PerArena(d) && BlockAt(p, d, i) in q
  }

  function PagesOf(a: Arena): nat { if a.Small? then 1 else a.pages }

  ghost predicate ListOk(h: Heap, d: nat)
    requires d < |h.descs|
  {
    && h.descs[d].blockSize == BlockSize(d) && h.descs[d].blocksPerArena == PerArena(d)
    && NoDup(h.descs[d].freeList)
    && (forall k :: 0 <= k < |h.descs[d].freeList| ==> InArena(h, d, h.descs[d].freeList[k]))
  }

  ghost predicate ArenaOk(h: Heap, p: nat)
    requires p in h.arenas
  {
    var a := h.arenas[p];
    && 0 < p
    && (a.Small? ==> a.desc < |h.descs| && a.freeCnt == |FreeIdx(h.descs[a.desc].freeList, p, a.desc)|)
    && (a.Big? ==> a.pages > 0)
    && (forall q :: p <= q < p + PagesOf(a) ==> q in h.owner && h.owner[q] == p)
  }

  ghost predicate PageOk(h: Heap, q: nat) {
    q in h.owner ==>
      && h.base <= q < h.base + |h.bits| && h.bits[q - h.base]
      && var p := h.owner[q]; p in h.arenas && p <= q < p + PagesOf(h.arenas[p])
  }

  /** Page number `i` of the pool is in use by something else than the heap. */
  ghost predicate Foreign(h: Heap, i: nat) {
    i < |h.bits| && h.bits[i] && h.base + i !in h.owner
  }

  lemma ForeignTrans(a: Heap, b: Heap, c: Heap)
    requires SameForeign(a, b) && SameForeign(b, c)
    ensures SameForeign(a, c)
  {
    assert forall i :: 0 <= i < |a.bits| ==> (Foreign(b, i) <==> Foreign(a, i)) && (Foreign(c, i) <==> Foreign(b, i));
  }

  /** The pages of others are the same. */
  ghost predicate SameForeign(h: Heap, z: Heap) {
    z.base == h.base && |z.bits| == |h.bits| && forall i :: 0 <= i < |h.bits| ==> (Foreign(z, i) <==> Foreign(h, i))
  }

  ghost predicate Core(h: Heap) {
    && 0 < h.base && |h.descs| == DESC_CNT
    && (forall d :: 0 <= d < |h.descs| ==> ListOk(h, d))
    && (forall p :: p in h.arenas ==> ArenaOk(h, p))
    && (forall q :: PageOk(h, q))
  }

  /** No arena but `p` is kept without a block in use. */
  ghost predicate RetainedBut(h: Heap, p: nat) {
    forall r :: r in h.arenas && r != p && h.arenas[r].Small? ==> h.arenas[r].freeCnt < PerArena(h.arenas[r].desc)
  }

  ghost predicate Inv(h: Heap) { Core(h) && RetainedBut(h, 0) }

  /** A block that was handed out and not given back. */
  ghost predicate Live(h: Heap, x: nat) {
    var p := PageOf(x);
    && p in h.arenas
    && (match h.arenas[p]
        case Small(d, _) => d < |h.descs| && x !in h.descs[d].freeList && IsBlock(p, d, x)
        case Big(_) => x == PGSIZE * p + HEADER)
  }

  /** `block_size`: the bytes of a live block. */
  function SizeOf(h: Heap, x: nat): int
    requires PageOf(x) in h.arenas
  {
    match h.arenas[PageOf(x)]
    case Small(d, _) => BlockSize(d)
    case Big(pages) => PGSIZE * pages - HEADER
  }

  // ---- What it gives ----

  lemma BlockInUse(h: Heap, x: nat)
    requires Core(h) && Live(h, x)
    ensures var p := PageOf(x); p in h.arenas && PGSIZE * p + HEADER <= x && x + SizeOf(h, x) <= PGSIZE * (p + PagesOf(h.arenas[p]))
    ensures PageOf(x) in h.owner && h.owner[PageOf(x)] == PageOf(x)
  {
    var p := PageOf(x);
    assert ArenaOk(h, p) && PageOk(h, p);
    if h.arenas[p].Small? {
      var d := h.arenas[p].desc;
      var i :| 0 <= i < PerArena(d) && x == BlockAt(p, d, i);
      BlockInPage(p, d, i);
    }
  }

  /** Live blocks do not overlap ... */
  lemma LiveApart(h: Heap, x: nat, y: nat)
    requires Core(h) && Live(h, x) && Live(h, y) && x != y
    ensures PageOf(x) in h.arenas && PageOf(y) in h.arenas && (x + SizeOf(h, x) <= y || y + SizeOf(h, y) <= x)
  {
    hide PageOk, ArenaOk, ListOk, BlockAt, PerArena;
    BlockInUse(h, x);
    BlockInUse(h, y);
    var p: nat, r: nat := PageOf(x), PageOf(y);
    if p == r {
      var d := h.arenas[p].desc;
      var i :| 0 <= i < PerArena(d) && x == BlockAt(p, d, i);
      var j :| 0 <= j < PerArena(d) && y == BlockAt(p, d, j);
      BlocksApart(p, d, i, j);
    } else {
      ArenasApart(h, p, r);
    }
  }

  lemma ArenasApart(h: Heap, p: nat, r: nat)
    requires Core(h) && p in h.arenas && r in h.arenas && p != r
    ensures p + PagesOf(h.arenas[p]) <= r || r + PagesOf(h.arenas[r]) <= p
  {
    hide ListOk, FreeIdx;
    assert ArenaOk(h, p) && ArenaOk(h, r);
    if p <= r < p + PagesOf(h.arenas[p]) {
      assert h.owner[r] == p;
    }
    if r <= p < r + PagesOf(h.arenas[r]) {
      assert h.owner[p] == r;
    }
  }

  /** ... they lie in pages in use ... */
  lemma LiveInPages(h: Heap, x: nat, addr: nat)
    requires Core(h) && Live(h, x) && x <= addr < x + SizeOf(h, x)
    ensures h.base <= PageOf(addr) < h.base + |h.bits| && h.bits[PageOf(addr) - h.base]
  {
    BlockInUse(h, x);
    var p: nat, q: nat := PageOf(x), PageOf(addr);
    assert ArenaOk(h, p) && p <= q < p + PagesOf(h.arenas[p]);
    assert PageOk(h, q);
  }

  /** ... every arena kept has one ... */
  lemma ArenaHasLive(h: Heap, p: nat)
    requires Inv(h) && p in h.arenas
    ensures exists x :: PageOf(x) == p && Live(h, x)
  {
    assert ArenaOk(h, p);
    if h.arenas[p].Big? {
      assert PageOf(PGSIZE * p + HEADER) == p;
      assert Live(h, PGSIZE * p + HEADER);
    } else {
      var d := h.arenas[p].desc;
      var free := FreeIdx(h.descs[d].freeList, p, d);
      var i := Missing(free, PerArena(d));
      BlockInPage(p, d, i);
      assert Live(h, BlockAt(p, d, i));
    }
  }

  lemma Missing(s: set<nat>, n: nat) returns (i: nat)
    requires |s| < n && forall k :: k in s ==> k < n
    ensures i < n && i !in s
  {
    if Upto(n) <= s {
      Subset(Upto(n), s);
    }
    i :| i in Upto(n) && i !in s;
  }

  function Upto(n: nat): (s: set<nat>)
    ensures |s| == n && forall k: nat :: k in s <==> k < n
  {
    if n == 0 then {} else
      var s := Upto(n - 1);
      assert n - 1 !in s;
      s + {n - 1}
  }

  lemma Subset(a: set<nat>, b: set<nat>)
    requires a <= b
    ensures |a| <= |b| && (|a| == |b| ==> a == b)
  {
    assert b == a + (b - a);
    assert |b| == |a| + |b - a|;
  }

  /** ... so once all blocks are given back, the pages in use are exactly those of
      others, as they were at any earlier time. */
  lemma AllFreed(h: Heap, z: Heap)
    requires Inv(z) && SameForeign(h, z) && forall x :: !Live(z, x)
    ensures z.arenas == map[] && z.owner == map[]
    ensures forall i :: 0 <= i < |z.bits| ==> (z.bits[i] <==> Foreign(h, i))
  {
    forall q | q in z.owner
      ensures z.owner[q] in z.arenas
    {
      assert PageOk(z, q);
    }
    forall p | p in z.arenas
      ensures false
    {
      ArenaHasLive(z, p);
    }
    assert forall i :: 0 <= i < |z.bits| ==> (Foreign(z, i) <==> Foreign(h, i));
  }

  /** `free_cnt` is the number of an arena's blocks on its descriptor's free list. */
  lemma FreeCount(h: Heap, p: nat)
    requires Core(h) && p in h.arenas && h.arenas[p].Small?
    ensures h.arenas[p].desc < |h.descs|
    ensures var d := h.arenas[p].desc;
            h.arenas[p].freeCnt == |set k | 0 <= k < |h.descs[d].freeList| && PageOf(h.descs[d].freeList[k]) == p|
  {
    assert ArenaOk(h, p);
    var d := h.arenas[p].desc;
    var q := h.descs[d].freeList;
    assert ListOk(h, d);
    var ks := set k | 0 <= k < |q| && PageOf(q[k]) == p;
    SameSize(q, p, d, ks);
  }

  lemma SameSize(q: seq<nat>, p: nat, d: nat, ks: set<int>)
    requires NoDup(q) && ks == (set k | 0 <= k < |q| && PageOf(q[k]) == p)
    requires forall k :: 0 <= k < |q| && PageOf(q[k]) == p ==> IsBlock(p, d, q[k])
    ensures |FreeIdx(q, p, d)| == |ks|
    decreases |q|
  {
    hide BlockAt, PerArena, PageOf, FreeIdx;
    if q == [] {
      assert ks == {};
      NoneFree(p, d);
    } else {
      var n := |q| - 1;
      var r := q[..n];
      var js := set k | 0 <= k < |r| && PageOf(r[k]) == p;
      SameSize(r, p, d, js);
      assert q == r + [q[n]];
      if PageOf(q[n]) == p {
        assert IsBlock(p, d, q[n]);
        var i :| 0 <= i < PerArena(d) && q[n] == BlockAt(p, d, i);
        assert ks == js + {n};
        OneMoreFree(q, r, p, d, i);
      } else {
        assert ks == js;
        OtherPage(q, r, p, d, q[n]);
      }
    }
  }

  lemma NoneFree(p: nat, d: nat)
    ensures FreeIdx([], p, d) == {}
  {}

  /** A block of another page is none of this arena's. */
  lemma OtherPage(q: seq<nat>, r: seq<nat>, p: nat, d: nat, x: nat)
    requires PageOf(x) != p && forall y :: y in q <==> y in r || y == x
    ensures FreeIdx(q, p, d) == FreeIdx(r, p, d)
  {
    hide BlockAt, PageOf;
    forall i | 0 <= i < PerArena(d)
      ensures BlockAt(p, d, i) != x
    {
      BlockInPage(p, d, i);
    }
  }

  /** One block more on the list is one index more. */
  lemma OneMoreFree(q: seq<nat>, r: seq<nat>, p: nat, d: nat, i: nat)
    requires i < PerArena(d) && BlockAt(p, d, i) !in r
    requires forall x :: x in q <==> x in r || x == BlockAt(p, d, i)
    ensures FreeIdx(q, p, d) == FreeIdx(r, p, d) + {i} && i !in FreeIdx(r, p, d)
    ensures |FreeIdx(q, p, d)| == |FreeIdx(r, p, d)| + 1
  {
    hide BlockAt;
    forall j | 0 <= j < PerArena(d) && j != i
      ensures BlockAt(p, d, j) != BlockAt(p, d, i)
    {
      BlocksApart(p, d, i, j);
    }
  }

  // ---- Steps at one arena ----

  predicate OnList(h: Heap, d: nat, x: nat)
    requires d < |h.descs|
  {
    x in h.descs[d].freeList
  }

  /** The two heaps differ only in the arena of page `p`, its blocks and its pages. */
  ghost predicate SameElsewhere(h: Heap, z: Heap, p: nat) {
    && z.base == h.base && |z.bits| == |h.bits| && |z.descs| == |h.descs|
    && (forall d :: 0 <= d < |h.descs| ==>
          z.descs[d].blockSize == h.descs[d].blockSize && z.descs[d].blocksPerArena == h.descs[d].blocksPerArena)
    && (forall d, x :: 0 <= d < |h.descs| && PageOf(x) != p ==> (OnList(z, d, x) <==> OnList(h, d, x)))
    && (forall r :: r != p ==> (r in z.arenas <==> r in h.arenas) && (r in z.arenas ==> z.arenas[r] == h.arenas[r]))
    && (forall q :: (q in z.owner && z.owner[q] != p) <==> (q in h.owner && h.owner[q] != p))
    && (forall q :: q in z.owner && z.owner[q] != p ==> q in h.owner && z.owner[q] == h.owner[q])
  }

  lemma ArenaElsewhere(h: Heap, z: Heap, p: nat, r: nat)
    requires SameElsewhere(h, z, p) && r != p && r in h.arenas && ArenaOk(h, r)
    ensures r in z.arenas && ArenaOk(z, r)
  {
    var a := h.arenas[r];
    if a.Small? {
      var d := a.desc;
      forall i | 0 <= i < PerArena(d)
        ensures BlockAt(r, d, i) in z.descs[d].freeList <==> BlockAt(r, d, i) in h.descs[d].freeList
      {
        BlockInPage(r, d, i);
        assert OnList(z, d, BlockAt(r, d, i)) <==> OnList(h, d, BlockAt(r, d, i));
      }
      assert FreeIdx(z.descs[d].freeList, r, d) == FreeIdx(h.descs[d].freeList, r, d);
    }
  }

  lemma LiveElsewhere(h: Heap, z: Heap, p: nat, x: nat)
    requires SameElsewhere(h, z, p) && PageOf(x) != p
    ensures Live(z, x) <==> Live(h, x)
  {
    if PageOf(x) in h.arenas && h.arenas[PageOf(x)].Small? {
      var d := h.arenas[PageOf(x)].desc;
      if d < |h.descs| {
        assert OnList(z, d, x) <==> OnList(h, d, x);
      }
    }
  }

  lemma InArenaElsewhere(h: Heap, z: Heap, p: nat, d: nat, x: nat)
    requires SameElsewhere(h, z, p) && PageOf(x) != p && InArena(h, d, x)
    ensures InArena(z, d, x)
  {}

  /** What is left to show after such a step: the lists, the arena itself and the
      pages. */
  lemma CoreAfter(h: Heap, z: Heap, p: nat)
    requires Core(h) && SameElsewhere(h, z, p)
    requires forall d :: 0 <= d < |z.descs| ==> ListAt(z, p, d)
    requires p in z.arenas ==> ArenaOk(z, p)
    requires forall q :: PageOk(z, q)
    ensures Core(z)
  {
    hide ArenaOk, PageOk, FreeIdx;
    forall r | r in z.arenas
      ensures ArenaOk(z, r)
    {
      if r != p {
        ArenaElsewhere(h, z, p, r);
      }
    }
    forall d | 0 <= d < |z.descs|
      ensures ListOk(z, d)
    {
      assert ListOk(h, d) && ListAt(z, p, d);
      forall k | 0 <= k < |z.descs[d].freeList|
        ensures InArena(z, d, z.descs[d].freeList[k])
      {
        var x := z.descs[d].freeList[k];
        if PageOf(x) != p {
          assert OnList(z, d, x) && OnList(h, d, x);
          InArenaElsewhere(h, z, p, d, x);
        }
      }
    }
  }

  /** A list has no block twice, and only blocks of `p` that are there. */
  ghost predicate ListAt(h: Heap, p: nat, d: nat)
    requires d < |h.descs|
  {
    && NoDup(h.descs[d].freeList)
    && (forall k :: 0 <= k < |h.descs[d].freeList| && PageOf(h.descs[d].freeList[k]) == p ==> InArena(h, d, h.descs[d].freeList[k]))
  }

  lemma ListHas(h: Heap, p: nat, d: nat)
    requires Core(h) && d < |h.descs|
    ensures ListAt(h, p, d)
  {
    assert ListOk(h, d);
  }

  /** Pages in use or not: those of `p` are, the others are as before. */
  lemma PagesAfter(h: Heap, z: Heap, p: nat, n: nat, used: bool)
    requires Core(h) && SameElsewhere(h, z, p) && h.base <= p && p - h.base + n <= |h.bits|
    requires z.bits == SetGroup(h.bits, p - h.base, n, used)
    requires forall q :: (q in z.owner && z.owner[q] == p) <==> used && p <= q < p + n
    requires forall q :: q in h.owner && h.owner[q] == p ==> p <= q < p + n
    requires used ==> p in z.arenas && PagesOf(z.arenas[p]) == n
    requires forall q :: p <= q < p + n ==> if used then !h.bits[q - h.base] else q in h.owner && h.owner[q] == p
    ensures (forall q :: PageOk(z, q)) && SameForeign(h, z)
  {
    hide ListOk, ArenaOk;
    forall i | 0 <= i < |h.bits|
      ensures Foreign(z, i) <==> Foreign(h, i)
    {
      assert PageOk(h, h.base + i);
      var q := h.base + i;
      assert (q in z.owner && z.owner[q] != p) <==> (q in h.owner && h.owner[q] != p);
    }
    forall q
      ensures PageOk(z, q)
    {
      assert PageOk(h, q);
    }
  }

  // ---- A new arena ----

  /** The blocks of a new arena, in order. */
  function Blocks(p: nat, d: nat, n: nat): (q: seq<nat>)
    ensures |q| == n && forall i :: 0 <= i < n ==> q[i] == BlockAt(p, d, i)
  {
    seq(n, i requires 0 <= i < n => BlockAt(p, d, i))
  }

  lemma ArenaOwned(h: Heap, p: nat)
    requires Core(h) && p in h.arenas
    ensures p in h.owner
  {
    assert ArenaOk(h, p);
  }

  /** Pages that are not in use belong to no arena. */
  lemma FreePages(h: Heap, p: nat, n: nat)
    requires Core(h) && h.base <= p && Group(h.bits, p - h.base, n, false)
    ensures forall q :: p <= q < p + n ==> q !in h.owner
    ensures n > 0 ==> p !in h.arenas
    ensures forall q :: q in h.owner ==> h.owner[q] in h.arenas
  {
    forall q | p <= q < p + n
      ensures q !in h.owner
    {
      assert PageOk(h, q);
    }
    if n > 0 && p in h.arenas {
      ArenaOwned(h, p);
    }
    forall q | q in h.owner
      ensures h.owner[q] in h.arenas
    {
      assert PageOk(h, q);
    }
  }

  /** A free page has become an arena of small blocks, all of them free. */
  function Opened(h: Heap, p: nat, d: nat): Heap
    requires d < |h.descs| && h.base <= p && p - h.base + 1 <= |h.bits|
  {
    h.(arenas := h.arenas[p := Small(d, PerArena(d))],
       descs := h.descs[d := h.descs[d].(freeList := Blocks(p, d, PerArena(d)))],
       bits := SetGroup(h.bits, p - h.base, 1, true), owner := h.owner[p := p])
  }

  lemma BlocksNoDup(p: nat, d: nat)
    ensures NoDup(Blocks(p, d, PerArena(d)))
    ensures forall i :: 0 <= i < PerArena(d) ==> PageOf(BlockAt(p, d, i)) == p && IsBlock(p, d, BlockAt(p, d, i))
    ensures FreeIdx(Blocks(p, d, PerArena(d)), p, d) == Upto(PerArena(d))
    ensures forall x :: x in Blocks(p, d, PerArena(d)) ==> PageOf(x) == p
  {
    hide BlockAt, PerArena;
    var q := Blocks(p, d, PerArena(d));
    forall i, j | 0 <= i < j < |q|
      ensures q[i] != q[j]
    {
      BlocksApart(p, d, i, j);
    }
    forall i | 0 <= i < PerArena(d)
      ensures PageOf(BlockAt(p, d, i)) == p && BlockAt(p, d, i) in q
    {
      BlockInPage(p, d, i);
      assert q[i] == BlockAt(p, d, i);
    }
  }

  lemma OpenedElsewhere(h: Heap, p: nat, d: nat)
    requires Core(h) && d < |h.descs| && h.base <= p && Group(h.bits, p - h.base, 1, false) && h.descs[d].freeList == []
    ensures SameElsewhere(h, Opened(h, p, d), p)
  {
    hide Core, BlockAt, PerArena, NoDup, IsBlock, FreeIdx;
    FreePages(h, p, 1);
    BlocksNoDup(p, d);
    var z := Opened(h, p, d);
    forall e, x | 0 <= e < |h.descs| && PageOf(x) != p
      ensures OnList(z, e, x) <==> OnList(h, e, x)
    {}
  }

  lemma OpenedKeeps(h: Heap, p: nat, d: nat)
    requires Inv(h) && d < |h.descs| && h.base <= p && Group(h.bits, p - h.base, 1, false) && h.descs[d].freeList == []
    ensures Core(Opened(h, p, d)) && RetainedBut(Opened(h, p, d), p) && p !in h.arenas
    ensures SameForeign(h, Opened(h, p, d)) && forall x :: Live(Opened(h, p, d), x) <==> Live(h, x)
  {
    hide Core, BlockAt, PerArena, Blocks, Live, SameElsewhere, SameForeign, SetGroup;
    var z := Opened(h, p, d);
    NoPageZero(h);
    FreePages(h, p, 1);
    OpenedCore(h, p, d);
    OpenedElsewhere(h, p, d);
    forall x
      ensures Live(z, x) <==> Live(h, x)
    {
      if PageOf(x) != p {
        LiveElsewhere(h, z, p, x);
      } else {
        NewBlockNotLive(h, p, d, x);
        NoArenaNoLive(h, x);
      }
    }
  }

  lemma NoArenaNoLive(h: Heap, x: nat)
    requires PageOf(x) !in h.arenas
    ensures !Live(h, x)
  {}

  lemma OpenedCore(h: Heap, p: nat, d: nat)
    requires Core(h) && d < |h.descs| && h.base <= p && Group(h.bits, p - h.base, 1, false) && h.descs[d].freeList == []
    ensures Core(Opened(h, p, d)) && SameForeign(h, Opened(h, p, d))
  {
    var z := Opened(h, p, d);
    FreePages(h, p, 1);
    OpenedElsewhere(h, p, d);
    assert h.base > 0;
    hide Core, BlockAt, PerArena, Blocks, ListOk, FreeIdx, Live, SameElsewhere, SameForeign, ListAt, PageOk, NoDup;
    OpenedArena(h, p, d);
    hide ArenaOk;
    forall e | 0 <= e < |z.descs|
      ensures ListAt(z, p, e)
    {
      OpenedLists(h, p, d, e);
    }
    PagesAfter(h, z, p, 1, true);
    CoreAfter(h, z, p);
  }

  lemma OpenedArena(h: Heap, p: nat, d: nat)
    requires d < |h.descs| && 0 < h.base <= p && p - h.base + 1 <= |h.bits|
    ensures ArenaOk(Opened(h, p, d), p)
  {
    hide BlockAt, PerArena, FreeIdx, NoDup, IsBlock, Upto, SetGroup, PageOf, Blocks;
    BlocksNoDup(p, d);
  }

  lemma OpenedLists(h: Heap, p: nat, d: nat, e: nat)
    requires Core(h) && d < |h.descs| && h.base <= p && Group(h.bits, p - h.base, 1, false) && h.descs[d].freeList == [] && e < |h.descs|
    ensures ListAt(Opened(h, p, d), p, e)
  {
    hide Core, BlockAt, PerArena, FreeIdx;
    FreePages(h, p, 1);
    BlocksNoDup(p, d);
    if e != d {
      ListHas(h, p, e);
    }
  }

  lemma NewBlockNotLive(h: Heap, p: nat, d: nat, x: nat)
    requires d < |h.descs| && h.base <= p && p - h.base + 1 <= |h.bits| && PageOf(x) == p
    ensures !Live(Opened(h, p, d), x)
  {
    hide BlockAt, PerArena;
    var z := Opened(h, p, d);
    if IsBlock(p, d, x) {
      var i :| 0 <= i < PerArena(d) && x == BlockAt(p, d, i);
      assert z.descs[d].freeList[i] == x;
    }
  }

  // ---- A block is handed out, or comes back ----

  /** The first block of a free list is taken. */
  function Taken(h: Heap, d: nat): Heap
    requires d < |h.descs| && h.descs[d].freeList != [] && IsSmall(h, PageOf(h.descs[d].freeList[0]), d)
    requires h.arenas[PageOf(h.descs[d].freeList[0])].freeCnt > 0
  {
    var p := PageOf(h.descs[d].freeList[0]);
    h.(arenas := h.arenas[p := Small(d, h.arenas[p].freeCnt - 1)],
       descs := h.descs[d := h.descs[d].(freeList := h.descs[d].freeList[1..])])
  }

  /** A block is put at the front of its free list. */
  function Returned(h: Heap, x: nat): Heap
    requires PageOf(x) in h.arenas && h.arenas[PageOf(x)].Small? && h.arenas[PageOf(x)].desc < |h.descs|
  {
    var p := PageOf(x);
    var d := h.arenas[p].desc;
    h.(arenas := h.arenas[p := Small(d, h.arenas[p].freeCnt + 1)],
       descs := h.descs[d := h.descs[d].(freeList := [x] + h.descs[d].freeList)])
  }

  /** Only the free list of `d` and the count of arena `p` change, by block `x` of
      that arena, which is on the list of `b` and not on that of `a`. */
  ghost predicate OneBlock(a: Heap, b: Heap, p: nat, d: nat, x: nat) {
    && d < |a.descs| && IsSmall(a, p, d) && IsSmall(b, p, d) && IsBlock(p, d, x)
    && |b.descs| == |a.descs|
    && b == a.(arenas := a.arenas[p := b.arenas[p]], descs := a.descs[d := a.descs[d].(freeList := b.descs[d].freeList)])
    && b.arenas[p].freeCnt == a.arenas[p].freeCnt + 1
    && x !in a.descs[d].freeList && NoDup(a.descs[d].freeList) && NoDup(b.descs[d].freeList)
    && (forall y :: y in b.descs[d].freeList <==> y in a.descs[d].freeList || y == x)
  }

  lemma BlockPage(p: nat, d: nat, x: nat)
    requires IsBlock(p, d, x)
    ensures PageOf(x) == p
  {
    var i :| 0 <= i < PerArena(d) && x == BlockAt(p, d, i);
    BlockInPage(p, d, i);
  }

  lemma OneBlockElsewhere(a: Heap, b: Heap, p: nat, d: nat, x: nat)
    requires OneBlock(a, b, p, d, x)
    ensures SameElsewhere(a, b, p) && SameElsewhere(b, a, p)
  {
    hide BlockAt, PerArena, PageOf;
    BlockPage(p, d, x);
  }

  /** One way or the other, the counts and lists agree again. */
  lemma OneBlockKeeps(a: Heap, b: Heap, p: nat, d: nat, x: nat)
    requires OneBlock(a, b, p, d, x)
    ensures Core(a) <==> Core(b)
    ensures forall y :: Live(a, y) <==> Live(b, y) || y == x
    ensures Live(a, x) && !Live(b, x)
  {
    hide BlockAt, PerArena, PageOf, Core;
    OneBlockElsewhere(a, b, p, d, x);
    BlockPage(p, d, x);
    FreeIdxStep(a, b, p, d, x);
    if Core(a) { OneBlockCore(a, b, p, d, a.descs[d].freeList, b.descs[d].freeList); }
    if Core(b) { OneBlockCore(b, a, p, d, b.descs[d].freeList, a.descs[d].freeList); }
    forall y
      ensures Live(a, y) <==> Live(b, y) || y == x
    {
      if PageOf(y) != p {
        LiveElsewhere(a, b, p, y);
      }
    }
  }

  lemma FreeIdxStep(a: Heap, b: Heap, p: nat, d: nat, x: nat)
    requires OneBlock(a, b, p, d, x)
    ensures |FreeIdx(b.descs[d].freeList, p, d)| == |FreeIdx(a.descs[d].freeList, p, d)| + 1
  {
    var i :| 0 <= i < PerArena(d) && x == BlockAt(p, d, i);
    OneMoreFree(b.descs[d].freeList, a.descs[d].freeList, p, d, i);
  }

  lemma OneBlockCore(a: Heap, b: Heap, p: nat, d: nat, q: seq<nat>, r: seq<nat>)
    requires Core(a) && d < |a.descs| && SameElsewhere(a, b, p) && IsSmall(a, p, d) && IsSmall(b, p, d)
    requires b == a.(arenas := a.arenas[p := b.arenas[p]], descs := a.descs[d := a.descs[d].(freeList := r)])
    requires q == a.descs[d].freeList && NoDup(r)
    requires b.arenas[p].freeCnt - a.arenas[p].freeCnt == |FreeIdx(r, p, d)| - |FreeIdx(q, p, d)|
    requires forall y :: y in r ==> y in q || (PageOf(y) == p && IsBlock(p, d, y))
    ensures Core(b)
  {
    hide FreeIdx, BlockAt, PerArena, PageOf;
    assert ArenaOk(a, p);
    assert ArenaOk(b, p);
    forall e | 0 <= e < |b.descs|
      ensures ListAt(b, p, e)
    {
      ListHas(a, p, e);
      assert ListOk(a, e);
    }
    forall g
      ensures PageOk(b, g)
    {
      assert PageOk(a, g);
    }
    CoreAfter(a, b, p);
  }

  /** The block at the front of a free list, and the count of its arena. */
  lemma Front(h: Heap, d: nat)
    requires Core(h) && d < |h.descs| && h.descs[d].freeList != []
    ensures var x := h.descs[d].freeList[0]; var p := PageOf(x);
            && IsSmall(h, p, d) && IsBlock(p, d, x) && NoDup(h.descs[d].freeList)
            && 0 < h.arenas[p].freeCnt <= PerArena(d)
  {
    hide BlockAt, PerArena, PageOf;
    assert ListOk(h, d);
    var x := h.descs[d].freeList[0];
    var p := PageOf(x);
    assert InArena(h, d, x);
    CountFits(h, p, d);
    var i :| 0 <= i < PerArena(d) && x == BlockAt(p, d, i);
    Subset({i}, FreeIdx(h.descs[d].freeList, p, d));
  }

  lemma CountFits(h: Heap, p: nat, d: nat)
    requires Core(h) && IsSmall(h, p, d)
    ensures d < |h.descs| && h.arenas[p].freeCnt == |FreeIdx(h.descs[d].freeList, p, d)| <= PerArena(d)
    ensures h.arenas[p].freeCnt == PerArena(d) ==> FreeIdx(h.descs[d].freeList, p, d) == Upto(PerArena(d))
  {
    hide BlockAt, PerArena, ListOk, PageOk;
    assert ArenaOk(h, p);
    Subset(FreeIdx(h.descs[d].freeList, p, d), Upto(PerArena(d)));
  }

  /** Taking the first free block makes it live and leaves its arena in use. */
  lemma TakenKeeps(h: Heap, d: nat)
    requires Core(h) && d < |h.descs| && h.descs[d].freeList != [] && RetainedBut(h, PageOf(h.descs[d].freeList[0]))
    ensures IsSmall(h, PageOf(h.descs[d].freeList[0]), d) && h.arenas[PageOf(h.descs[d].freeList[0])].freeCnt > 0
    ensures Inv(Taken(h, d)) && SameForeign(h, Taken(h, d)) && !Live(h, h.descs[d].freeList[0])
    ensures forall y :: Live(Taken(h, d), y) <==> Live(h, y) || y == h.descs[d].freeList[0]
    ensures PageOf(h.descs[d].freeList[0]) in Taken(h, d).arenas && SizeOf(Taken(h, d), h.descs[d].freeList[0]) == BlockSize(d)
  {
    hide BlockAt, PerArena, PageOf, Core, Live, BlockSize;
    Front(h, d);
    var q := h.descs[d].freeList;
    var x, z := q[0], Taken(h, d);
    var p := PageOf(x);
    assert q == [x] + q[1..];
    assert OneBlock(z, h, p, d, x);
    OneBlockKeeps(z, h, p, d, x);
  }

  lemma NoPageZero(h: Heap)
    requires Core(h)
    ensures 0 !in h.arenas
  {
    assert 0 in h.arenas ==> ArenaOk(h, 0);
  }

  /** Putting a live block back: it is not live any more. */
  lemma ReturnedKeeps(h: Heap, x: nat)
    requires Inv(h) && Live(h, x) && h.arenas[PageOf(x)].Small?
    ensures h.arenas[PageOf(x)].desc < |h.descs|
    ensures var z, p := Returned(h, x), PageOf(x); var d := h.arenas[p].desc;
            && Core(z) && SameForeign(h, z) && RetainedBut(z, p) && IsSmall(z, p, d) && z.arenas[p].freeCnt <= PerArena(d)
            && forall y :: Live(z, y) <==> Live(h, y) && y != x
  {
    hide BlockAt, PerArena, PageOf, Core;
    var p := PageOf(x);
    var d := h.arenas[p].desc;
    var z := Returned(h, x);
    ListHas(h, p, d);
    NoPageZero(h);
    NoDupCons(x, h.descs[d].freeList);
    assert OneBlock(h, z, p, d, x);
    hide Live;
    OneBlockKeeps(h, z, p, d, x);
    CountFits(z, p, d);
  }

  // ---- An arena is given up ----

  /** `list_remove`. */
  function Without(q: seq<nat>, x: nat): seq<nat> {
    if q == [] then [] else if q[0] == x then q[1..] else [q[0]] + Without(q[1..], x)
  }

  lemma NoDupCons(x: nat, q: seq<nat>)
    requires NoDup(q) && x !in q
    ensures NoDup([x] + q)
  {}

  lemma {:induction false} WithoutIs(q: seq<nat>, x: nat)
    requires NoDup(q)
    ensures NoDup(Without(q, x)) && forall y :: y in Without(q, x) <==> y in q && y != x
  {
    if q != [] {
      WithoutIs(q[1..], x);
      assert q == [q[0]] + q[1..];
      assert q[0] !in q[1..];
      if q[0] != x {
        NoDupCons(q[0], Without(q[1..], x));
      }
    }
  }

  /** A list without the first `n` blocks of an arena. */
  function DropTo(q: seq<nat>, p: nat, d: nat, n: nat): seq<nat> {
    if n == 0 then q else Without(DropTo(q, p, d, n - 1), BlockAt(p, d, n - 1))
  }

  lemma {:induction false} DropToIs(q: seq<nat>, p: nat, d: nat, n: nat)
    requires NoDup(q)
    ensures NoDup(DropTo(q, p, d, n))
    ensures forall y :: y in DropTo(q, p, d, n) <==> y in q && forall i :: 0 <= i < n ==> y != BlockAt(p, d, i)
  {
    hide BlockAt;
    if n > 0 {
      DropToIs(q, p, d, n - 1);
      WithoutIs(DropTo(q, p, d, n - 1), BlockAt(p, d, n - 1));
    }
  }

  /** A wholly free arena of small blocks is taken apart and its page given back. */
  function Closed(h: Heap, p: nat, d: nat): Heap
    requires d < |h.descs| && h.base <= p && p - h.base + 1 <= |h.bits|
  {
    h.(arenas := h.arenas - {p},
       descs := h.descs[d := h.descs[d].(freeList := DropTo(h.descs[d].freeList, p, d, PerArena(d)))],
       bits := SetGroup(h.bits, p - h.base, 1, false), owner := h.owner - {p})
  }

  /** The pages of an arena are in use, and only they are its. */
  lemma ArenaPages(h: Heap, p: nat)
    requires Core(h) && p in h.arenas
    ensures var n := PagesOf(h.arenas[p]);
            && n > 0 && h.base <= p && Group(h.bits, p - h.base, n, true)
            && forall q :: (q in h.owner && h.owner[q] == p) <==> p <= q < p + n
  {
    hide ListOk, FreeIdx;
    var n := PagesOf(h.arenas[p]);
    assert ArenaOk(h, p);
    assert PageOk(h, p) && PageOk(h, p + n - 1);
    forall i | p - h.base <= i < p - h.base + n
      ensures h.bits[i]
    {
      assert PageOk(h, h.base + i);
    }
    forall q: nat
      ensures (q in h.owner && h.owner[q] == p) <==> p <= q < p + n
    {
      assert PageOk(h, q);
    }
  }

  lemma DropsPage(h: Heap, p: nat, d: nat)
    requires Core(h) && d < |h.descs|
    ensures var r := DropTo(h.descs[d].freeList, p, d, PerArena(d));
            NoDup(r) && forall x :: x in r <==> x in h.descs[d].freeList && PageOf(x) != p
  {
    var q := h.descs[d].freeList;
    assert ListOk(h, d);
    DropToIs(q, p, d, PerArena(d));
    BlocksNoDup(p, d);
    hide BlockAt, PerArena, FreeIdx, Core;
    forall x | x in q && PageOf(x) == p
      ensures exists i :: 0 <= i < PerArena(d) && x == BlockAt(p, d, i)
    {
      var k :| 0 <= k < |q| && q[k] == x;
      assert InArena(h, d, q[k]);
    }
  }

  lemma ClosedElsewhere(h: Heap, p: nat, d: nat)
    requires Core(h) && IsSmall(h, p, d) && d < |h.descs| && h.base <= p && p - h.base + 1 <= |h.bits|
    ensures SameElsewhere(h, Closed(h, p, d), p)
  {
    ArenaPages(h, p);
    DropsPage(h, p, d);
    hide Core, BlockAt, PerArena, DropTo, NoDup, Group;
  }

  lemma ClosedKeeps(h: Heap, p: nat, d: nat)
    requires Core(h) && RetainedBut(h, p) && IsSmall(h, p, d) && h.arenas[p].freeCnt == PerArena(d)
    ensures d < |h.descs| && h.base <= p && Group(h.bits, p - h.base, 1, true)
    ensures Inv(Closed(h, p, d)) && SameForeign(h, Closed(h, p, d)) && forall x :: Live(Closed(h, p, d), x) <==> Live(h, x)
  {
    CountFits(h, p, d);
    ArenaPages(h, p);
    ClosedElsewhere(h, p, d);
    DropsPage(h, p, d);
    hide Core, BlockAt, PerArena, DropTo, FreeIdx, PageOf, SameElsewhere, PageOk, ListOk, ArenaOk, Group;
    var z := Closed(h, p, d);
    forall e | 0 <= e < |z.descs|
      ensures ListAt(z, p, e)
    {
      ClosedLists(h, p, d, e);
    }
    PagesAfter(h, z, p, 1, false);
    CoreAfter(h, z, p);
    forall x
      ensures Live(z, x) <==> Live(h, x)
    {
      if PageOf(x) != p {
        LiveElsewhere(h, z, p, x);
      } else if Live(h, x) {
        FreeNotLive(h, p, d, x);
      }
    }
  }

  lemma ClosedLists(h: Heap, p: nat, d: nat, e: nat)
    requires Core(h) && IsSmall(h, p, d) && d < |h.descs| && h.base <= p && p - h.base + 1 <= |h.bits| && e < |h.descs|
    ensures ListAt(Closed(h, p, d), p, e)
  {
    DropsPage(h, p, d);
    ListHas(h, p, e);
    var z := Closed(h, p, d);
    hide BlockAt, PerArena, DropTo, FreeIdx, PageOf, PageOk, ArenaOk;
    if e != d {
      assert ListOk(h, e);
      forall k | 0 <= k < |h.descs[e].freeList|
        ensures PageOf(h.descs[e].freeList[k]) != p
      {
        assert InArena(h, e, h.descs[e].freeList[k]);
      }
    }
  }

  lemma FreeNotLive(h: Heap, p: nat, d: nat, x: nat)
    requires d < |h.descs| && IsSmall(h, p, d) && FreeIdx(h.descs[d].freeList, p, d) == Upto(PerArena(d)) && PageOf(x) == p
    ensures !Live(h, x)
  {
    hide BlockAt, PerArena;
    if IsBlock(p, d, x) {
      var i :| 0 <= i < PerArena(d) && x == BlockAt(p, d, i);
      assert i in FreeIdx(h.descs[d].freeList, p, d);
    }
  }

  // ---- Big blocks ----

  function Span(p: nat, n: nat): (m: map<nat, nat>)
    ensures forall q :: (q in m <==> p <= q < p + n) && (q in m ==> m[q] == p)
  {
    if n == 0 then map[] else Span(p, n - 1)[p + n - 1 := p]
  }

  function BigOpened(h: Heap, p: nat, n: nat): Heap
    requires h.base <= p && p - h.base + n <= |h.bits|
  {
    h.(arenas := h.arenas[p := Big(n)], bits := SetGroup(h.bits, p - h.base, n, true), owner := h.owner + Span(p, n))
  }

  lemma SameLists(h: Heap, z: Heap, p: nat)
    requires Core(h) && SameElsewhere(h, z, p) && z.descs == h.descs && (p in h.arenas ==> h.arenas[p].Big?)
    ensures forall d :: 0 <= d < |z.descs| ==> ListAt(z, p, d)
  {
    hide BlockAt, PerArena, PageOf, ArenaOk, PageOk, SameElsewhere;
    forall d | 0 <= d < |z.descs|
      ensures ListAt(z, p, d)
    {
      assert ListOk(h, d);
      forall k | 0 <= k < |h.descs[d].freeList|
        ensures PageOf(h.descs[d].freeList[k]) != p
      {
        assert InArena(h, d, h.descs[d].freeList[k]);
      }
    }
  }

  lemma BigOpenedCore(h: Heap, p: nat, n: nat)
    requires Core(h) && n > 0 && h.base <= p && Group(h.bits, p - h.base, n, false)
    ensures var z := BigOpened(h, p, n); Core(z) && SameForeign(h, z) && SameElsewhere(h, z, p)
  {
    var z := BigOpened(h, p, n);
    FreePages(h, p, n);
    assert h.base > 0;
    hide Core, BlockAt, PerArena, FreeIdx, PageOk, SameForeign, Live;
    assert SameElsewhere(h, z, p);
    assert ArenaOk(z, p);
    hide ArenaOk, SameElsewhere;
    PagesAfter(h, z, p, n, true);
    SameLists(h, z, p);
    CoreAfter(h, z, p);
  }

  lemma BigOpenedKeeps(h: Heap, p: nat, n: nat)
    requires Inv(h) && n > 0 && h.base <= p && Group(h.bits, p - h.base, n, false)
    ensures var z, x := BigOpened(h, p, n), PGSIZE * p + HEADER;
            && Inv(z) && SameForeign(h, z) && !Live(h, x) && (forall y :: Live(z, y) <==> Live(h, y) || y == x)
            && PageOf(x) == p && SizeOf(z, x) == PGSIZE * n - HEADER && p !in h.arenas
  {
    var z := BigOpened(h, p, n);
    FreePages(h, p, n);
    BigOpenedCore(h, p, n);
    hide Core, SameElsewhere, SameForeign, Group, SetGroup, Span;
    forall y
      ensures Live(z, y) <==> Live(h, y) || y == PGSIZE * p + HEADER
    {
      if PageOf(y) != p {
        LiveElsewhere(h, z, p, y);
      } else {
        NoArenaNoLive(h, y);
      }
    }
  }

  function BigClosed(h: Heap, p: nat): Heap
    requires p in h.arenas && h.arenas[p].Big? && h.base <= p && p - h.base + h.arenas[p].pages <= |h.bits|
  {
    h.(arenas := h.arenas - {p}, bits := SetGroup(h.bits, p - h.base, h.arenas[p].pages, false),
       owner := h.owner - Span(p, h.arenas[p].pages).Keys)
  }

  lemma BigClosedKeeps(h: Heap, x: nat)
    requires Inv(h) && Live(h, x) && h.arenas[PageOf(x)].Big?
    ensures var p := PageOf(x); var n := h.arenas[p].pages;
            && n > 0 && h.base <= p && Group(h.bits, p - h.base, n, true)
            && Inv(BigClosed(h, p)) && SameForeign(h, BigClosed(h, p)) && forall y :: Live(BigClosed(h, p), y) <==> Live(h, y) && y != x
  {
    var p := PageOf(x);
    var n := h.arenas[p].pages;
    ArenaPages(h, p);
    var z := BigClosed(h, p);
    hide Core, BlockAt, PerArena, FreeIdx, PageOk, Group, ArenaOk;
    assert SameElsewhere(h, z, p);
    PagesAfter(h, z, p, n, false);
    SameLists(h, z, p);
    CoreAfter(h, z, p);
    forall y
      ensures Live(z, y) <==> Live(h, y) && y != x
    {
      if PageOf(y) != p {
        LiveElsewhere(h, z, p, y);
      }
    }
  }
}
