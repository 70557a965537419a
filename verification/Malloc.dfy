/** `malloc` and `free` of `pintos/src/threads/malloc.c` in place: descriptors with
    free lists, arena headers at the start of their pages, and the page allocator
    underneath.  Addresses are numbers; 0 is the null pointer. */
module Malloc {
  import opened Bitmap
  import opened PageAllocator
  import opened Arenas

  class Malloc {
    const pages: Pages
    var descs: seq<Desc>
    /** The arena headers, by the page they are at the start of. */
    var arenas: map<nat, Arena>
    ghost var owner: map<nat, nat>

    ghost function Now(): Heap
      requires pages.Valid()
      reads this, pages.kernelPool.usedMap, pages.userPool.usedMap, pages.kernelPool.usedMap.elems
    {
      Heap(descs, arenas, pages.kernelPool.base, pages.kernelPool.usedMap.Bits(), owner)
    }

    ghost predicate Valid()
      reads this, pages.kernelPool.usedMap, pages.userPool.usedMap, pages.kernelPool.usedMap.elems
    {
      pages.Valid() && Inv(Now())
    }

    /** `malloc_init`: one descriptor for each power of 2 from 16 to 1024; pages may be in
        use already. */
    constructor (pages: Pages)
      requires pages.Valid()
      ensures Valid() && this.pages == pages && arenas == map[] && owner == map[] && forall x :: !Live(Now(), x)
    {
      this.pages := pages;
      arenas, owner := map[], map[];
      var ds: seq<Desc> := [];
      var blockSize := 16;
      while blockSize < PGSIZE / 2
        invariant |ds| <= DESC_CNT && blockSize == BlockSize(|ds|)
        invariant forall d :: 0 <= d < |ds| ==> ds[d] == Desc(BlockSize(d), PerArena(d), [])
        decreases PGSIZE - blockSize
      {
        ds := ds + [Desc(blockSize, (PGSIZE - HEADER) / blockSize, [])];
        blockSize := blockSize * 2;
      }
      descs := ds;
      new;
      EmptyHeap(Now());
    }

    /** The descriptors for a request: the first whose blocks are large enough. */
    method FindDesc(size: nat) returns (d: nat)
      requires |descs| == DESC_CNT && forall e :: 0 <= e < |descs| ==> descs[e].blockSize == BlockSize(e)
      ensures d <= |descs| && (d < |descs| ==> size <= BlockSize(d)) && (forall e :: 0 <= e < d ==> BlockSize(e) < size)
    {
      d := 0;
      while d < |descs|
        invariant d <= |descs| && forall e :: 0 <= e < d ==> BlockSize(e) < size
      {
        if descs[d].blockSize >= size {
          break;
        }
        d := d + 1;
      }
    }

    /** A new page becomes an arena; its blocks make up the free list. */
    method NewArena(d: nat) returns (ok: bool, ghost p: nat)
      requires Valid() && d < |descs| && descs[d].freeList == []
      modifies this, pages.kernelPool.usedMap.elems
      ensures pages.Valid() && |descs| == |old(descs)|
      ensures !ok ==> Now() == old(Now()) && NoRun(Now(), 1)
      ensures ok ==> pages.kernelPool.base <= p && Group(old(Now()).bits, p - pages.kernelPool.base, 1, false)
      ensures ok ==> Now() == Opened(old(Now()), p, d)
    {
      hide Core, RetainedBut, PerArena, BlockAt;
      ghost var h := Now();
      HeapParts(h, d);
      var page := pages.GetMultiple(false, 1);
      if page == 0 {
        return false, 0;
      }
      arenas := arenas[page := Small(d, descs[d].blocksPerArena)];
      owner := owner[page := page];
      for i := 0 to descs[d].blocksPerArena
        invariant |descs| == |h.descs| && descs == h.descs[d := h.descs[d].(freeList := Blocks(page, d, i))]
        invariant arenas == h.arenas[page := Small(d, h.descs[d].blocksPerArena)] && owner == h.owner[page := page]
        invariant pages.kernelPool.usedMap.Bits() == SetGroup(h.bits, page - h.base, 1, true)
      {
        ghost var was := descs[d].freeList;
        var b := BlockAt(page, d, i);
        descs := descs[d := descs[d].(freeList := descs[d].freeList + [b])];
        assert Blocks(page, d, i + 1) == was + [b];
      }
      return true, page;
    }

    /** The first free block of a descriptor is handed out. */
    method TakeBlock(d: nat) returns (b: nat)
      requires pages.Valid() && d < |descs| && descs[d].freeList != []
      requires IsSmall(Now(), PageOf(descs[d].freeList[0]), d) && arenas[PageOf(descs[d].freeList[0])].freeCnt > 0
      modifies this
      ensures Now() == Taken(old(Now()), d) && b == old(descs)[d].freeList[0]
    {
      b := descs[d].freeList[0];
      descs := descs[d := descs[d].(freeList := descs[d].freeList[1..])];
      var a := PageOf(b);
      arenas := arenas[a := Small(d, arenas[a].freeCnt - 1)];
    }

    /** A request that no descriptor can meet: whole pages. */
    method BigBlock(size: nat) returns (b: nat)
      requires Valid() && BlockSize(DESC_CNT - 1) < size < SIZE_T
      modifies this, pages.kernelPool.usedMap.elems
      ensures Valid()
      ensures b == 0 ==> Now() == old(Now()) && NoRun(Now(), DivRoundUp((size + HEADER) % SIZE_T))
      ensures SameSizes(old(Now()), Now()) && SameForeign(old(Now()), Now())
      ensures b != 0 ==>
                && !Live(old(Now()), b) && (forall x :: Live(Now(), x) <==> Live(old(Now()), x) || x == b)
                && PageOf(b) in arenas && (size <= SizeOf(Now(), b) <==> size < SIZE_T - 11)
    {
      hide Core, RetainedBut, Live, SameForeign;
      ghost var h := Now();
      ForeignSame(h);
      var pageCnt := DivRoundUp((size + HEADER) % SIZE_T);
      BlockSizes();
      PageCount(size);
      var page := pages.GetMultiple(false, pageCnt);
      if page == 0 {
        return 0;
      }
      BigOpenedKeeps(h, page, pageCnt);
      arenas := arenas[page := Big(pageCnt)];
      owner := owner + Span(page, pageCnt);
      b := PGSIZE * page + HEADER;
      assert Now() == BigOpened(h, page, pageCnt);
    }

    /** `malloc`: a block that was not live becomes live, and nothing else changes; it
        is large enough except for the largest requests, whose page count wraps. */
    method Malloc(size: nat) returns (b: nat)
      requires Valid() && size < SIZE_T
      modifies this, pages.kernelPool.usedMap.elems
      ensures Valid()
      ensures b == 0 ==> Now() == old(Now())
      ensures b == 0 && 0 < size ==> NoRun(Now(), if size <= 1024 then 1 else DivRoundUp((size + HEADER) % SIZE_T))
      ensures b != 0 ==>
                && !Live(old(Now()), b) && (forall x :: Live(Now(), x) <==> Live(old(Now()), x) || x == b)
                && PageOf(b) in arenas && (size <= SizeOf(Now(), b) <==> size < SIZE_T - 11)
                && (forall d :: 0 <= d < DESC_CNT && size <= BlockSize(d) ==> SizeOf(Now(), b) <= BlockSize(d))
      ensures SameSizes(old(Now()), Now()) && SameForeign(old(Now()), Now())
    {
      hide Core, RetainedBut, Live, SizeOf, PerArena, BlockAt, BlockSize, SameForeign;
      ghost var h := Now();
      ForeignSame(h);
      if size == 0 {
        return 0;
      }
      SizesKnown(h);
      BlockSizes();
      var d := FindDesc(size);
      SizesRise(d);
      if d == |descs| {
        b := BigBlock(size);
        return;
      }
      if descs[d].freeList == [] {
        ghost var p;
        var ok;
        ok, p := NewArena(d);
        if !ok {
          return 0;
        }
        OpenedKeeps(h, p, d);
        FirstBlock(h, p, d);
      } else {
        RetainedAll(h, PageOf(descs[d].freeList[0]));
      }
      TakenKeeps(Now(), d);
      ForeignTrans(h, Now(), Taken(Now(), d));
      b := TakeBlock(d);
      NullNotLive(Now());
    }

    /** `block_to_arena`. */
    method BlockToArena(b: nat) returns (a: nat)
      requires pages.Valid() && Live(Now(), b)
      ensures a == PageOf(b) && a in arenas
    {
      a := b / PGSIZE;
    }

    /** The part of `free` for a small block. */
    method FreeSmall(b: nat)
      requires Valid() && Live(Now(), b) && arenas[PageOf(b)].Small?
      modifies this, pages.kernelPool.usedMap.elems
      ensures Valid() && forall x :: Live(Now(), x) <==> Live(old(Now()), x) && x != b
      ensures SameSizes(old(Now()), Now()) && SameForeign(old(Now()), Now())
    {
      hide Core, RetainedBut, PerArena, BlockAt, PageOf, SameForeign;
      ghost var h := Now();
      var a := BlockToArena(b);
      var d := arenas[a].desc;
      ReturnedKeeps(h, b);
      hide Live;
      HeapParts(h, d);
      descs := descs[d := descs[d].(freeList := [b] + descs[d].freeList)];
      arenas := arenas[a := Small(d, arenas[a].freeCnt + 1)];
      ghost var z := Now();
      assert z == Returned(h, b);
      if arenas[a].freeCnt >= descs[d].blocksPerArena {
        ClosedKeeps(z, a, d);
        ForeignTrans(h, z, Closed(z, a, d));
        CloseArena(a, d);
      } else {
        RetainedOne(z, a);
      }
    }

    /** All blocks of an arena leave the free list, and its page is given back. */
    method CloseArena(a: nat, d: nat)
      requires pages.Valid() && d < |descs| && descs[d].blocksPerArena == PerArena(d)
      requires pages.kernelPool.base <= a && Group(Now().bits, a - pages.kernelPool.base, 1, true)
      modifies this, pages.kernelPool.usedMap.elems
      ensures pages.Valid() && Now() == Closed(old(Now()), a, d)
    {
      hide PerArena, BlockAt;
      ghost var z := Now();
      for i := 0 to descs[d].blocksPerArena
        invariant |descs| == |z.descs| && descs == z.descs[d := z.descs[d].(freeList := DropTo(z.descs[d].freeList, a, d, i))]
        invariant Now() == z.(descs := descs)
      {
        var b := BlockAt(a, d, i);
        descs := descs[d := descs[d].(freeList := Without(descs[d].freeList, b))];
      }
      arenas := arenas - {a};
      owner := owner - {a};
      pages.FreeMultiple(a, 1);
    }

    /** `free`: the block is not live any more, and nothing else changes. */
    method Free(b: nat)
      requires Valid() && (b == 0 || Live(Now(), b))
      modifies this, pages.kernelPool.usedMap.elems
      ensures Valid() && forall x :: Live(Now(), x) <==> Live(old(Now()), x) && x != b
      ensures SameSizes(old(Now()), Now()) && SameForeign(old(Now()), Now())
    {
      hide Core, RetainedBut, PageOf, SameForeign;
      ForeignSame(Now());
      if b == 0 {
        NullNotLive(Now());
        return;
      }
      var a := BlockToArena(b);
      if arenas[a].Small? {
        FreeSmall(b);
      } else {
        ghost var h := Now();
        BigClosedKeeps(h, b);
        hide Live;
        var n := arenas[a].pages;
        arenas := arenas - {a};
        owner := owner - Span(a, n).Keys;
        pages.FreeMultiple(a, n);
        assert Now() == BigClosed(h, a);
      }
    }
  }

  /** There is no run of `n` free pages. */
  ghost predicate NoRun(h: Heap, n: nat) {
    n == 0 || forall i :: 0 <= i < |h.bits| ==> !Group(h.bits, i, n, false)
  }

  /** Arenas that stay are still of the same blocks. */
  ghost predicate SameSizes(h: Heap, z: Heap) {
    forall p :: p in h.arenas && p in z.arenas ==>
      match h.arenas[p]
      case Small(d, _) => z.arenas[p].Small? && z.arenas[p].desc == d
      case Big(n) => z.arenas[p] == Big(n)
  }

  /** `DIV_ROUND_UP (x, PGSIZE)` in 32 bits. */
  function DivRoundUp(x: nat): nat {
    (x + PGSIZE - 1) % SIZE_T / PGSIZE
  }

  /** The pages asked for hold the request and a header, unless that sum wraps; if
      it does, no pages or one are asked for. */
  lemma PageCount(size: nat)
    requires 1024 < size < SIZE_T
    ensures var n := DivRoundUp((size + HEADER) % SIZE_T);
            n > 0 ==> (size <= PGSIZE * n - HEADER <==> size < SIZE_T - 11)
    ensures BlockSize(DESC_CNT - 1) == 1024
  {
    BlockSizes();
  }

  /** The first large enough size is the least. */
  lemma SizesRise(d: nat)
    ensures d < DESC_CNT ==> forall e :: d <= e < DESC_CNT ==> BlockSize(d) <= BlockSize(e)
  {
    BlockSizes();
  }

  lemma ForeignSame(h: Heap)
    ensures SameForeign(h, h)
  {}

  lemma EmptyHeap(h: Heap)
    requires 0 < h.base && |h.descs| == DESC_CNT && h.arenas == map[] && h.owner == map[]
    requires forall d :: 0 <= d < |h.descs| ==> h.descs[d] == Desc(BlockSize(d), PerArena(d), [])
    ensures Inv(h) && forall x :: !Live(h, x)
  {
    hide BlockSize, PerArena;
  }

  lemma HeapParts(h: Heap, d: nat)
    requires Core(h) && d < |h.descs|
    ensures h.descs[d].blocksPerArena == PerArena(d) && h.base > 0
  {
    assert ListOk(h, d);
  }

  lemma SizesKnown(h: Heap)
    requires Core(h)
    ensures |h.descs| == DESC_CNT && forall d :: 0 <= d < |h.descs| ==> h.descs[d].blockSize == BlockSize(d)
  {
    forall d | 0 <= d < |h.descs|
      ensures h.descs[d].blockSize == BlockSize(d)
    {
      assert ListOk(h, d);
    }
  }

  lemma FirstBlock(h: Heap, p: nat, d: nat)
    requires d < |h.descs| <= DESC_CNT && h.base <= p && p - h.base + 1 <= |h.bits|
    ensures var q := Opened(h, p, d).descs[d].freeList; q != [] && PageOf(q[0]) == p
  {
    BlockSizes();
    BlockInPage(p, d, 0);
  }

  lemma RetainedAll(h: Heap, p: nat)
    requires Inv(h)
    ensures RetainedBut(h, p)
  {
    hide Core;
    NoPageZero(h);
  }

  lemma RetainedOne(h: Heap, p: nat)
    requires Core(h) && RetainedBut(h, p)
    requires p in h.arenas && h.arenas[p].Small? ==> h.arenas[p].freeCnt < PerArena(h.arenas[p].desc)
    ensures Inv(h)
  {}

  lemma NullNotLive(h: Heap)
    requires Core(h)
    ensures !Live(h, 0)
  {
    hide Core;
    NoPageZero(h);
  }
}
