/** The page allocator (`pintos/src/threads/palloc.c`): two pools of pages, each
    with a bitmap of the pages in use.  Pages go by their page numbers. */
module PageAllocator {
  import opened Bitmap

  const PGSIZE := 4096

  class Pool {
    const usedMap: Bitmap
    const base: nat

    constructor (base: nat, pageCnt: nat)
      requires pageCnt < BITMAP_ERROR
      ensures usedMap.Valid() && fresh(usedMap) && fresh(usedMap.elems) && this.base == base
      ensures usedMap.Bits() == seq(pageCnt, _ => false)
    {
      usedMap := new Bitmap(pageCnt);
      this.base := base;
    }

    /** `page_from_pool`. */
    predicate Has(page: nat) {
      base <= page < base + usedMap.bitCnt
    }
  }

  class Pages {
    const kernelPool: Pool
    const userPool: Pool

    /** The pools do not overlap, and page 0 is in neither. */
    ghost predicate Valid()
      reads kernelPool.usedMap, userPool.usedMap
    {
      && kernelPool.usedMap.Valid() && userPool.usedMap.Valid()
      && kernelPool.usedMap.elems != userPool.usedMap.elems
      && 0 < kernelPool.base && kernelPool.base + kernelPool.usedMap.bitCnt <= userPool.base
    }

    function PoolOf(user: bool): Pool {
      if user then userPool else kernelPool
    }

    /** `palloc_init`: one pool after the other. */
    constructor (base: nat, kernelPages: nat, userPages: nat)
      requires 0 < base && kernelPages < BITMAP_ERROR && userPages < BITMAP_ERROR
      ensures Valid() && fresh(kernelPool.usedMap.elems) && fresh(userPool.usedMap.elems)
      ensures kernelPool.base == base && kernelPool.usedMap.Bits() == seq(kernelPages, _ => false)
      ensures userPool.usedMap.Bits() == seq(userPages, _ => false)
    {
      kernelPool := new Pool(base, kernelPages);
      userPool := new Pool(base + kernelPages, userPages);
    }

    /** `palloc_get_multiple`: the first run of free pages of its pool, now in use,
        or page 0 if there is none. */
    method GetMultiple(user: bool, pageCnt: nat) returns (page: nat)
      requires Valid()
      modifies PoolOf(user).usedMap.elems
      ensures Valid()
      ensures var pool := PoolOf(user);
              var was := old(pool.usedMap.Bits());
              if page == 0 then
                && pool.usedMap.Bits() == was
                && (pageCnt == 0 || forall i :: 0 <= i < |was| ==> !Group(was, i, pageCnt, false))
              else
                && pageCnt > 0 && pool.base <= page && Group(was, page - pool.base, pageCnt, false)
                && pool.usedMap.Bits() == SetGroup(was, page - pool.base, pageCnt, true)
    {
      if pageCnt == 0 {
        return 0;
      }
      var pool := PoolOf(user);
      var idx := pool.usedMap.ScanAndFlip(0, pageCnt, false);
      page := if idx != BITMAP_ERROR then pool.base + idx else 0;
    }

    /** `palloc_free_multiple`: the pages are found in their pool and given back. */
    method FreeMultiple(page: nat, pageCnt: nat)
      requires Valid()
      requires page != 0 && pageCnt != 0 ==>
                 && (kernelPool.Has(page) || userPool.Has(page))
                 && var pool := PoolOf(userPool.Has(page)); Group(pool.usedMap.Bits(), page - pool.base, pageCnt, true)
      modifies PoolOf(userPool.Has(page)).usedMap.elems
      ensures Valid()
      ensures var pool := PoolOf(userPool.Has(page));
              pool.usedMap.Bits() == if page == 0 || pageCnt == 0 then old(pool.usedMap.Bits())
                                     else SetGroup(old(pool.usedMap.Bits()), page - pool.base, pageCnt, false)
    {
      if page == 0 || pageCnt == 0 {
        return;
      }
      var pool := if kernelPool.Has(page) then kernelPool else userPool;
      pool.usedMap.SetMultiple(page - pool.base, pageCnt, false);
    }
  }
}
