/** The free map: one bit per device sector, set while the sector is in use
    (`project4/src/filesys/free-map.c`). */
module FreeMap {
  import opened Device
  import Bitmap

  const FREE_MAP_SECTOR: Sector := 0
  const ROOT_DIR_SECTOR: Sector := 1

  /** The sectors whose bit is clear. */
  ghost function FreeSectors(bits: seq<bool>): (r: set<Sector>)
    ensures forall s: Sector :: s in r <==> 0 <= s < |bits| && !bits[s]
  {
    set s: Sector | 0 <= s < |bits| && !bits[s]
  }

  class FreeMap {
    const bitmap: Bitmap.Bitmap

    /** The free sectors, as a set. */
    ghost var free: set<Sector>

    ghost predicate Valid()
      reads this, bitmap, bitmap.elems
    {
      bitmap.Valid() && free == FreeSectors(bitmap.Bits())
    }

    ghost function Bits(): (bits: seq<bool>)
      requires Valid()
      reads this, bitmap, bitmap.elems
      ensures |bits| == bitmap.bitCnt
    {
      bitmap.Bits()
    }

    /** `free_map_init`: only the free map's and the root directory's own
        sectors start in use. */
    constructor (deviceSize: nat)
      requires 2 <= deviceSize < Bitmap.BITMAP_ERROR
      ensures Valid() && fresh(bitmap) && fresh(bitmap.elems)
      ensures bitmap.bitCnt == deviceSize
      ensures forall s :: s in free <==> 0 <= s < deviceSize && s != FREE_MAP_SECTOR && s != ROOT_DIR_SECTOR
    {
      bitmap := new Bitmap.Bitmap(deviceSize);
      new;
      bitmap.Mark(FREE_MAP_SECTOR);
      bitmap.Mark(ROOT_DIR_SECTOR);
      free := FreeSectors(bitmap.Bits());
    }

    /** `free_map_allocate`: the first group of `cnt` free sectors, now in use.  If the
        bitmap cannot be written to its file (`written` says whether it can), the group
        is given back and the map is as before. */
    method Allocate(cnt: nat, written: bool) returns (ok: bool, sector: Sector)
      requires Valid()
      modifies this`free, bitmap.elems
      ensures Valid()
      ensures ok <==> written && exists i :: Bitmap.Group(old(Bits()), i, cnt, false)
      ensures !ok ==> Bits() == old(Bits())
      ensures ok ==>
                && Bitmap.Group(old(Bits()), sector, cnt, false)
                && (forall i :: 0 <= i < sector ==> !Bitmap.Group(old(Bits()), i, cnt, false))
                && Bits() == Bitmap.SetGroup(old(Bits()), sector, cnt, true)
    {
      ghost var was := Bits();
      var idx := bitmap.ScanAndFlip(0, cnt, false);
      if idx != Bitmap.BITMAP_ERROR && !written {
        bitmap.SetMultiple(idx, cnt, false);
        Undone(was, idx, cnt);
        idx := Bitmap.BITMAP_ERROR;
      }
      ok := idx != Bitmap.BITMAP_ERROR;
      sector := if ok then idx else 0;
      free := FreeSectors(bitmap.Bits());
      if !ok && written {
        assert forall i: nat :: Bitmap.Group(was, i, cnt, false) ==> i < Bitmap.BITMAP_ERROR;
      }
    }

    lemma Undone(bits: seq<bool>, start: nat, cnt: nat)
      requires Bitmap.Group(bits, start, cnt, false)
      ensures |Bitmap.SetGroup(bits, start, cnt, true)| == |bits| && start + cnt <= |bits|
      ensures Bitmap.SetGroup(Bitmap.SetGroup(bits, start, cnt, true), start, cnt, false) == bits
    {}

    /** `free_map_release`: its assertion that every released sector is in use is
        the precondition here. */
    method Release(sector: Sector, cnt: nat)
      requires Valid() && Bitmap.Group(Bits(), sector, cnt, true)
      modifies this`free, bitmap.elems
      ensures Valid()
      ensures Bits() == Bitmap.SetGroup(old(Bits()), sector, cnt, false)
    {
      bitmap.SetMultiple(sector, cnt, false);
      free := FreeSectors(bitmap.Bits());
    }

    /** One sector, with the bitmap written: the form every caller in the inode code
        uses. */
    method AllocateOne() returns (ok: bool, sector: Sector)
      requires Valid()
      modifies this`free, bitmap.elems
      ensures Valid()
      ensures ok <==> old(free) != {}
      ensures !ok ==> Bits() == old(Bits()) && free == old(free)
      ensures ok ==>
                && sector < bitmap.bitCnt
                && sector in old(free) && (forall s :: s in old(free) ==> sector <= s)
                && Bits() == old(Bits())[sector := true]
                && free == old(free) - {sector}
    {
      ghost var was := Bits();
      ok, sector := Allocate(1, true);
      if ok {
        assert sector in FreeSectors(was);
        forall s | s in FreeSectors(was)
          ensures sector <= s
        {
          assert Bitmap.Group(was, s, 1, false);
        }
        assert Bits() == was[sector := true];
      } else if FreeSectors(was) != {} {
        var s :| s in FreeSectors(was);
        assert Bitmap.Group(was, s, 1, false);
      }
    }

    method ReleaseOne(sector: Sector)
      requires Valid() && sector < bitmap.bitCnt && sector !in free
      modifies this`free, bitmap.elems
      ensures Valid()
      ensures Bits() == old(Bits())[sector := false]
      ensures free == old(free) + {sector}
    {
      ghost var was := Bits();
      Release(sector, 1);
      assert Bits() == was[sector := false];
    }
  }
}
