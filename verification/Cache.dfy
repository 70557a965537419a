/** The write-back buffer cache (`project4/src/filesys/cache.c`), as one thread
    runs it: lookup, second-chance eviction and write-back, all proved against
    the logical disk.  The interleaving of threads is in module CacheProtocol. */
module Cache {
  import opened Device

  const MAX_FILESYS_CACHE_SIZE := 64

  class Entry {
    var block: Block
    var sector: Sector
    var dirty: bool
    var accessed: bool
    var openCnt: nat
  }

  class Cache {
    /** The list `filesys_cache`, front first, and its counter. */
    var entries: seq<Entry>
    var size: nat

    /** Where in the list a sector is. */
    ghost var resident: map<Sector, nat>

    /** The disk as the file system means it. */
    ghost var disk: seq<Block>

    /** The list has a sector where `resident` says. */
    ghost predicate Placed(s: Sector)
      requires s in resident
      reads this`entries, this`resident, entries`sector
    {
      resident[s] < |entries| && entries[resident[s]].sector == s
    }

    /** `resident` and the list agree, so no sector and no entry is there twice. */
    ghost predicate Indexed()
      reads this`entries, this`resident, entries`sector
    {
      && (forall i :: 0 <= i < |entries| ==> entries[i].sector in resident && resident[entries[i].sector] == i)
      && (forall s {:trigger Placed(s)} :: s in resident ==> Placed(s))
    }

    /** A resident block is what the disk means, whatever its sector holds; a
        sector that is not resident, or whose entry is clean, holds it itself. */
    ghost predicate Shows(sectors: seq<Block>)
      reads this, entries
    {
      && |disk| == |sectors|
      && (forall i :: 0 <= i < |entries| ==> entries[i].sector < |disk| && entries[i].block == disk[entries[i].sector])
      && (forall i :: 0 <= i < |entries| && !entries[i].dirty ==> sectors[entries[i].sector] == disk[entries[i].sector])
      && (forall s :: 0 <= s < |disk| && s !in resident ==> sectors[s] == disk[s])
    }

    /** The entries are of distinct sectors, the counter is right and within its
        limit, and entries and device together show `disk`. */
    ghost predicate Valid(dev: BlockDevice)
      reads this, entries, dev
    {
      size == |entries| <= MAX_FILESYS_CACHE_SIZE && |disk| == |dev.sectors| && Indexed() && Shows(dev.sectors)
    }

    ghost predicate Pinned(i: nat)
      requires i < |entries|
      reads this`entries, entries`openCnt
    {
      entries[i].openCnt > 0
    }

    /** Some entry can be given up, or there is room for another. */
    ghost predicate CanGet()
      reads this`size, this`entries, entries`openCnt
    {
      size < MAX_FILESYS_CACHE_SIZE || exists i :: 0 <= i < |entries| && entries[i].openCnt == 0
    }

    constructor (dev: BlockDevice)
      ensures entries == [] && resident == map[] && Valid(dev) && disk == dev.sectors && CanGet()
    {
      entries, size, resident, disk := [], 0, map[], dev.sectors;
    }

    /** `block_in_cache`. */
    method BlockInCache(sector: Sector) returns (c: Entry?)
      requires Indexed()
      ensures c == null <==> sector !in resident
      ensures c != null ==> resident[sector] < |entries| && c == entries[resident[sector]] && c.sector == sector
    {
      var e := 0;
      while e < |entries|
        invariant 0 <= e <= |entries|
        invariant forall i :: 0 <= i < e ==> entries[i].sector != sector
      {
        c := entries[e];
        if c.sector == sector {
          return c;
        }
        e := e + 1;
      }
      assert sector in resident ==> Placed(sector);
      return null;
    }

    ghost predicate Listed(dev: BlockDevice)
      reads this, entries, dev
    {
      && (forall i :: 0 <= i < |entries| ==> entries[i].sector < |dev.sectors|)
      && (forall i, j :: 0 <= i < j < |entries| ==> entries[i] != entries[j])
    }

    /** One round of the scan: the unpinned entries it passes lose their accessed
        bit; it stops at an unpinned entry that has none, and writes that one back
        if it is dirty. */
    method ScanRound(dev: BlockDevice) returns (found: bool, c: Entry?, ghost v: nat)
      requires Listed(dev)
      modifies entries`accessed, dev
      ensures v <= |entries| && found == (v < |entries|)
      ensures forall i :: 0 <= i < v ==> old(Pinned(i)) || (old(entries[i].accessed) && !entries[i].accessed)
      ensures forall i :: 0 <= i < |entries| && (i >= v || old(Pinned(i))) ==> entries[i].accessed == old(entries[i].accessed)
      ensures found ==> c == entries[v] && c.openCnt == 0 && !c.accessed
      ensures found ==> dev.sectors == if c.dirty then old(dev.sectors)[c.sector := c.block] else old(dev.sectors)
      ensures !found ==> dev.sectors == old(dev.sectors)
    {
      var e := 0;
      found, c := false, null;
      while e < |entries|
        invariant 0 <= e <= |entries| && !found
        invariant dev.sectors == old(dev.sectors)
        invariant forall i :: 0 <= i < e ==> Pinned(i) || (old(entries[i].accessed) && !entries[i].accessed)
        invariant forall i :: 0 <= i < |entries| && (i >= e || Pinned(i)) ==> entries[i].accessed == old(entries[i].accessed)
      {
        c := entries[e];
        if c.openCnt > 0 {
          e := e + 1;
          continue;
        }
        if c.accessed {
          c.accessed := false;
        } else {
          if c.dirty {
            dev.Write(c.sector, c.block);
          }
          found := true;
          break;
        }
        e := e + 1;
      }
      v := e;
    }

    /** The second-chance scan over a full cache.  It ends within two rounds when
        some entry is unpinned. */
    method Victim(dev: BlockDevice) returns (c: Entry, ghost v: nat, ghost rounds: nat)
      requires Listed(dev) && exists i :: 0 <= i < |entries| && entries[i].openCnt == 0
      modifies entries`accessed, dev
      ensures 1 <= rounds <= 2
      ensures v < |entries| && c == entries[v] && c.openCnt == 0 && !c.accessed
      // A victim without the accessed bit is the first such unpinned entry ...
      ensures !old(entries[v].accessed) ==> forall i :: 0 <= i < v ==> old(Pinned(i)) || old(entries[i].accessed)
      // ... otherwise there was none, and it is the first unpinned entry.
      ensures old(entries[v].accessed) ==> rounds == 2 && (forall i :: 0 <= i < v ==> old(Pinned(i)))
      ensures rounds == 2 ==> forall i :: 0 <= i < |entries| ==> old(Pinned(i)) || old(entries[i].accessed)
      ensures forall i :: 0 <= i < |entries| && old(Pinned(i)) ==> entries[i].accessed == old(entries[i].accessed)
      ensures dev.sectors == if c.dirty then old(dev.sectors)[c.sector := c.block] else old(dev.sectors)
    {
      ghost var spare :| 0 <= spare < |entries| && entries[spare].openCnt == 0;
      v, rounds := 0, 0;
      while true
        invariant 0 <= rounds <= 1 && dev.sectors == old(dev.sectors)
        invariant rounds == 0 ==> forall i :: 0 <= i < |entries| ==> entries[i].accessed == old(entries[i].accessed)
        invariant forall i :: 0 <= i < |entries| && Pinned(i) ==> entries[i].accessed == old(entries[i].accessed)
        invariant rounds == 1 ==> forall i :: 0 <= i < |entries| ==> Pinned(i) || (old(entries[i].accessed) && !entries[i].accessed)
        decreases 2 - rounds
      {
        var found, victim;
        assert !Pinned(spare);
        found, victim, v := ScanRound(dev);
        rounds := rounds + 1;
        if found {
          return victim, v, rounds;
        }
      }
    }

    /** With every entry pinned a round finds nothing and changes nothing, so the loop of
        `filesys_cache_block_evict` goes on as long as all stay pinned. */
    method ScanInVain(dev: BlockDevice) returns (found: bool)
      requires Listed(dev) && forall i :: 0 <= i < |entries| ==> entries[i].openCnt > 0
      modifies entries`accessed, dev
      ensures !found && dev.sectors == old(dev.sectors)
      ensures forall i :: 0 <= i < |entries| ==> entries[i].accessed == old(entries[i].accessed)
    {
      var c;
      ghost var v;
      found, c, v := ScanRound(dev);
    }

    /** Valid but for entry `v`, which is about to be given to another sector. */
    ghost predicate ValidBut(dev: BlockDevice, v: nat)
      reads this, entries, dev
    {
      && v < |entries| && size == |entries| <= MAX_FILESYS_CACHE_SIZE && |disk| == |dev.sectors|
      && (forall i :: 0 <= i < |entries| && i != v ==>
            && entries[i] != entries[v] && entries[i].sector in resident && resident[entries[i].sector] == i
            && entries[i].sector < |disk| && entries[i].block == disk[entries[i].sector]
            && (!entries[i].dirty ==> dev.sectors[entries[i].sector] == disk[entries[i].sector]))
      && (forall s {:trigger Placed(s)} :: s in resident ==> Placed(s) && resident[s] != v)
      && (forall s :: 0 <= s < |disk| && s !in resident ==> dev.sectors[s] == disk[s])
    }

    /** The end of `filesys_cache_block_evict`: entry `v` is read in for `sector`. */
    method Fill(dev: BlockDevice, c: Entry, ghost v: nat, sector: Sector, dirty: bool)
      requires ValidBut(dev, v) && c == entries[v] && sector !in resident && sector < |dev.sectors|
      modifies this`resident, c
      ensures Valid(dev)
      ensures sector in resident && resident[sector] == v && resident.Keys == old(resident.Keys) + {sector}
      ensures c.openCnt == old(c.openCnt) + 1 && c.dirty == dirty && c.accessed
    {
      c.openCnt, c.sector := c.openCnt + 1, sector;
      c.block := dev.Read(c.sector);
      c.dirty, c.accessed := dirty, true;
      forall s | s in resident
        ensures Placed(s) && resident[s] != v
      {
        assert old(Placed(s));
      }
      Assign(dev, v, sector);
    }

    /** The list says so too. */
    ghost method Assign(dev: BlockDevice, v: nat, sector: Sector)
      requires ValidBut(dev, v) && sector !in resident && sector < |dev.sectors|
      requires entries[v].sector == sector && entries[v].block == dev.sectors[sector]
      modifies this`resident
      ensures Valid(dev) && resident == old(resident)[sector := v]
    {
      resident := resident[sector := v];
      forall s | s in resident
        ensures Placed(s)
      {
        assert s in old(resident) ==> old(Placed(s));
      }
    }

    /** A new entry at the end of the list. */
    method Grow(dev: BlockDevice) returns (c: Entry)
      requires Valid(dev) && size < MAX_FILESYS_CACHE_SIZE
      modifies this`entries, this`size
      ensures entries == old(entries) + [c] && fresh(c) && c.openCnt == 0 && ValidBut(dev, |entries| - 1)
    {
      size := size + 1;
      c := new Entry;
      c.openCnt := 0;
      entries := entries + [c];
      forall s | s in resident
        ensures Placed(s) && resident[s] != |entries| - 1
      {
        assert old(Placed(s));
      }
    }

    /** The device has changed in sectors of `was` only. */
    static ghost predicate OnlyResidentWritten(dev: BlockDevice, sectors: seq<Block>, was: map<Sector, nat>)
      reads dev
    {
      |dev.sectors| == |sectors| && forall s :: 0 <= s < |sectors| && s !in was ==> dev.sectors[s] == sectors[s]
    }

    /** The victim of a list in order: its sector on the device is up to date. */
    method CleanVictim(dev: BlockDevice) returns (c: Entry, ghost v: nat)
      requires Valid(dev) && size == MAX_FILESYS_CACHE_SIZE && CanGet()
      modifies entries`accessed, dev
      ensures Valid(dev) && v < |entries| && c == entries[v] && c.openCnt == 0
      ensures dev.sectors[c.sector] == disk[c.sector]
      ensures OnlyResidentWritten(dev, old(dev.sectors), old(resident))
    {
      ValidListed(dev);
      ghost var rounds;
      c, v, rounds := Victim(dev);
    }

    /** A full list gives up its second-chance victim. */
    method Retire(dev: BlockDevice) returns (c: Entry, ghost v: nat)
      requires Valid(dev) && size == MAX_FILESYS_CACHE_SIZE && CanGet()
      modifies this`resident, entries`accessed, dev
      ensures ValidBut(dev, v) && c == entries[v] && c.openCnt == 0 && resident.Keys <= old(resident.Keys)
      ensures OnlyResidentWritten(dev, old(dev.sectors), old(resident))
    {
      hide OnlyResidentWritten;
      c, v := CleanVictim(dev);
      Drop(dev, c, v);
    }

    /** The entry keeps its place in the list and loses its sector. */
    ghost method Drop(dev: BlockDevice, c: Entry, v: nat)
      requires Valid(dev) && v < |entries| && c == entries[v] && dev.sectors[c.sector] == disk[c.sector]
      modifies this`resident
      ensures ValidBut(dev, v) && resident.Keys <= old(resident.Keys)
    {
      resident := resident - {c.sector};
      forall s | s in resident
        ensures Placed(s) && resident[s] != v
      {
        assert old(Placed(s));
      }
    }

    lemma ValidListed(dev: BlockDevice)
      requires Valid(dev)
      ensures Listed(dev)
    {
      assert forall i, j :: 0 <= i < j < |entries| ==> resident[entries[i].sector] != resident[entries[j].sector];
    }

    /** `filesys_cache_block_evict`: an entry for a sector that is not resident,
        with the sector's content, pinned once. */
    method Evict(dev: BlockDevice, sector: Sector, dirty: bool) returns (c: Entry)
      requires Valid(dev) && sector !in resident && sector < |dev.sectors| && CanGet()
      modifies this`entries, this`size, this`resident, entries, dev
      ensures Valid(dev) && sector in resident && resident[sector] < |entries| && c == entries[resident[sector]]
      ensures c.openCnt == 1 && c.dirty == dirty && c.accessed
      // The list only grows below its limit; at the limit an unpinned entry is given up.
      ensures old(size) < MAX_FILESYS_CACHE_SIZE ==> entries == old(entries) + [c] && fresh(c)
      ensures old(size) == MAX_FILESYS_CACHE_SIZE ==> entries == old(entries) && c in entries && old(c.openCnt) == 0
      ensures OnlyResidentWritten(dev, old(dev.sectors), old(resident)) && resident.Keys <= old(resident.Keys) + {sector}
      ensures forall e :: e in old(entries) && e != c ==> e.openCnt == old(e.openCnt)
    {
      ghost var v;
      if size < MAX_FILESYS_CACHE_SIZE {
        v := |entries|;
        c := Grow(dev);
      } else {
        c, v := Retire(dev);
      }
      Fill(dev, c, v, sector, dirty);
    }

    /** `filesys_cache_block_get`: the pinned entry for a sector, resident or read
        in.  The disk as the file system means it does not change. */
    method Get(dev: BlockDevice, sector: Sector, dirty: bool) returns (c: Entry)
      requires Valid(dev) && sector < |dev.sectors| && CanGet()
      modifies this`entries, this`size, this`resident, entries, dev
      ensures Valid(dev) && sector in resident && resident[sector] < |entries| && c == entries[resident[sector]]
      ensures c.block == disk[sector] && c.sector == sector && c.accessed && (dirty ==> c.dirty) && 0 < c.openCnt
      ensures fresh(set e | e in entries && e !in old(entries))
      ensures OnlyResidentWritten(dev, old(dev.sectors), old(resident)) && resident.Keys <= old(resident.Keys) + {sector}
      // Giving the pin back leaves room for the next call.
      ensures RoomBeside(c)
      ensures c.openCnt == 1 + (if c in old(entries) && old(sector in resident) then old(c.openCnt) else 0)
      ensures forall e :: e in old(entries) && e != c ==> e.openCnt == old(e.openCnt)
    {
      hide Indexed, Shows;
      var hit := BlockInCache(sector);
      if hit != null {
        c := hit;
        Pin(dev, c, dirty);
        return;
      }
      c := Evict(dev, sector, dirty);
      EntryShows(dev, sector);
    }

    /** A hit: the entry is pinned once more. */
    method Pin(dev: BlockDevice, c: Entry, dirty: bool)
      requires Valid(dev) && c in entries
      modifies c
      ensures Valid(dev) && c.sector == old(c.sector) && c.block == disk[c.sector]
      ensures c.openCnt == old(c.openCnt) + 1 && c.accessed && c.dirty == (old(c.dirty) || dirty)
    {
      c.openCnt := c.openCnt + 1;
      c.dirty := c.dirty || dirty;
      c.accessed := true;
    }

    lemma EntryShows(dev: BlockDevice, sector: Sector)
      requires Valid(dev) && sector in resident
      ensures resident[sector] < |entries| && sector < |disk|
      ensures entries[resident[sector]].sector == sector && entries[resident[sector]].block == disk[sector]
    {
      assert Placed(sector);
    }

    /** The list and its counter are in order, and every entry is as `disk` has it. */
    ghost predicate Holds()
      reads this, entries
    {
      && size == |entries| <= MAX_FILESYS_CACHE_SIZE && Indexed()
      && (forall i :: 0 <= i < |entries| ==> entries[i].sector < |disk| && entries[i].block == disk[entries[i].sector])
    }

    ghost function DirtySectors(): set<Sector>
      reads this`entries, this`resident, entries`sector, entries`dirty
    {
      set s | s in resident && IsDirty(s)
    }

    /** The entries of the list `all`, whether dirty or not. */
    ghost predicate Lists(all: seq<Entry>)
      reads this`disk, this`resident, all`sector, all`block
    {
      && (forall i :: 0 <= i < |all| ==> all[i].sector < |disk| && all[i].block == disk[all[i].sector])
      && (forall i :: 0 <= i < |all| ==> all[i].sector in resident && resident[all[i].sector] == i)
      && (forall s {:trigger InList(all, s)} :: s in resident ==> InList(all, s))
    }

    ghost predicate InList(all: seq<Entry>, s: Sector)
      requires s in resident
      reads this`resident, all`sector
    {
      resident[s] < |all| && all[resident[s]].sector == s
    }

    /** Midway through the write-back of the list `all`: of the sectors `dirt` that
        were to be written, those of the first `k` entries are. */
    ghost predicate Flushing(dev: BlockDevice, all: seq<Entry>, k: nat, was: seq<Block>, dirt: set<Sector>)
      reads this`disk, this`resident, all`sector, all`dirty, dev
    {
      && |dev.sectors| == |disk| == |was| && k <= |all| && (forall s :: s in dirt ==> s in resident)
      && (forall i :: 0 <= i < |all| ==> (all[i].dirty <==> k <= i && all[i].sector in dirt))
      && (forall s :: 0 <= s < |disk| ==> dev.sectors[s] == if s in dirt && resident[s] < k then disk[s] else was[s])
    }

    /** The write-back of one entry. */
    method WriteBack(dev: BlockDevice, c: Entry, ghost all: seq<Entry>, ghost k: nat, ghost was: seq<Block>, ghost dirt: set<Sector>)
      requires Lists(all) && Flushing(dev, all, k, was, dirt) && k < |all| && c == all[k]
      modifies c`dirty, dev
      ensures Lists(all) && Flushing(dev, all, k + 1, was, dirt)
    {
      ListsAt(all, k);
      hide Lists;
      if c.dirty {
        dev.Write(c.sector, c.block);
        c.dirty := false;
      }
    }

    lemma ListsAt(all: seq<Entry>, k: nat)
      requires Lists(all) && k < |all|
      ensures all[k].sector < |disk| && all[k].block == disk[all[k].sector]
      ensures forall s :: s in resident && resident[s] == k ==> s == all[k].sector
      ensures forall i :: 0 <= i < |all| ==> all[i].sector in resident && resident[all[i].sector] == i
    {
      forall s | s in resident && resident[s] == k
        ensures s == all[k].sector
      {
        assert InList(all, s);
      }
    }

    lemma FlushedAll(dev: BlockDevice, all: seq<Entry>, was: seq<Block>, dirt: set<Sector>)
      requires Lists(all) && Flushing(dev, all, |all|, was, dirt)
      ensures |dev.sectors| == |was| == |disk|
      ensures forall s :: 0 <= s < |disk| ==> dev.sectors[s] == if s in dirt then disk[s] else was[s]
    {
      forall s | s in dirt
        ensures resident[s] < |all|
      {
        assert InList(all, s);
      }
    }

    /** `filesys_cache_write_to_disk`: every dirty block goes to its sector, so that
        the device itself then holds the disk as the file system means it; at halt
        the list is emptied too. */
    method WriteToDisk(dev: BlockDevice, halt: bool)
      requires Holds() && |disk| == |dev.sectors|
      modifies this`entries, this`resident, entries`dirty, dev
      ensures |dev.sectors| == |disk|
      ensures forall s :: 0 <= s < |disk| ==> dev.sectors[s] == if s in old(DirtySectors()) then disk[s] else old(dev.sectors)[s]
      ensures old(Valid(dev)) ==> dev.sectors == disk
      ensures !halt ==> Holds() && entries == old(entries) && forall i :: 0 <= i < |entries| ==> !entries[i].dirty
      ensures !halt && old(Valid(dev)) ==> Valid(dev)
      ensures halt ==> entries == []
    {
      hide Indexed, Shows, Lists, Flushing, Holds, Valid, DirtySectors;
      ghost var all, was, dirt := entries, dev.sectors, DirtySectors();
      var e := 0;
      ghost var k := 0;
      FlushStart(dev);
      while e < |entries|
        invariant k <= |all| && e == (if halt then 0 else k)
        invariant halt ==> entries == all[k..]
        invariant !halt ==> entries == all
        invariant Lists(all) && Flushing(dev, all, k, was, dirt)
        decreases |all| - k
      {
        var c := entries[e];
        assert c == all[k];
        WriteBack(dev, c, all, k, was, dirt);
        if halt {
          RemoveFront(all, k);
          entries := entries[..e] + entries[e + 1..];
        } else {
          e := e + 1;
        }
        k := k + 1;
      }
      FlushedAll(dev, all, was, dirt);
      if halt {
        resident := map[];
      } else {
        FlushEnd(dev, was, dirt);
      }
    }

    lemma RemoveFront(all: seq<Entry>, k: nat)
      requires k < |all|
      ensures all[k..][..0] + all[k..][1..] == all[k + 1..]
    {}

    lemma FlushStart(dev: BlockDevice)
      requires Holds() && |disk| == |dev.sectors|
      ensures Lists(entries) && Flushing(dev, entries, 0, dev.sectors, DirtySectors())
      ensures size == |entries| <= MAX_FILESYS_CACHE_SIZE
      ensures Valid(dev) ==> forall s :: 0 <= s < |disk| && s !in DirtySectors() ==> dev.sectors[s] == disk[s]
    {
      forall s | s in resident
        ensures InList(entries, s)
      {
        assert Placed(s);
      }
    }

    lemma FlushEnd(dev: BlockDevice, was: seq<Block>, dirt: set<Sector>)
      requires Lists(entries) && Flushing(dev, entries, |entries|, was, dirt) && size == |entries| <= MAX_FILESYS_CACHE_SIZE
      ensures Holds() && (dev.sectors == disk ==> Valid(dev)) && forall i :: 0 <= i < |entries| ==> !entries[i].dirty
    {
      forall s | s in resident
        ensures Placed(s)
      {
        assert InList(entries, s);
      }
    }

    /** What is left of the room for a request while `c` is still pinned. */
    ghost predicate RoomBeside(c: Entry)
      reads this, entries, c
    {
      size < MAX_FILESYS_CACHE_SIZE || c.openCnt == 1 || exists i :: 0 <= i < |entries| && entries[i] != c && entries[i].openCnt == 0
    }

    /** The end of a read: the entry is marked accessed and its pin given back. */
    method Release(dev: BlockDevice, c: Entry)
      requires Valid(dev) && c in entries && 0 < c.openCnt && RoomBeside(c)
      modifies c`accessed, c`openCnt
      ensures Valid(dev) && CanGet() && c.openCnt == old(c.openCnt) - 1 && c.accessed && IsMarked(c.sector)
    {
      c.accessed := true;
      c.openCnt := c.openCnt - 1;
    }

    /** The sector is resident, and its entry is to be written back. */
    ghost predicate IsDirty(s: Sector)
      reads this`entries, this`resident, entries`sector, entries`dirty
    {
      s in resident && Placed(s) && entries[resident[s]].dirty
    }

    /** The sector is resident, and its entry has a second chance. */
    ghost predicate IsMarked(s: Sector)
      reads this`entries, this`resident, entries`sector, entries`accessed
    {
      s in resident && Placed(s) && entries[resident[s]].accessed
    }

    /** The end of a write: the entry has its new content, is marked dirty, and its
        pin is given back.  The disk as the file system means it changes in that
        sector only. */
    method Store(dev: BlockDevice, c: Entry, block: Block)
      requires Valid(dev) && c in entries && 0 < c.openCnt && RoomBeside(c) && c.sector < |disk|
      modifies c, this`disk
      ensures Valid(dev) && CanGet() && c.openCnt == old(c.openCnt) - 1
      ensures disk == old(disk)[c.sector := block] && c.sector == old(c.sector)
      ensures c.dirty && IsDirty(c.sector) && c.accessed && IsMarked(c.sector)
    {
      c.block := block;
      c.accessed := true;
      c.dirty := true;
      c.openCnt := c.openCnt - 1;
      disk := disk[c.sector := block];
    }

    lemma ShowsElsewhere(dev: BlockDevice)
      requires Valid(dev)
      ensures Shows(dev.sectors) && forall s :: 0 <= s < |disk| && s !in resident ==> dev.sectors[s] == disk[s]
    {}

    /** After writes to the device past the cache, none of them to a sector with a
        clean entry, the disk means what the device holds where nothing is resident,
        and still what the entry holds where something is. */
    ghost method Resync(dev: BlockDevice, was: seq<Block>)
      requires size == |entries| <= MAX_FILESYS_CACHE_SIZE && Indexed() && Shows(was) && |dev.sectors| == |was|
      requires forall s :: s in resident && s < |was| ==> dev.sectors[s] == was[s] || (Placed(s) && entries[resident[s]].dirty)
      modifies this`disk
      ensures Valid(dev)
      ensures forall s :: 0 <= s < |disk| ==> disk[s] == if s in resident then old(disk[s]) else dev.sectors[s]
    {
      disk := seq(|dev.sectors|, s requires 0 <= s < |dev.sectors| && |disk| == |dev.sectors| reads this, dev =>
        if s in resident then disk[s] else dev.sectors[s]);
    }
  }
}
