# Pintos file system and kernel core, modelled and proved

A Dafny model of the hardest parts of this repository, and proofs of what they
keep. `dafny verify dfyconfig.toml` checks everything.

- **File system** (`project4/src/filesys`). `Bitmap` and `FreeMap` are the free
  map; `Device` is a disk of 512-byte sectors; `InodeTree` says what it means that
  the pointers of an inode and the blocks on disk form the tree of one list of data
  sectors, and `Inode` has the code that grows, searches, saves and releases that
  tree. `Cache` is the 64-entry write-back cache, `FlatFile` a file as a sequence of
  bytes, `InodeIo` reading and writing through the cache, `FileLife` what holds over a
  file's life, `Files` what holds for any number of files on one device, and `FileRuns`
  what holds over any run of operations on them. Index blocks, inodes and zeroes go past
  the cache, as in the code: `Allocation` says which sectors a growth takes, `StaleCache`
  what that does to sectors that are still cached, and `StaleRuns` has two runs of it.
- **Cache under threads.** `CacheProtocol` has writers, readers and the write-back
  thread as a step system; copying is byte by byte, and the dirty bit and the pin
  change outside the lock. `FlushWindow` lets other threads run between the two halves
  of writing an entry back.
- **B-tree** (`HW2/code/bTree.c`). `BTreeSpec` is insertion on values, `BTree` the
  code on nodes with key and kid arrays and a root that keeps its identity. The
  number of keys of a node, MAX_KEYS, is a parameter m of at least 3.
- **Library code.** `Division` (64-bit division from a 64/32-bit divide), `HeapSort`
  (on bytes, any element size), `Printf` (`format_integer` and `snprintf`) and
  `Ustar` (archive headers); `Renderings` and `Headers` say in plain bytes what the
  output and the headers of these two mean.
- **Kernel.** `Threads` defines each step of the scheduler, semaphores, locks,
  condition variables and timed sleep; `Scheduling` and `Monitors` prove what all
  runs keep, `Calls` what each call has achieved when it returns, and `Fairness` who
  comes first; `Kernel` is the same steps as code that changes variables in place.
  `PageAllocator`, `Arenas` and `Malloc` are the kernel heap on its bitmap.

Classes stand for what the C code changes in place; each method is proved against a
function or a relation on values, and the lemmas are about those.

## Where the code keeps less than it promises

- Growing past the size limit returns a length that can be below the old one
  (`FileLife.FullFileShrinks`; exactly when: `FileLife.NeverShortens`). The number of
  sectors is right all the same.
- Releasing a file leaves its sectors in the cache. A later file that gets them reads
  the old bytes in place of zeros (`StaleRuns.StaleRead`), and a flush or an eviction
  writes an old block over a new index block, so that the file's bytes are looked for in
  any sector (`StaleRuns.StaleIndex`). Exactly when, told before the growth:
  `StaleCache.ExpandOver` and `StaleCache.Reuse` for the zeros,
  `StaleCache.ExpandThenFlush` for the index blocks; and told before one eviction,
  `StaleCache.EvictOver`. Runs that stay clear of such sectors do what they promise
  (`FileRuns.Perform`).
- A writer that runs between the block write and `dirty = false` of the write-back
  thread loses its bytes (`CacheProtocol.FinerStepLosesWrite`). Exactly which schedules
  do: `FlushWindow.FlushKeepsIff`, and for whole runs `FlushWindow.StepsKeepIff`. The
  results of `CacheProtocol` itself take the two as one step.
- With no sector free, `inode_expand` writes zeros to whatever sector the unused pointer
  names (`Inode.Inode.AddDirectSector`). Exactly when the sectors suffice:
  `Inode.Inode.Expand` and `InodeTree.RoomIsNeeded`.
- With 64 pinned entries the search for a victim goes on as long as all stay pinned
  (`Cache.Cache.ScanInVain`); with one unpinned entry it takes at most two passes
  (`Cache.Cache.Victim`).
- `sdiv64` misses one quotient; `umod64` and `smod64` return 32 bits
  (`Division.UModExact`, `Division.SModExact`). The comment of `arena_to_block` speaks
  of block IDX - 1; the code returns block IDX counted from 0.
- `malloc` of a size within 11 of 2^32 can return a block of one page
  (`Malloc.PageCount`).

Nothing was executed.

## Model

| member | source | states |
|---|---|---|
| `InodeTree.CursorCounts` | project4/src/filesys/inode.c:34-36 | the cursor triple, the mixed-radix form of the number of data sectors, determines that number |
| `InodeTree.CursorCarries` | project4/src/filesys/inode.c:604-641 | adding one sector moves the cursor like an odometer, with the carries of the growth loops |
| `InodeTree.CursorRanges` | project4/src/filesys/inode.c:11-24 | in each of the cursor's ranges its digits give the number of sectors, up to 4 + 9*128 + 128*128, and are below their radix |
| `InodeTree.NoSectorTwice` | project4/src/filesys/inode.c:513-549 | no sector of a file is in two places of its tree, be it data, index or outer block |
| `InodeTree.LookupSingle` | project4/src/filesys/inode.c:128-136 | the arithmetic for the single-indirect range finds entry pos/512 of the file's sector list in the block on disk |
| `InodeTree.LookupDouble` | project4/src/filesys/inode.c:137-147 | the same through the outer block and one of its index blocks |
| `InodeTree.LookupIs` | project4/src/filesys/inode.c:116-153 | for a file in order the search on the device ends at entry pos/512 of its sector list, in all three ranges |
| `InodeTree.MapsFrame` | project4/src/filesys/inode.c:116-153 | writes to sectors outside a file leave its tree as it is |
| `InodeTree.GrownTrans` | project4/src/filesys/inode.c:513-549 | growth after growth is growth: appended, zeroed, each new sector the least free one in a fixed order of roles, nothing else changed, free sectors that are not taken included |
| `InodeTree.GrowthConserves` | project4/src/filesys/inode.c:513-549 | the free sectors and the file's sectors together stay the same set and do not overlap |
| `InodeTree.FillStep` | project4/src/filesys/inode.c:612-643 | one more entry of a pointer block that is being filled keeps everything the lookup needs of the blocks before it |
| `InodeTree.FillEnd` | project4/src/filesys/inode.c:636-642 | writing the filled block back makes the tree sound again |
| `InodeTree.InnerEnd` | project4/src/filesys/inode.c:576-610 | the same one level down, with the outer block still in memory |
| `InodeTree.OuterEnd` | project4/src/filesys/inode.c:551-574 | writing the outer block back makes the tree sound again |
| `InodeTree.DirectStep` | project4/src/filesys/inode.c:524-534 | a direct pointer to a fresh zeroed sector is growth by one data sector |
| `InodeTree.RoomIsNeeded` | project4/src/filesys/inode.c:513-549 | growth to a file in order takes exactly as many free sectors as `Expand` asks for, so with fewer no outcome of it is in order |
| `InodeTree.NewFile` | project4/src/filesys/inode.c:171-202 | growing an empty inode on a scratch structure gives a sound tree for a new file whatever its pointers held before |
| `InodeTree.PartAll` | project4/src/filesys/inode.c:453-481 | the parts that deallocation goes through add up to all sectors of the file |
| `InodeTree.LeafContent` | project4/src/filesys/inode.c:500-511 | what deallocation reads from an index block are the file's data sectors of that block |
| `InodeTree.OuterContent` | project4/src/filesys/inode.c:483-498 | what it reads from the outer block are the file's index blocks |
| `Inode.SectorCounts` | project4/src/filesys/inode.c:64-91 | the two byte-count helpers give, from the length alone, the numbers of index and outer blocks that growth made |
| `Inode.Inode.ByteToSector` | project4/src/filesys/inode.c:116-153 | below the length, the sector that the pointers and the blocks on the device lead to, whether or not they are the file's; else no sector |
| `Inode.Inode.LookupHere` | project4/src/filesys/inode.c:116-153 | for a file in order that is entry pos/512 of its sector list |
| `Inode.Inode.AddDirectSector` | project4/src/filesys/inode.c:524-534 | one round of the direct loop: growth by one sector, or, if none is free, zeros over the sector that the unused pointer names, and the file not grown |
| `Inode.Inode.ExpandDirect` | project4/src/filesys/inode.c:524-534 | fills direct pointers with fresh zeroed sectors; the rest is what did not fit |
| `Inode.Inode.ExpandIndirectBlock` | project4/src/filesys/inode.c:612-643 | one single-indirect block, new or half filled, is filled up as far as needed |
| `Inode.Inode.ExpandIndirects` | project4/src/filesys/inode.c:535-542 | the loop over single-indirect blocks goes on until nothing is left or all nine are full |
| `Inode.Inode.ExpandInnerBlock` | project4/src/filesys/inode.c:576-610 | the same for an index block under the outer block |
| `Inode.Inode.ExpandDoubleBlock` | project4/src/filesys/inode.c:551-574 | grows the double-indirect tree until nothing is left or the file is full |
| `Inode.Inode.Expand` | project4/src/filesys/inode.c:513-549 | the file has min(sectors of the new length, cap) data sectors; the old ones stay; the new ones are zeroed, were free, and are the least free ones in order of allocation; every sector is in one place, and the cursor is theirs |
| `Inode.Inode.DeallocIndirectBlock` | project4/src/filesys/inode.c:500-511 | frees exactly the named data sectors of one block and the block, each in use before |
| `Inode.Inode.DeallocDoubleBlock` | project4/src/filesys/inode.c:483-498 | frees exactly what is left under the outer block, and it |
| `Inode.Inode.DeallocIndirects` | project4/src/filesys/inode.c:466-475 | the loop over the single-indirect blocks frees exactly them and the sectors they name, and leaves the counts that the double-indirect part needs |
| `Inode.Inode.Dealloc` | project4/src/filesys/inode.c:453-481 | from the length alone, frees exactly the sectors of the file, each once; the free map's assertion holds at every release |
| `Inode.Inode.Save` | project4/src/filesys/inode.c:288-301 | the inode written on closing has every word in its place, and is one from which the same file is opened |
| `Inode.Inode.Open` | project4/src/filesys/inode.c:225-248 | opening what was saved gives the same tree, cursor, length and flags |
| `Inode.Inode.Alloc` | project4/src/filesys/inode.c:645-660 | a new inode's tree is grown from nothing |
| `Inode.Inode.Create` | project4/src/filesys/inode.c:171-202 | the inode written for a new file has its sectors, all zeroed and the least that were free; no other sector changes |
| `Allocation.NewRank` | project4/src/filesys/inode.c:513-643 | each new sector is the free sector whose rank among the free ones is that of its role, less the file's size before |
| `Allocation.TakenIs` | project4/src/filesys/inode.c:513-643 | the free map and the two lengths tell before the call exactly which sectors a growth takes, and each for what |
| `Allocation.GrownTook` | project4/src/filesys/inode.c:513-643 | so a file gets just the least free sectors, as many as its size asks for, and the free map loses just those |
| `Allocation.OrderRole` | project4/src/filesys/inode.c:513-643 | roles and places in the order of allocation correspond one to one |
| `Device.PtrBlockRoundTrip` | project4/src/filesys/inode.c:43-46 | writing a block of 128 pointers and reading it back gives the same pointers |
| `FreeMap.FreeMap.Allocate` | project4/src/filesys/free-map.c:27-42 | the first run of free sectors, now in use; fails exactly if there is none or the bitmap cannot be written, and then the map is as before |
| `FreeMap.FreeMap.Release` | project4/src/filesys/free-map.c:44-50 | exactly the named sectors become free |
| `FreeMap.FreeMap.AllocateOne` | project4/src/filesys/free-map.c:27-42 | for one sector: the least free one; fails exactly if none is free |
| `FreeMap.FreeMap.constructor` | project4/src/filesys/free-map.c:12-20 | after the start only the two reserved sectors are in use |
| `Bitmap.MaskReadsBit` | pintos/src/lib/kernel/bitmap.c:43-47 | masking an element and comparing with zero reads exactly one bit |
| `Bitmap.Bitmap.Mark` | pintos/src/lib/kernel/bitmap.c:157-166 | one bit becomes true, no other changes |
| `Bitmap.Bitmap.Reset` | pintos/src/lib/kernel/bitmap.c:170-179 | one bit becomes false, no other changes |
| `Bitmap.Bitmap.Test` | pintos/src/lib/kernel/bitmap.c:198-203 | the word-level test reads the bit |
| `Bitmap.Bitmap.SetMultiple` | pintos/src/lib/kernel/bitmap.c:218-229 | exactly the bits of the group change |
| `Bitmap.Bitmap.Contains` | pintos/src/lib/kernel/bitmap.c:251-264 | true exactly if some bit of the group has the value |
| `Bitmap.Bitmap.Scan` | pintos/src/lib/kernel/bitmap.c:296-311 | the first group of that value at or after the start, or the error index if there is none |
| `Bitmap.Bitmap.ScanAndFlip` | pintos/src/lib/kernel/bitmap.c:320-327 | the same, and exactly that group is flipped |
| `Cache.Cache.BlockInCache` | project4/src/filesys/cache.c:14-28 | null exactly if the sector is not resident, else the one entry that has it |
| `Cache.Cache.ScanRound` | project4/src/filesys/cache.c:72-100 | one pass: unpinned entries before the victim lose their accessed bit, pinned ones keep it, and a dirty victim is written back first |
| `Cache.Cache.ScanInVain` | project4/src/filesys/cache.c:67-100 | with all entries pinned a pass finds nothing and changes nothing, so the loop goes on as long as all stay pinned |
| `Cache.Cache.Victim` | project4/src/filesys/cache.c:67-102 | if some entry is unpinned, a victim is found in at most two passes; it is unpinned; it is the first unpinned entry without the accessed bit, or the first unpinned one if all had it |
| `Cache.Cache.Evict` | project4/src/filesys/cache.c:52-103 | the logical disk is the same after a miss; a pinned entry is never reused; no more than 64 entries |
| `Cache.Cache.Get` | project4/src/filesys/cache.c:30-50 | the entry shows what the disk means at that sector, pinned and marked; the logical disk and all other pins stay |
| `Cache.Cache.WriteBack` | project4/src/filesys/cache.c:113-124 | one dirty entry reaches its sector and is clean, without changing what the disk means |
| `Cache.Cache.WriteToDisk` | project4/src/filesys/cache.c:105-126 | exactly the dirty blocks go to their sectors; if cache and device were in step the device then holds the logical disk; with halt the cache is empty, else its entries are the same and all clean |
| `Cache.Cache.Store` | project4/src/filesys/inode.c:409-414 | copying into a pinned block changes the logical disk at that sector and nowhere else; the entry is dirty and has its second chance |
| `Cache.Cache.Grow` | project4/src/filesys/cache.c:56-66 | a new entry at the end of the list; all others keep showing what they show |
| `Cache.Cache.CleanVictim` | project4/src/filesys/cache.c:67-95 | the second-chance victim is unpinned and its device block up to date, and only resident sectors were written |
| `Cache.Cache.Retire` | project4/src/filesys/cache.c:67-95 | the victim gives up its sector, all other entries show what they did, and only resident sectors were written |
| `Cache.Cache.Fill` | project4/src/filesys/cache.c:97-102 | the entry now shows the new sector as the device has it, pinned, with the dirty bit asked for |
| `Cache.Cache.Pin` | project4/src/filesys/cache.c:35-42 | a hit counts one more pin, keeps a dirty bit that is set, and changes no block |
| `Cache.Cache.Release` | project4/src/filesys/inode.c:351-352 | the pin is dropped and the entry has its second chance; the disk and all blocks stay |
| `CacheProtocol.StepKeeps` | project4/src/filesys/cache.c:30-126 | every action of writers, readers and the write-back thread keeps: distinct sectors, exact pin counts, and a clean entry that differs from its sector has a writer between its first copied byte and its dirty bit |
| `CacheProtocol.UnpinnedCleanIsDisk` | project4/src/filesys/cache.c:79-93 | an entry that is clean and unpinned holds what its sector holds, so evicting it loses nothing |
| `CacheProtocol.StepTransparent` | project4/src/filesys/cache.c:30-126 | lookup, eviction and write-back do nothing to what the disk means; copying a byte does what it would do to plain memory, at the sector that was asked for |
| `CacheProtocol.ReaderSees` | project4/src/filesys/inode.c:348-351 | what a reader copies is what its sector means at that moment |
| `CacheProtocol.RunTransparent` | project4/src/filesys/cache.c:30-126 | over every interleaving the disk means what plain memory would hold |
| `CacheProtocol.StaleIsDirty` | project4/src/filesys/cache.c:105-126 | a sector whose device block is out of date is dirty, or pinned by a writer that will mark it |
| `CacheProtocol.NothingLost` | project4/src/filesys/cache.c:105-135 | after any run that comes to rest, one write-back pass puts every byte written on the device |
| `CacheProtocol.RequestRuns` | project4/src/filesys/inode.c:409-414 | a writer nobody disturbs leaves exactly its bytes, a reader nobody disturbs gets its sector's bytes, whatever else is evicted or written back meanwhile |
| `CacheProtocol.RequestBegins` | project4/src/filesys/cache.c:30-50 | a request begins with its sector as it is |
| `CacheProtocol.FinerStepLosesWrite` | project4/src/filesys/cache.c:113-117 | if a writer runs between the block write and clearing the dirty bit, its byte is on no disk, its entry clean and unpinned: a concrete trace |
| `CacheProtocol.EvictingForgets` | project4/src/filesys/cache.c:67-102 | evicting an entry left like that makes the sector show its old bytes |
| `FlushWindow.FlushKeepsIff` | project4/src/filesys/cache.c:113-117 | of all schedules of copying, marking and unpinning between the block write and clearing the dirty bit, exactly those keep the cache in order whose copies leave the block as written or leave a writer still to mark it |
| `FlushWindow.NobodyInside` | project4/src/filesys/cache.c:113-117 | so every schedule does in which no thread both changes the block and marks it inside |
| `FlushWindow.WriterInsideLoses` | project4/src/filesys/cache.c:113-117 | and a thread that does, alone on the entry and with no other writer pending, leaves a clean entry that differs from its sector |
| `FlushWindow.RaceIsHarmful` | project4/src/filesys/cache.c:113-117 | a schedule that is not harmless, from a state in order: one thread copies, marks and unpins inside the window |
| `FlushWindow.TakeKeepsIff` | project4/src/filesys/cache.c:105-126 | a step with such a window in it keeps the invariant if and only if the window is harmless |
| `FlushWindow.StepsKeepIff` | project4/src/filesys/cache.c:105-126 | a run with any number of windows stays in order throughout if and only if all of them are harmless |
| `FlushWindow.StepsTransparent` | project4/src/filesys/cache.c:105-126 | and then the disk means what plain memory would hold |
| `FlushWindow.NothingLostInWindows` | project4/src/filesys/cache.c:105-135 | and once it is at rest one more pass puts every byte written on the device |
| `FlatFile.ReadAfterWrite` | project4/src/filesys/inode.c:319-424 | the flat file: a read returns the bytes written, other bytes keep their value, gaps read as zeros, the length is the larger one |
| `FlatFile.ReadEffect` | project4/src/filesys/inode.c:319-360 | a read returns the bytes from the offset on, as many as asked for or as there are |
| `FlatFile.RawSplice` | project4/src/filesys/inode.c:409-414 | overwriting part of one sector overwrites that stretch of the file and no other, because no sector is used twice |
| `InodeIo.ReadAt` | project4/src/filesys/inode.c:319-360 | the bytes read are those of the flat file from the offset on, as many as there are up to the read length, and the count says so; only blocks of the file become resident, only resident ones are written back, and the last one used has its second chance |
| `InodeIo.WriteChunk` | project4/src/filesys/inode.c:390-420 | one round of the loop lays its chunk over the file at its offset |
| `InodeIo.WriteLoop` | project4/src/filesys/inode.c:390-420 | the loop lays exactly the bytes that fit below the length over the file |
| `InodeIo.Extend` | project4/src/filesys/inode.c:378-388 | growing past the cache: old bytes keep their value, new ones read as zeros; on the device only the file's own and free sectors change |
| `InodeIo.WriteAt` | project4/src/filesys/inode.c:368-424 | length, count and bytes after a write, with the file extended if need be onto the least free sectors; a file closed to writing is untouched; no other sector in use changes or becomes resident, no sector is lost |
| `InodeIo.ExpandedSectors` | project4/src/filesys/inode.c:535-549 | the length returned past the cap has as many sectors as the cap allows |
| `InodeIo.ExpandPast` | project4/src/filesys/inode.c:378-388 | the disk means what it did at resident sectors and what the device holds elsewhere |
| `FileLife.GrowAll` | project4/src/filesys/inode.c:378-388 | after any sequence of growths the tree, the cursor and the length agree and every byte below the length is found in the sector that the tree has for it |
| `FileLife.WholeLife` | project4/src/filesys/inode.c:453-549 | create, grow any number of times, release: the bitmap is back to what it was bit for bit, and no sector in use by others was written |
| `FileLife.OtherFileKept` | project4/src/filesys/inode.c:513-549 | a file that shares no sector with a growing one keeps its tree and its data, and goes on sharing none |
| `FileLife.WriteIsFlat` | project4/src/filesys/inode.c:368-424 | the sector-level effect of a write is the write to the flat file as far as the new length goes, and the unused tail stays zero unless the file has become shorter |
| `FileLife.OtherFileReads` | project4/src/filesys/inode.c:368-424 | a write to one file leaves the bytes of every file that shares no sector with it or with the free ones |
| `FileLife.ReadsBack` | project4/src/filesys/inode.c:319-424 | of bytes laid over a file as a write does, a read at the same place returns as much as was written, all of it within the size limit |
| `FileLife.LimitReached` | project4/src/filesys/inode.c:535-549 | asked to pass the limit, growth ends at the limit if and only if the excess is whole sectors |
| `FileLife.FullFileShrinks` | project4/src/filesys/inode.c:548 | a write ending one byte past the limit makes a full file 511 bytes shorter |
| `FileLife.NeverShortens` | project4/src/filesys/inode.c:548 | the exact condition under which a write does not shorten a file |
| `Files.ReadFrom` | project4/src/filesys/inode.c:319-360 | with any number of files on one device behind one cache, whatever was removed before, a read gives the bytes of its file, and all files stay in order and hold what they held |
| `Files.WriteTo` | project4/src/filesys/inode.c:368-424 | a write makes its file the flat write as far as the new length goes, the whole of it within the size limit; every other file stays in order and holds what it held; the written one stays in order if it has not become shorter; growth takes the least free sectors |
| `Files.StrangerGood` | project4/src/filesys/inode.c:319-424 | requests for sectors that are none of a file's keep its tree, its index blocks out of the cache, and its bytes |
| `Files.MakeFile` | project4/src/filesys/inode.c:171-248 | a file made and opened is of the kind asked for, all zeros, on the least free sectors, and every other file stays in order and holds what it held |
| `Files.Remove` | project4/src/filesys/inode.c:276-283 | the last close of a removed file gives back its inode's sector and its own, each once; every other file stays in order and holds what it held |
| `FileRuns.Perform` | project4/src/filesys/inode.c:171-424 | any run of making, reading, writing and removing files: every answer, and at the end every file, its sectors and the free map, are as worked out from the operations alone, reads and writes as on flat files |
| `FileRuns.LastWriteRead` | project4/src/filesys/inode.c:319-424 | in such a run a read returns the last bytes written there, whatever was done to other files in between |
| `FileRuns.Undisturbed` | project4/src/filesys/inode.c:319-424 | a run that does not write to a file or remove it leaves it as it is |
| `FileRuns.KindStays` | project4/src/filesys/inode.c:171-424 | as long as a file is there it stays a directory or none, and keeps its inode's sector |
| `FileRuns.MadeAs` | project4/src/filesys/inode.c:192-244 | and it is a directory if and only if it was made as one |
| `FileRuns.RunConserves` | project4/src/filesys/inode.c:171-511 | every sector is free, or a file's, or has an inode, after a run exactly if it was before |
| `FileRuns.Format` | project4/src/filesys/free-map.c:12-20 | a new file system on a device of any contents is one that runs can start from |
| `StaleCache.ReleaseOver` | project4/src/filesys/inode.c:453-481 | after a release no free sector is in the cache if and only if none was before and none of the file's is |
| `StaleCache.NewSectorsReadZero` | project4/src/filesys/inode.c:524-534 | the new sectors of a file read as zeros if and only if no cached block that is not all zeros is of a sector that the free map was about to give for data |
| `StaleCache.HitsIffThreatened` | project4/src/filesys/inode.c:551-643 | a dirty block of the cache is of one of the file's index blocks if and only if the free map was about to give its sector for that |
| `StaleCache.ExpandOver` | project4/src/filesys/inode.c:513-549 | `inode_expand` with any blocks in the cache: the tree on the device is right, with both conditions, in terms of cache, free map and lengths before the call |
| `StaleCache.Reuse` | project4/src/filesys/inode.c:453-549 | releasing one file and growing another: from cache, free map and lengths before it can be told whether the new sectors read as zeros and whether the dirty blocks of the cache would do for the index blocks they come to be of |
| `StaleCache.FlushOver` | project4/src/filesys/cache.c:105-126 | after a flush the file is in order on the device if and only if every dirty block of the cache that is of one of its index blocks has the right entries; each dirty block is written, whatever it replaces |
| `StaleCache.IndexKeptIff` | project4/src/filesys/cache.c:105-126 | the same about any blocks written over a file in order |
| `StaleCache.LookupThrough` | project4/src/filesys/inode.c:116-153 | with anything written over a file's index blocks, a search finds what they then name, in the single- and the double-indirect range |
| `StaleCache.AgreesIffForetold` | project4/src/filesys/inode.c:513-643 | dirty blocks of the cache will do for the index blocks they come to be of if and only if, before the growth, they name the free sectors that their ranks foretell |
| `StaleCache.ExpandThenFlush` | project4/src/filesys/cache.c:105-126 | a growth and then a flush leave the file in order if and only if that holds before the growth |
| `StaleCache.EvictOver` | project4/src/filesys/cache.c:67-95 | the write-back of an eviction keeps a file in order if and only if the victim is clean, or is none of its index blocks, or has the right entries |
| `StaleRuns.StaleRead` | project4/src/filesys/inode.c:171-549 | on any device: make a file, write it, remove it, make another of one byte, and that reads as the old file's |
| `StaleRuns.StaleIndex` | project4/src/filesys/inode.c:171-643 | on any device: after a file is made, written and removed, another made and a third grown, and a flush, a byte of the third is looked for in the root directory's sector |
| `BTreeSpec.InsertFlat` | HW2/code/bTree.c:100-185 | insertion puts the key in its place among the keys from left to right, however many nodes split |
| `BTreeSpec.InsertOk` | HW2/code/bTree.c:100-185 | insertion keeps every leaf at its depth and every node but the root between ceil(m/2)-1 and m-1 keys |
| `BTreeSpec.OverflowFlat` | HW2/code/bTree.c:147-184 | splitting a node moves no key |
| `BTreeSpec.OrderedIffIncreasing` | HW2/code/bTree.c:9-16 | keys rise and bound their subtrees, node by node, if and only if the keys rise from left to right |
| `BTreeSpec.InsertKeepsBTree` | HW2/code/bTree.c:187-214 | a B-tree stays a B-tree, at most one level higher, and its keys are the old ones and the new one |
| `BTreeSpec.InsertTwice` | HW2/code/bTree.c:110-113 | inserting a key that is there changes nothing |
| `BTreeSpec.HeightBound` | HW2/code/bTree.c:147-181 | a tree of height h with a key in its root holds at least 2*ceil(m/2)^h - 1 keys |
| `BTreeSpec.RunOfInsertions` | HW2/code/bTree.c:187-214 | any run of insertions into a B-tree gives a B-tree with exactly the old and the inserted keys |
| `BTreeSpec.SearchStep` | HW2/code/bTree.c:84-93 | a key is in the tree exactly if it is in the node or in the one kid that its position points to |
| `BTree.Node.constructor` | HW2/code/bTree.c:18-30 | an empty leaf |
| `BTree.Node.SearchKey` | HW2/code/bTree.c:46-71 | binary search finds the least position whose key is not below the one sought |
| `BTree.Node.Search` | HW2/code/bTree.c:73-94 | true exactly if the key is in the tree |
| `BTree.PutAt` | HW2/code/bTree.c:118-119 | moving the upper entries up one place and storing one keeps all others in order |
| `BTree.Node.AddKey` | HW2/code/bTree.c:115-122 | the key is at its position in the leaf, all others kept in order |
| `BTree.Node.AddKid` | HW2/code/bTree.c:129-144 | key and kid arrays shifted in place: the key at its position, the kid right of it, all others kept in order |
| `BTree.Node.SplitNode` | HW2/code/bTree.c:147-181 | the full node keeps its lower half, a new node has the upper half, and they share no node |
| `BTree.Node.InsertInternal` | HW2/code/bTree.c:96-185 | the nodes in place hold what the functional insertion gives, with no node shared |
| `BTree.Node.GrowRoot` | HW2/code/bTree.c:197-213 | the root's contents move to a new node and the same root becomes the parent of both halves |
| `BTree.Node.Insert` | HW2/code/bTree.c:187-214 | the same root node then holds a B-tree of the old keys and the new one |
| `Division.Nlz` | pintos/src/lib/arithmetic.c:39-73 | the number of leading zeros: shifted up by it, the first one is at the top |
| `Division.SmallDivisor` | pintos/src/lib/arithmetic.c:80-112 | the two-step division of the first branch fits its registers and is exact |
| `Division.Estimate` | pintos/src/lib/arithmetic.c:121-124 | the estimate from the normalized divisor is the quotient or one more |
| `Division.LargeDivisor` | pintos/src/lib/arithmetic.c:121-124 | neither shift nor product wraps, the divide does not trap, and the last comparison gives the quotient |
| `Division.UDiv64` | pintos/src/lib/arithmetic.c:75-127 | the quotient for every 64-bit dividend and nonzero divisor |
| `Division.QuotientTruncates` | pintos/src/lib/arithmetic.c:137-146 | truncating division (section 6.5.5 of ISO C99) is the one quotient whose remainder is smaller than the divisor and has the dividend's sign |
| `Division.SDiv64` | pintos/src/lib/arithmetic.c:137-146 | truncating division if and only if the operands are not the least number and -1 |
| `Division.UMod64` | pintos/src/lib/arithmetic.c:129-135 | the low 32 bits of the remainder |
| `Division.SMod64` | pintos/src/lib/arithmetic.c:148-154 | the remainder wrapped to 32 bits |
| `Division.UModExact` | pintos/src/lib/arithmetic.c:129-135 | right for every dividend if and only if the divisor is at most 2^32 |
| `Division.SModExact` | pintos/src/lib/arithmetic.c:148-154 | right for every dividend if and only if the divisor's magnitude is at most 2^31 |
| `HeapSort.DoSwap` | pintos/src/lib/stdlib.c:64-80 | exchanging byte by byte exchanges two elements of any size and nothing else |
| `HeapSort.DoCompare` | pintos/src/lib/stdlib.c:82-92 | compares the elements at the two indexes |
| `HeapSort.FloatStep` | pintos/src/lib/stdlib.c:101-122 | one step of floating down moves the only violation of heap order to the child |
| `HeapSort.LargestOf` | pintos/src/lib/stdlib.c:101-122 | picks a largest of an element and its children inside the heap |
| `HeapSort.RootIsMax` | pintos/src/lib/stdlib.c:132-152 | the root of a heap is its largest element |
| `HeapSort.Heapify` | pintos/src/lib/stdlib.c:93-124 | heap order from the index on, by rearranging elements of the heap only |
| `HeapSort.Sort` | pintos/src/lib/stdlib.c:126-152 | sorted, each element as often as before, for every comparison that is a total preorder on elements of that size; no byte behind the array changes |
| `Printf.Digits` | pintos/src/lib/stdio.c:491-502 | the digit loop stays inside its buffer for every 64-bit value, base from 8 on and grouping |
| `Printf.DigitsReadBack` | pintos/src/lib/stdio.c:491-516 | the digits, with commas and padding zeros, read back as the value for all flags and precisions |
| `Printf.RenderingWidth` | pintos/src/lib/stdio.c:518-546 | the output is exactly as wide as asked for, or as its parts if they are wider |
| `Printf.FormatInteger` | pintos/src/lib/stdio.c:463-547 | sign, prefix, padding and digits come out in the order the flags ask for |
| `Renderings.ReadsBack` | pintos/src/lib/stdio.c:455-547 | the whole output, past spaces, sign, prefix, commas and padding, reads back as the number that was converted |
| `Renderings.SignShown` | pintos/src/lib/stdio.c:478-501 | a minus sign exactly if the number is negative, a plus sign exactly if it is not and one is asked for, a sign space exactly if that is asked for instead; the prefix letter exactly if asked for and the value is not zero |
| `Renderings.Padded` | pintos/src/lib/stdio.c:528-546 | the same output at every width but for padding: spaces in front, or behind, or zeros between sign and digits, as the flags say |
| `Renderings.CommasInPlace` | pintos/src/lib/stdio.c:503-515 | commas stand after every group of digits, counted from the low end, with a digit after each |
| `Renderings.DigitsShown` | pintos/src/lib/stdio.c:503-526 | the digits of the value without leading zeros, and then as many zeros as precision and # flag need |
| `Printf.Sink.Put` | pintos/src/lib/stdio.c:45-53 | what does not fit is counted and dropped; nothing outside the buffer's part is written |
| `Printf.Snprintf` | pintos/src/lib/stdio.c:19-72 | as much of the output as fits and a null byte; the length is that of the whole output |
| `Ustar.StripAntisocialPrefixes` | pintos/src/lib/ustar.c:65-73 | computes the stripped name |
| `Ustar.StrippedIsSafe` | pintos/src/lib/ustar.c:56-73 | a stripped name is not empty, not absolute, begins with no step up, and is not changed by stripping again |
| `Ustar.OctalTextReads` | pintos/src/lib/stdio.c:491-546 | a value below 8^w printed with zero flag and width w has w octal digits that read back as it |
| `Ustar.ParseOctalField` | pintos/src/lib/ustar.c:120-162 | computes what the field means |
| `Ustar.ParseOctalIff` | pintos/src/lib/ustar.c:120-162 | a field parses if and only if it has digits, then a space or null byte, and a value that fits; then the answer is the value |
| `Ustar.CalculateChksum` | pintos/src/lib/ustar.c:35-54 | computes the sum of the bytes with its own field as spaces |
| `Ustar.SumIgnoresField` | pintos/src/lib/ustar.c:46-51 | the checksum does not depend on its own field |
| `Ustar.ChecksumFits` | pintos/src/lib/ustar.c:114-115 | it fits seven octal digits, which read back as it |
| `Ustar.IsAllZeros` | pintos/src/lib/ustar.c:164-173 | true exactly if every byte is zero |
| `Ustar.FillHeader` | pintos/src/lib/ustar.c:99-112 | every byte of the header but the checksum field |
| `Ustar.MakeHeader` | pintos/src/lib/ustar.c:75-118 | makes the header of the stripped name, or leaves the buffer alone if and only if that is longer than 99 bytes |
| `Ustar.ParseHeader` | pintos/src/lib/ustar.c:175-227 | computes what the header means, with each error in its order |
| `Ustar.RoundTrip` | pintos/src/lib/ustar.c:82-227 | parsing a made header gives the stripped name, the type and the size (0 for directories); only a negative size is refused |
| `Ustar.OneByteIsNoticed` | pintos/src/lib/ustar.c:206-207 | a header in which one byte outside the checksum field has changed is refused |
| `Headers.EntryIff` | pintos/src/lib/ustar.c:175-227 | in bytes: a header is taken for an entry if and only if it has the magic text, version 00, a checksum field that reads as the sum of its bytes, a name that fits, a known kind and, for a regular file, a size that fits; and what the entry then is |
| `Headers.RefusedFor` | pintos/src/lib/ustar.c:186-216 | everything else is the end of the archive or refused with the first thing that is wrong, each message with its exact condition |
| `Headers.ParseReads` | pintos/src/lib/ustar.c:120-162 | a field parses as a number if and only if its digits write that number |
| `Headers.SumIs` | pintos/src/lib/ustar.c:35-54 | the checksum is the sum of all bytes with eight spaces for its own field |
| `Headers.StrippedIs` | pintos/src/lib/ustar.c:56-73 | stripping takes all leading steps to the root, to the same place and up off a name, and nothing else |
| `Headers.MadeSays` | pintos/src/lib/ustar.c:99-115 | a made header says, field by field, name, permissions, owner, size, time, its own checksum, kind, magic text and version |
| `Scheduling.StepKeeps` | pintos/src/threads/thread.c:221-323 | every step and every timer interrupt keeps: one thread runs, every list holds exactly the threads in its condition, wakeups cover values, the sleep list is sorted and in the future |
| `Scheduling.Reachable` | pintos/src/threads/thread.c:493-569 | in every reachable state exactly one thread runs, the run queue holds exactly the ready threads but idle, each once, and no thread is on two lists |
| `Scheduling.QueuePosition` | pintos/src/threads/thread.c:493-569 | the thread at index k of the run queue runs at exactly the (k+1)-th schedule |
| `Fairness.CreatedInTurn` | pintos/src/threads/thread.c:166-216 | a thread that is made runs for the first time after all that were ready |
| `Fairness.YieldsInTurn` | pintos/src/threads/thread.c:309-323 | a thread that yields runs again after all that were ready |
| `Fairness.ExitsForGood` | pintos/src/threads/thread.c:288-305 | a thread that exits never runs again |
| `Scheduling.NoLostWakeup` | pintos/src/threads/synch.c:60-121 | if a semaphore can be had while a thread waits for it, a thread woken for it is running or on the run queue |
| `Scheduling.Accounted` | pintos/src/threads/synch.c:60-121 | the value of a semaphore is its initial one, plus the ups, less the downs that went through |
| `Fairness.WaitPosition` | pintos/src/threads/synch.c:60-121 | a run that ups a semaphore n times takes the first n off its wait list and leaves the others in their order, in front of later ones |
| `Fairness.WokenInTurn` | pintos/src/threads/synch.c:60-121 | the thread at index i of a wait list is woken at exactly the (i+1)-th up |
| `Scheduling.SleepIsExact` | project4/src/devices/timer.c:89-103 | a thread that sleeps k ticks at tick T is asleep in every run that ends before tick T+k, and on the run queue after that tick's interrupt |
| `Scheduling.WakeKeeps` | project4/src/devices/timer.c:176-194 | the interrupt makes exactly the sleepers ready whose time has come, and does nothing to any other thread |
| `Monitors.StepMon` | pintos/src/threads/synch.c:192-322 | every step keeps what locks and condition variables need |
| `Monitors.MutualExclusion` | pintos/src/threads/synch.c:192-236 | at most one thread is between the down and the up of a lock; it is free exactly if there is none; the holder test is true exactly of that thread |
| `Monitors.SignalIsNotLost` | pintos/src/threads/synch.c:287-322 | a thread in cond_wait is on the list, or being signalled, or signalled and then not asleep and able to go on, even if the signal came before it slept |
| `Fairness.SignalPosition` | pintos/src/threads/synch.c:287-322 | a run that signals a condition n times takes the first n off its list and leaves the others in their order, in front of later ones |
| `Fairness.SignalledInTurn` | pintos/src/threads/synch.c:310-322 | the waiter at index i of a condition's list is the one that the (i+1)-th signal is for |
| `Calls.AcquireDone` | pintos/src/threads/synch.c:192-202 | when lock_acquire returns, the thread holds the lock and every other lock as before; it has downed the lock's semaphore once and no other |
| `Calls.ReleaseDone` | pintos/src/threads/synch.c:225-236 | when lock_release returns, the thread does not hold the lock, and has upped its semaphore once |
| `Calls.WaitDone` | pintos/src/threads/synch.c:287-302 | when cond_wait returns, the thread holds the lock again, having given it up and taken it back once, and its own semaphore has been raised by a signal |
| `Calls.SignalDone` | pintos/src/threads/synch.c:310-322 | when cond_signal returns, it has upped the first waiter's semaphore once, if there was a waiter, and no other |
| `Calls.DownDone` | pintos/src/threads/synch.c:60-76 | when sema_down returns, the thread has downed the semaphore once and no other |
| `Calls.UpDone` | pintos/src/threads/synch.c:108-121 | sema_up returns at once, with one up |
| `Kernel.Kernel.NextThreadToRun` | pintos/src/threads/thread.c:493-500 | the front of the run queue, which leaves it, or idle if it is empty |
| `Kernel.Kernel.Schedule` | pintos/src/threads/thread.c:493-569 | takes the front of the run queue, or idle, and makes it the running thread |
| `Kernel.Kernel.ThreadBlock` | pintos/src/threads/thread.c:221-229 | the thread is blocked and the next one runs |
| `Kernel.Kernel.ThreadUnblock` | pintos/src/threads/thread.c:239-251 | the thread is ready and last in the run queue |
| `Kernel.Kernel.ThreadYield` | pintos/src/threads/thread.c:309-323 | the thread, unless it is idle, is last in the run queue, and the next one runs |
| `Kernel.Kernel.ThreadExit` | pintos/src/threads/thread.c:288-305 | the thread is dying and the next one runs |
| `Kernel.Kernel.ThreadCreate` | pintos/src/threads/thread.c:166-216 | a new thread is last in the run queue |
| `Kernel.Kernel.SemaDown` | pintos/src/threads/synch.c:60-76 | one round of the loop: the value is taken, or the thread is last in the wait list and blocked |
| `Kernel.Kernel.SemaUp` | pintos/src/threads/synch.c:108-121 | the first waiting thread becomes ready, and the value rises |
| `Kernel.Kernel.TimerSleep` | project4/src/devices/timer.c:89-103 | the thread is in the sleep list where its deadline belongs, and blocked |
| `Kernel.Kernel.TimerInterrupt` | project4/src/devices/timer.c:176-194 | the clock ticks and the loop does what the recursive definition says |
| `Kernel.Kernel.CondWait` | pintos/src/threads/synch.c:287-300 | a semaphore of the thread's own is last on the condition's list, and the thread is about to give the lock up |
| `Kernel.Kernel.CondSignal` | pintos/src/threads/synch.c:310-322 | the first waiter's semaphore leaves the list and the thread is about to raise it; nothing for an empty list |
| `Kernel.Kernel.Continue` | pintos/src/threads/synch.c:60-76 | a thread goes on with the operation it was in, wherever it stopped |
| `Kernel.Kernel.Step` | pintos/src/threads/thread.c:221-323 | every step of the code does what the step on values does and keeps the scheduler's and the monitors' invariants |
| `PageAllocator.Pages.GetMultiple` | pintos/src/threads/palloc.c:64-101 | the first run of free pages of the pool asked for, now in use, or none if there is none |
| `PageAllocator.Pages.FreeMultiple` | pintos/src/threads/palloc.c:116-142 | the pages are found in their pool and exactly they become free; nothing for a null pointer or no pages |
| `Arenas.LiveApart` | pintos/src/threads/malloc.c:87-154 | live blocks do not overlap |
| `Arenas.LiveInPages` | pintos/src/threads/malloc.c:87-154 | every byte of a live block is in a page in use |
| `Arenas.FreeCount` | pintos/src/threads/malloc.c:49-55 | free_cnt is the number of the arena's blocks on its descriptor's free list |
| `Arenas.ArenaHasLive` | pintos/src/threads/malloc.c:241-253 | every arena that is kept has a live block |
| `Arenas.AllFreed` | pintos/src/threads/malloc.c:218-264 | when no block is live, there is no arena, and the pages in use are exactly those of others, as at any earlier time |
| `Arenas.OpenedKeeps` | pintos/src/threads/malloc.c:124-146 | a free page made into an arena adds no live block and keeps lists, counts and pages in order |
| `Arenas.TakenKeeps` | pintos/src/threads/malloc.c:148-151 | taking the first free block makes exactly it live |
| `Arenas.ReturnedKeeps` | pintos/src/threads/malloc.c:238-242 | putting a live block back makes exactly it not live; the count is at most the number of blocks |
| `Arenas.ClosedKeeps` | pintos/src/threads/malloc.c:241-253 | a wholly free arena leaves the free list as a whole; no live block is lost |
| `Arenas.BigOpenedKeeps` | pintos/src/threads/malloc.c:105-120 | a run of free pages becomes one live block of all of it but the header |
| `Arenas.BigClosedKeeps` | pintos/src/threads/malloc.c:257-262 | freeing it gives back exactly its pages |
| `Malloc.Malloc.constructor` | pintos/src/threads/malloc.c:70-85 | seven descriptors, 16 to 1024 bytes; no block is live; the pool may have any pages in use already |
| `Malloc.Malloc.FindDesc` | pintos/src/threads/malloc.c:100-104 | the first descriptor whose blocks are large enough, or none |
| `Malloc.Malloc.NewArena` | pintos/src/threads/malloc.c:124-146 | a free page becomes an arena with all its blocks on the free list, or there is no free page |
| `Malloc.Malloc.TakeBlock` | pintos/src/threads/malloc.c:148-151 | the first free block, off the list and out of the count |
| `Malloc.Malloc.BigBlock` | pintos/src/threads/malloc.c:105-120 | a run of pages becomes one live block, or there is no such run |
| `Malloc.Malloc.FreeSmall` | pintos/src/threads/malloc.c:227-256 | the block is on its list again, or its whole arena is gone; exactly it is not live any more |
| `Malloc.Malloc.Malloc` | pintos/src/threads/malloc.c:87-154 | a block that was not live becomes live and no other; of the least sufficient class; large enough if and only if the request is below 2^32 - 11; null only if the pages are missing; other blocks keep their size, and pages of others stay in use |
| `Malloc.Malloc.Free` | pintos/src/threads/malloc.c:216-264 | exactly that block is not live any more; nothing if the pointer is null; pages of others stay in use |
| `Malloc.Malloc.CloseArena` | pintos/src/threads/malloc.c:247-252 | the loop of list removals takes exactly the arena's blocks off the list, and the page goes back |
| `Malloc.PageCount` | pintos/src/threads/malloc.c:105-112 | the 32-bit page count holds the request if and only if the request is below 2^32 - 11, or asks for no page at all |

## Left out

- Inode.Inode.Expand: requires as many free sectors as the growth needs (`InodeTree.RoomIsNeeded` shows that no less will do); what the code makes of a file when they run out is modelled for one direct sector only (`Inode.Inode.AddDirectSector`).
- Inode.Inode.ExpandDirect: requires enough free sectors, as Expand does.
- Inode.Inode.ExpandIndirects: requires enough free sectors, as Expand does.
- Inode.Inode.ExpandIndirectBlock: requires enough free sectors, as Expand does.
- Inode.Inode.ExpandInnerBlock: requires enough free sectors, as Expand does.
- Inode.Inode.ExpandDoubleBlock: requires enough free sectors, as Expand does.
- Inode.Inode.Alloc: requires enough free sectors, as Expand does.
- Inode.Inode.Create: requires enough free sectors, as Expand does; `calloc` failing is not modelled.
- Inode.Inode.AddDirectSector: with no sector free it requires that the unused pointer is on the device; past its end `block_write` panics.
- InodeIo.Extend: requires enough free sectors, as Expand does, and none of those it takes in the cache; `StaleCache.ExpandOver` has no such condition on the cache.
- InodeIo.ExpandPast: requires the same as Extend.
- InodeIo.WriteChunk: requires the same of the cache as ReadAt.
- InodeIo.WriteLoop: requires the same of the cache as ReadAt.
- InodeIo.ReadAt: requires that the cache can serve a request (some entry unpinned, or fewer than 64) and holds no index block of the file, and that the read length is within the file's sectors, which every write establishes.
- InodeIo.WriteAt: requires the same of the cache as ReadAt, the same as Extend if the file grows, and that offset + size fits `off_t`; the per-inode lock is not modelled.
- Files.ReadFrom: requires that every file is in order, which the operations of Files keep.
- Files.WriteTo: requires that every file is in order, and the same as Extend if the file grows.
- Files.MakeFile: requires enough free sectors for the file and its inode, none of them in the cache; the directory entry is not modelled.
- FileRuns.Perform: covers runs in which no write shortens a file and no growth takes a sector that a removed file had and that may still be cached; the module StaleCache says what such a growth does.
- FileLife.GrowAll: requires enough free sectors, as Expand does.
- FileLife.WholeLife: requires enough free sectors, as Expand does.
- StaleCache.ExpandOver: requires enough free sectors, as Expand does. Once the free map's file is open, `free_map_allocate` writes the bitmap through the cache and can evict blocks in the middle of a growth; that is not modelled, so its conditions are those of a free map in memory.
- StaleCache.ExpandThenFlush: requires the same as ExpandOver, and that no index block of the file is in the cache before; evictions in the middle of the growth are not modelled.
- StaleCache.Reuse: requires the same as ExpandThenFlush, after the release; evictions in the middle of the growth are not modelled.
- Cache.Cache.Evict: requires that some entry is unpinned or there is room, as Get does.
- Cache.Cache.Get: requires that some entry is unpinned or there is room; with 64 pinned entries the code loops as long as all stay pinned (`Cache.Cache.ScanInVain`), and what other threads do meanwhile is the matter of `CacheProtocol`. `malloc` failing for a new entry is a kernel panic and not modelled.
- FreeMap.FreeMap.Allocate: whether the bitmap can be written to the free map file is a parameter; the contents of that file, and the requests to the cache that writing it makes, are not modelled.
- FreeMap.FreeMap.AllocateOne: the inode code's allocations are taken to have the bitmap written.
- FreeMap.FreeMap.Release: the write of the bitmap to its file, whose result the code ignores, is not modelled.
- PageAllocator.Pages.GetMultiple: clearing the pages (PAL_ZERO) and the panic on failure (PAL_ASSERT) are not modelled.
- CacheProtocol.StepKeeps: a lookup with its eviction, and the write-back of one entry, are one step each, as the lock is held throughout; increments and `|=` on entry fields are single instructions; the accessed bit, which only steers the choice of the victim, is left to `Cache`.
- Scheduling.StepKeeps: single processor; priorities, statistics, `thread_ticks` and page directories are not modelled, and preemption may come at any step. The semaphore calls of interrupt handlers, `sema_try_down`, `lock_try_acquire` and `cond_broadcast` are not modelled.
- Monitors.StepMon: the lock list per thread of project4 is not modelled.
- Malloc.Malloc.Malloc: the locks of descriptors and pools, clearing of freed memory, `calloc` and `realloc` are not modelled; the magic number of an arena is taken to be intact.
- Division.SDiv64: negating the least number, undefined in C, is taken to wrap as the processor's instruction does.
- HeapSort.Sort: indexes are unbounded, so arrays of 2^31 elements and more, where doubling an index wraps, are covered only in unbounded arithmetic.
- Printf.FormatInteger: format strings are not parsed; a conversion is given as the fields that parsing leaves. The width is not negative, as parsing ensures.
- Ustar.MakeHeader: the message printed for a name that is too long is not modelled.
- Inode list, reopening and removal, `inode_add_parent`, directories and path names: bookkeeping around the modelled calls.
- B-tree: the payload arrays, `btDestroy` and printing. Kid pointers and keys are both 4 bytes in the original, whose shift of the kid array counts in key sizes; the model shifts entries.
- Cache read-ahead, which no shown code calls and which keeps its pin, and anything after the flush at halt.
- `bitmap_read` and `bitmap_write`, `bitmap_count`, `bitmap_flip` and dumping.
- MLFQS, process and system call code, drivers, boot code, console output, `partition.c`, `mm_alloc.c`, `hTree.c`, `directory.c`.
- `binary_search`, `atoi`, string helpers and other members that would be easy.
