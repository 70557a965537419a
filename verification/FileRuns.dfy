/** Whole runs of a file system: any sequence of files made, read, written and removed.
    What every read gives, and what every file holds at the end, is worked out from the
    operations alone, by the flat files of module FlatFile; so is whether the run stays
    clear of the sectors that removed files leave in the cache
    (`project4/src/filesys/inode.c`). */
module FileRuns {
  import opened Basics
  import opened Device
  import opened InodeTree
  import opened Allocation
  import opened FlatFile
  import opened Inode
  import opened InodeIo
  import opened FileLife
  import opened Files
  import FreeMap
  import Cache
  import Bitmap

  // ---- A file system as a value ----

  /** A file's sectors, its inode's, its bytes, and whether it is closed to writing and
      whether it is a directory. */
  datatype File = File(owned: set<Sector>, home: Sector, content: seq<Byte>, closed: bool, dir: bool)

  /** `stale` has the free sectors that may be in the cache. */
  datatype Volume = Volume(free: set<Sector>, stale: set<Sector>, files: seq<File>)

  datatype Op =
    | Make(len: nat, dir: bool)
    | ReadOp(i: nat, size: nat, offset: nat)
    | WriteOp(i: nat, bytes: seq<Byte>, offset: nat)
    | RemoveOp(i: nat)

  datatype Answer = Nothing | Got(bytes: seq<Byte>) | Wrote(n: nat)

  /** How many sectors a file needs to get from one length to another. */
  function Needed(length: nat, newLength: nat): int {
    Total(DataSectors(newLength)) - Total(DataSectors(length))
  }

  function MadeLength(len: nat): nat { Min(len, MAX_FILE_SIZE) }

  /** Every operation names a file there is; a write does not shorten it; and the sectors
      that are taken can be had. */
  ghost predicate Fits(v: Volume, op: Op) {
    match op
    case Make(len, _) => Available(v.stale, v.free, 1 + Total(DataSectors(MadeLength(len))))
    case ReadOp(i, _, _) => i < |v.files|
    case WriteOp(i, bytes, offset) =>
      && i < |v.files| && offset + |bytes| + SECTOR_SIZE - 1 <= OFF_MAX
      && (v.files[i].closed ||
          var length := |v.files[i].content|;
          && length <= LengthAfter(length, offset + |bytes|)
          && Available(v.stale, v.free, Needed(length, LengthAfter(length, offset + |bytes|))))
    case RemoveOp(i) => i < |v.files|
  }

  /** The file after a write: the flat write, as far as the file's length goes. */
  function Written(content: seq<Byte>, bytes: seq<Byte>, offset: nat): seq<Byte> {
    var flat := FlatFile.Write(content, offset, bytes);
    flat[..Min(|flat|, LengthAfter(|content|, offset + |bytes|))]
  }

  ghost function After(v: Volume, op: Op): Volume
    requires Fits(v, op)
  {
    match op
    case Make(len, dir) =>
      var home := First(v.free);
      var rest := v.free - {home};
      var got := Least(rest, Total(DataSectors(MadeLength(len))));
      Volume(rest - got, v.stale, v.files + [File(got, home, Zeros(MadeLength(len)), false, dir)])
    case ReadOp(_, _, _) => v
    case WriteOp(i, bytes, offset) =>
      var f := v.files[i];
      if f.closed then v
      else
        var got := Least(v.free, Needed(|f.content|, LengthAfter(|f.content|, offset + |bytes|)));
        v.(free := v.free - got, files := v.files[i := f.(owned := f.owned + got, content := Written(f.content, bytes, offset))])
    case RemoveOp(i) =>
      var f := v.files[i];
      Volume(v.free + f.owned + {f.home}, v.stale + f.owned, Without(v.files, i))
  }

  ghost function First(free: set<Sector>): Sector {
    if x: Sector :| IsLeast(free, x) then x else 0
  }

  function AnswerTo(v: Volume, op: Op): Answer
    requires match op case Make(_, _) => true case ReadOp(i, _, _) => i < |v.files| case WriteOp(i, _, _) => i < |v.files| case RemoveOp(_) => true
  {
    match op
    case Make(_, _) => Nothing
    case ReadOp(i, size, offset) => Got(FlatFile.Read(v.files[i].content, offset, size))
    case WriteOp(i, bytes, offset) =>
      var f := v.files[i];
      Wrote(if f.closed then 0 else Fitting(|bytes|, offset, LengthAfter(|f.content|, offset + |bytes|)))
    case RemoveOp(_) => Nothing
  }

  ghost predicate AllFit(v: Volume, ops: seq<Op>)
    decreases |ops|
  {
    ops == [] || (Fits(v, ops[0]) && AllFit(After(v, ops[0]), ops[1..]))
  }

  ghost function AfterAll(v: Volume, ops: seq<Op>): Volume
    requires AllFit(v, ops)
    decreases |ops|
  {
    if ops == [] then v else AfterAll(After(v, ops[0]), ops[1..])
  }

  ghost function Answers(v: Volume, ops: seq<Op>): seq<Answer>
    requires AllFit(v, ops)
    decreases |ops|
  {
    if ops == [] then [] else [AnswerTo(v, ops[0])] + Answers(After(v, ops[0]), ops[1..])
  }

  // ---- The file system that a volume describes ----

  ghost predicate Matches(file: File, f: Inode, cache: Cache.Cache, dev: BlockDevice, fm: FreeMap.FreeMap)
    reads f, f.ptr, cache, cache.entries, dev, fm, fm.bitmap, fm.bitmap.elems
  {
    FileOk(f, cache, dev, fm) && file == File(Owned(f.tree), f.sector, Content(f, cache, dev, fm), f.denyWriteCnt != 0, f.isDir)
  }

  ghost predicate Describes(v: Volume, files: seq<Inode>, cache: Cache.Cache, dev: BlockDevice, fm: FreeMap.FreeMap)
    reads files, set f | f in files :: f.ptr, cache, cache.entries, dev, fm, fm.bitmap, fm.bitmap.elems
  {
    && AllOk(files, cache, dev, fm) && v.free == fm.free && cache.resident.Keys * fm.free <= v.stale
    && |v.files| == |files| && forall i :: 0 <= i < |files| ==> Matches(v.files[i], files[i], cache, dev, fm)
  }

  /** Whatever may be in the cache is enough to stay clear of. */
  lemma StaleEnough(resident: set<Sector>, stale: set<Sector>, free: set<Sector>, n: int)
    requires resident * free <= stale && Available(stale, free, n)
    ensures Available(resident, free, n)
  {
    hide Rank;
  }

  lemma FileAt(files: seq<Inode>, i: nat, cache: Cache.Cache, dev: BlockDevice, fm: FreeMap.FreeMap)
    requires AllOk(files, cache, dev, fm) && i < |files|
    ensures FileOk(files[i], cache, dev, fm)
  {
    hide FileOk;
  }

  lemma AllMatch(v: Volume, files: seq<Inode>, cache: Cache.Cache, dev: BlockDevice, fm: FreeMap.FreeMap)
    requires Describes(v, files, cache, dev, fm)
    ensures forall i :: 0 <= i < |files| ==> FileOk(files[i], cache, dev, fm) && v.files[i].content == Content(files[i], cache, dev, fm)
  {
    hide FileOk, Content, AllOk;
    forall i | 0 <= i < |files|
      ensures FileOk(files[i], cache, dev, fm) && v.files[i].content == Content(files[i], cache, dev, fm)
    {
      assert Matches(v.files[i], files[i], cache, dev, fm);
    }
  }

  lemma ReadSize(f: seq<Byte>, offset: nat, size: nat)
    ensures |FlatFile.Read(f, offset, size)| <= size
  {}

  lemma SpliceFront(f: seq<Byte>, b: seq<Byte>)
    requires |b| <= |f|
    ensures Splice(f, 0, b)[..|b|] == b
  {}

  lemma FileLength(f: Inode, cache: Cache.Cache, dev: BlockDevice, fm: FreeMap.FreeMap)
    requires FileOk(f, cache, dev, fm)
    ensures |Content(f, cache, dev, fm)| == f.length <= MAX_FILE_SIZE && |f.tree.data| == DataSectors(f.length)
    ensures Owned(f.tree) !! fm.free && f.sector !in fm.free && f.sector !in cache.resident
    ensures f.readLength == f.length <= |Bytes(f, cache)| && Content(f, cache, dev, fm) == Bytes(f, cache)[..f.length]
  {
    hide Raw, Maps;
  }

  ghost function Pointers(files: seq<Inode>): set<array<Sector>> {
    set f | f in files :: f.ptr
  }

  method DoRead(op: Op, ghost v: Volume, files: seq<Inode>, cache: Cache.Cache, dev: BlockDevice, fm: FreeMap.FreeMap)
    returns (answer: Answer)
    requires Describes(v, files, cache, dev, fm) && op.ReadOp? && Fits(v, op)
    modifies cache`entries, cache`size, cache`resident, cache.entries, dev
    ensures Describes(v, files, cache, dev, fm) && answer == AnswerTo(v, op)
    ensures fresh(set e | e in cache.entries && e !in old(cache.entries))
  {
    hide AllOk, FileOk, Content, FlatFile.Read, Owned;
    var f := files[op.i];
    var buffer := new Byte[op.size];
    ghost var blank := buffer[..];
    AllMatch(v, files, cache, dev, fm);
    FileLength(f, cache, dev, fm);
    ReadSize(Content(f, cache, dev, fm), op.offset, op.size);
    var n := ReadFrom(f, files, op.i, cache, dev, fm, buffer, op.size, op.offset);
    FileAt(files, op.i, cache, dev, fm);
    FileLength(f, cache, dev, fm);
    answer := Got(buffer[..n]);
    SpliceFront(blank, FlatFile.Read(v.files[op.i].content, op.offset, op.size));
    forall j | 0 <= j < |files|
      ensures Matches(v.files[j], files[j], cache, dev, fm)
    {
      FileAt(files, j, cache, dev, fm);
    }
  }

  /** What a write needs to know of the file and the volume. */
  lemma WriteFits(v: Volume, op: Op, f: Inode, cache: Cache.Cache, dev: BlockDevice, fm: FreeMap.FreeMap)
    requires op.WriteOp? && Fits(v, op) && Matches(v.files[op.i], f, cache, dev, fm)
    requires v.free == fm.free && cache.resident.Keys * fm.free <= v.stale
    ensures f.denyWriteCnt == 0 && f.length < op.offset + |op.bytes| ==>
              CanGrow(cache.resident.Keys, fm.free, |f.tree.data|, op.offset + |op.bytes|)
    ensures f.denyWriteCnt == 0 ==> f.length <= LengthAfter(f.length, op.offset + |op.bytes|)
  {
    hide FileOk, Content, Available, LengthAfter, DataSectors, Total;
    FileLength(f, cache, dev, fm);
    if f.denyWriteCnt == 0 && f.length < op.offset + |op.bytes| {
      var end := op.offset + |op.bytes|;
      ExpandedSectors(end);
      Extended(f.length, end);
      StaleEnough(cache.resident.Keys, v.stale, fm.free, Needed(f.length, LengthAfter(f.length, end)));
    }
  }

  lemma Extended(length: nat, end: nat)
    requires length < end
    ensures LengthAfter(length, end) == ExpandedLength(end)
  {}

  lemma TookNeeded(free0: set<Sector>, t0: Tree, free1: set<Sector>, t1: Tree)
    requires Took(free0, t0, free1, t1)
    ensures var taken := Least(free0, Total(|t1.data|) - Total(|t0.data|)); Owned(t1) == Owned(t0) + taken && free1 == free0 - taken
    ensures t1 == t0 ==> free1 == free0
  {
    if t1 == t0 {
      TookNothing(free0, t0, free1);
    }
  }

  /** A file's requests put only its own sectors into the cache. */
  lemma StillStale(r0: set<Sector>, free0: set<Sector>, stale: set<Sector>, r1: set<Sector>, free1: set<Sector>, t: Tree)
    requires r0 * free0 <= stale && r1 <= r0 + Owned(t) && free1 <= free0 && Owned(t) !! free1
    ensures r1 * free1 <= stale
  {}

  method DoWrite(op: Op, ghost v: Volume, files: seq<Inode>, cache: Cache.Cache, dev: BlockDevice, fm: FreeMap.FreeMap)
    returns (answer: Answer)
    requires Describes(v, files, cache, dev, fm) && op.WriteOp? && Fits(v, op)
    modifies files, Pointers(files)
    modifies dev, fm`free, fm.bitmap.elems, cache`entries, cache`size, cache`resident, cache`disk, cache.entries
    ensures Describes(After(v, op), files, cache, dev, fm) && answer == AnswerTo(v, op)
    ensures fresh(set e | e in cache.entries && e !in old(cache.entries))
  {
    hide AllOk, FileOk, Content, FlatFile.Write, Owned, Took, CanGrow, LengthAfter, Fitting, Usable, DataSectors, Total, Available, Least;
    var f := files[op.i];
    AllMatch(v, files, cache, dev, fm);
    assert Matches(v.files[op.i], f, cache, dev, fm);
    WriteFits(v, op, f, cache, dev, fm);
    FileLength(f, cache, dev, fm);
    ghost var t0, resident := f.tree, cache.resident.Keys;
    var n := WriteTo(f, files, op.i, cache, dev, fm, op.bytes, op.offset);
    answer := Wrote(n);
    FileAt(files, op.i, cache, dev, fm);
    FileLength(f, cache, dev, fm);
    TookNeeded(v.free, t0, fm.free, f.tree);
    StillStale(resident, v.free, v.stale, cache.resident.Keys, fm.free, f.tree);
    forall j | 0 <= j < |files|
      ensures Matches(After(v, op).files[j], files[j], cache, dev, fm)
    {
      FileAt(files, j, cache, dev, fm);
      if j != op.i {
        assert old(Matches(v.files[j], files[j], cache, dev, fm));
      }
    }
  }

  method DoMake(op: Op, ghost v: Volume, files: seq<Inode>, cache: Cache.Cache, dev: BlockDevice, fm: FreeMap.FreeMap)
    returns (more: seq<Inode>, answer: Answer)
    requires Describes(v, files, cache, dev, fm) && op.Make? && Fits(v, op)
    modifies dev, fm`free, fm.bitmap.elems, cache`disk
    ensures |more| == |files| + 1 && more[..|files|] == files && fresh(more[|files|]) && fresh(more[|files|].ptr)
    ensures Describes(After(v, op), more, cache, dev, fm) && answer == AnswerTo(v, op)
  {
    hide AllOk, FileOk, Content, Owned, Took, Available, IsLeast, DataSectors;
    AllMatch(v, files, cache, dev, fm);
    StaleEnough(cache.resident.Keys, v.stale, fm.free, 1 + Total(DataSectors(MadeLength(op.len))));
    var f := MakeFile(files, cache, dev, fm, op.len, op.dir);
    more, answer := files + [f], Nothing;
    FileLength(f, cache, dev, fm);
    OnlyFirst(v.free, f.sector);
    TookNeeded(v.free - {f.sector}, EmptyTree, fm.free, f.tree);
    forall j | 0 <= j < |more|
      ensures Matches(After(v, op).files[j], more[j], cache, dev, fm)
    {
      FileAt(more, j, cache, dev, fm);
      if j < |files| {
        assert old(Matches(v.files[j], files[j], cache, dev, fm));
      }
    }
  }

  lemma OnlyFirst(free: set<Sector>, s: Sector)
    requires IsLeast(free, s)
    ensures First(free) == s && Total(0) == 0 && Owned(EmptyTree) == {}
  {}

  method DoRemove(op: Op, ghost v: Volume, files: seq<Inode>, cache: Cache.Cache, dev: BlockDevice, fm: FreeMap.FreeMap)
    returns (fewer: seq<Inode>, answer: Answer)
    requires Describes(v, files, cache, dev, fm) && op.RemoveOp? && Fits(v, op)
    modifies fm`free, fm.bitmap.elems
    ensures fewer == Without(files, op.i) && Describes(After(v, op), fewer, cache, dev, fm) && answer == AnswerTo(v, op)
  {
    hide AllOk, FileOk, Content, Owned;
    var f := files[op.i];
    AllMatch(v, files, cache, dev, fm);
    FileLength(f, cache, dev, fm);
    assert Matches(v.files[op.i], f, cache, dev, fm);
    Remove(f, files, op.i, cache, dev, fm);
    fewer, answer := Without(files, op.i), Nothing;
    forall k | 0 <= k < |fewer|
      ensures Matches(After(v, op).files[k], fewer[k], cache, dev, fm)
    {
      var j := if k < op.i then k else k + 1;
      assert old(Matches(v.files[j], files[j], cache, dev, fm));
    }
  }

  /** One operation of any kind. */
  method PerformOne(op: Op, ghost v: Volume, files: seq<Inode>, cache: Cache.Cache, dev: BlockDevice, fm: FreeMap.FreeMap)
    returns (now: seq<Inode>, answer: Answer)
    requires Describes(v, files, cache, dev, fm) && Fits(v, op)
    modifies files, Pointers(files)
    modifies dev, fm`free, fm.bitmap.elems, cache`entries, cache`size, cache`resident, cache`disk, cache.entries
    ensures Describes(After(v, op), now, cache, dev, fm) && answer == AnswerTo(v, op)
    ensures fresh(set e | e in cache.entries && e !in old(cache.entries))
    ensures forall i :: 0 <= i < |now| ==> now[i] in files || (fresh(now[i]) && fresh(now[i].ptr))
  {
    hide Describes, Fits, AnswerTo;
    match op
    case Make(_, _) => now, answer := DoMake(op, v, files, cache, dev, fm);
    case ReadOp(_, _, _) =>
      answer := DoRead(op, v, files, cache, dev, fm);
      now := files;
    case WriteOp(_, _, _) =>
      answer := DoWrite(op, v, files, cache, dev, fm);
      now := files;
    case RemoveOp(_) => now, answer := DoRemove(op, v, files, cache, dev, fm);
  }

  /** Any run of operations: each answer, and at the end every file and the free map, are
      as worked out from the operations alone. */
  method Perform(ops: seq<Op>, ghost v: Volume, files: seq<Inode>, cache: Cache.Cache, dev: BlockDevice, fm: FreeMap.FreeMap)
    returns (now: seq<Inode>, answers: seq<Answer>)
    requires Describes(v, files, cache, dev, fm) && AllFit(v, ops)
    modifies files, Pointers(files)
    modifies dev, fm`free, fm.bitmap.elems, cache`entries, cache`size, cache`resident, cache`disk, cache.entries
    ensures Describes(AfterAll(v, ops), now, cache, dev, fm) && answers == Answers(v, ops)
    ensures fresh(set e | e in cache.entries && e !in old(cache.entries))
  {
    hide Describes, Fits, After, AnswerTo;
    now, answers := files, [];
    var k := 0;
    ghost var u := v;
    while k < |ops|
      invariant 0 <= k <= |ops| && AllFit(u, ops[k..]) && Describes(u, now, cache, dev, fm)
      invariant AfterAll(v, ops) == AfterAll(u, ops[k..]) && Answers(v, ops) == answers + Answers(u, ops[k..])
      invariant fresh(set e | e in cache.entries && e !in old(cache.entries))
      invariant forall i :: 0 <= i < |now| ==> now[i] in files || (fresh(now[i]) && fresh(now[i].ptr))
    {
      var answer;
      assert ops[k..][0] == ops[k] && ops[k..][1..] == ops[k + 1..];
      ghost var w := After(u, ops[k]);
      now, answer := PerformOne(ops[k], u, now, cache, dev, fm);
      answers := answers + [answer];
      u, k := w, k + 1;
    }
  }

  /** A new file system on a device of any contents. */
  method Format(contents: seq<Block>) returns (dev: BlockDevice, fm: FreeMap.FreeMap, cache: Cache.Cache, ghost v: Volume)
    requires 2 <= |contents| < Bitmap.BITMAP_ERROR
    ensures fresh(dev) && fresh(fm) && fresh(fm.bitmap.elems) && fresh(cache) && cache.entries == [] && cache.resident == map[]
    ensures Describes(v, [], cache, dev, fm) && v.stale == {} && v.files == []
    ensures forall s: Sector :: s in v.free <==> 2 <= s < |contents|
  {
    dev := new BlockDevice(contents);
    fm := new FreeMap.FreeMap(|contents|);
    cache := new Cache.Cache(dev);
    v := Volume(fm.free, {}, []);
  }

  // ---- What runs keep ----

  lemma {:induction false} RunJoin(v: Volume, p: seq<Op>, q: seq<Op>)
    requires AllFit(v, p + q)
    ensures AllFit(v, p) && AllFit(AfterAll(v, p), q)
    ensures AfterAll(v, p + q) == AfterAll(AfterAll(v, p), q) && Answers(v, p + q) == Answers(v, p) + Answers(AfterAll(v, p), q)
    decreases |p|
  {
    hide Fits, After, AnswerTo;
    if p == [] {
      assert p + q == q;
    } else {
      assert (p + q)[0] == p[0] && (p + q)[1..] == p[1..] + q;
      RunJoin(After(v, p[0]), p[1..], q);
    }
  }

  /** Where file `i` is after an operation: those behind a removed one move up. */
  function Place(op: Op, i: nat): nat {
    if op.RemoveOp? && op.i < i then i - 1 else i
  }

  function PlaceAfter(ops: seq<Op>, i: nat): nat {
    if ops == [] then i else PlaceAfter(ops[1..], Place(ops[0], i))
  }

  /** Nothing that writes to file `i` or removes it. */
  predicate Leaves(ops: seq<Op>, i: nat) {
    ops == [] || ((ops[0].WriteOp? || ops[0].RemoveOp? ==> ops[0].i != i) && Leaves(ops[1..], Place(ops[0], i)))
  }

  /** Such a run leaves the file as it is. */
  lemma {:induction false} Undisturbed(v: Volume, ops: seq<Op>, i: nat)
    requires AllFit(v, ops) && i < |v.files| && Leaves(ops, i)
    ensures PlaceAfter(ops, i) < |AfterAll(v, ops).files| && AfterAll(v, ops).files[PlaceAfter(ops, i)] == v.files[i]
    decreases |ops|
  {
    hide Available, First, Least, Written, Needed;
    if ops != [] {
      Undisturbed(After(v, ops[0]), ops[1..], Place(ops[0], i));
    }
  }

  /** Nothing that removes file `i`. */
  predicate Retains(ops: seq<Op>, i: nat) {
    ops == [] || ((ops[0].RemoveOp? ==> ops[0].i != i) && Retains(ops[1..], Place(ops[0], i)))
  }

  /** As long as a file is there, it stays what it is, directory or not, in its inode's
      sector, closed to writing or not. */
  lemma {:induction false} KindStays(v: Volume, ops: seq<Op>, i: nat)
    requires AllFit(v, ops) && i < |v.files| && Retains(ops, i)
    ensures PlaceAfter(ops, i) < |AfterAll(v, ops).files|
    ensures var f := AfterAll(v, ops).files[PlaceAfter(ops, i)];
            f.dir == v.files[i].dir && f.home == v.files[i].home && f.closed == v.files[i].closed
    decreases |ops|
  {
    hide Available, First, Least, Written, Needed;
    if ops != [] {
      KindStays(After(v, ops[0]), ops[1..], Place(ops[0], i));
    }
  }

  /** So a file is a directory to its end if and only if it was made as one. */
  lemma MadeAs(v: Volume, len: nat, dir: bool, ops: seq<Op>)
    requires AllFit(v, [Make(len, dir)] + ops) && Retains(ops, |v.files|)
    ensures var z, i := AfterAll(v, [Make(len, dir)] + ops), PlaceAfter(ops, |v.files|);
            i < |z.files| && z.files[i].dir == dir
  {
    hide Available, First, Least;
    var all := [Make(len, dir)] + ops;
    assert all[0] == Make(len, dir) && all[1..] == ops;
    KindStays(After(v, Make(len, dir)), ops, |v.files|);
  }

  /** A read returns the last bytes written, whatever was done to other files since. */
  lemma LastWriteRead(v: Volume, i: nat, bytes: seq<Byte>, offset: nat, ops: seq<Op>)
    requires AllFit(v, [WriteOp(i, bytes, offset)] + ops + [ReadOp(PlaceAfter(ops, i), |bytes|, offset)]) && i < |v.files|
    requires !v.files[i].closed && |v.files[i].content| <= MAX_FILE_SIZE && offset + |bytes| <= MAX_FILE_SIZE && Leaves(ops, i)
    ensures var answers := Answers(v, [WriteOp(i, bytes, offset)] + ops + [ReadOp(PlaceAfter(ops, i), |bytes|, offset)]);
            |answers| > 0 && answers[|answers| - 1] == Got(bytes)
  {
    hide Fits, Available, Least, Written, FlatFile.Read, Leaves;
    var op, last := WriteOp(i, bytes, offset), ReadOp(PlaceAfter(ops, i), |bytes|, offset);
    RunJoin(v, [op] + ops, [last]);
    RunJoin(v, [op], ops);
    var u := After(v, op);
    assert AfterAll(v, [op]) == u;
    Undisturbed(u, ops, i);
    WrittenReads(v.files[i].content, bytes, offset);
    var w := AfterAll(u, ops);
    assert Answers(w, [last]) == [AnswerTo(w, last)];
  }

  lemma WrittenReads(content: seq<Byte>, bytes: seq<Byte>, offset: nat)
    requires |content| <= MAX_FILE_SIZE && offset + |bytes| <= MAX_FILE_SIZE
    ensures FlatFile.Read(Written(content, bytes, offset), offset, |bytes|) == bytes
  {
    hide FlatFile.Write, FlatFile.Read, LengthAfter;
    WriteEffect(content, offset, bytes);
    LengthFits(|content|, offset + |bytes|);
    ReadAfterWrite(content, offset, bytes);
    var flat := FlatFile.Write(content, offset, bytes);
    assert flat[..|flat|] == flat;
  }

  /** The sector is free, or a file's, or has a file's inode. */
  ghost predicate Accounted(v: Volume, s: Sector) {
    s in v.free || exists i :: 0 <= i < |v.files| && (s in v.files[i].owned || s == v.files[i].home)
  }

  lemma AccountedStep(v: Volume, op: Op, s: Sector)
    requires Fits(v, op)
    ensures Accounted(v, s) <==> Accounted(After(v, op), s)
  {
    match op
    case Make(_, _) => MakeAccounts(v, op, s);
    case ReadOp(_, _, _) =>
    case WriteOp(_, _, _) => WriteAccounts(v, op, s);
    case RemoveOp(_) => RemoveAccounts(v, op, s);
  }

  lemma MakeAccounts(v: Volume, op: Op, s: Sector)
    requires op.Make? && Fits(v, op)
    ensures Accounted(v, s) <==> Accounted(After(v, op), s)
  {
    hide Rank, Total;
    var z := After(v, op);
    HasLeast(v.free);
    assert First(v.free) in v.free;
    var n := |v.files|;
    assert z.files[n].home == First(v.free) && forall i :: 0 <= i < n ==> z.files[i] == v.files[i];
    if Accounted(v, s) && s !in z.free {
      if s in v.free {
        assert s in z.files[n].owned || s == z.files[n].home;
      } else {
        var i :| 0 <= i < n && (s in v.files[i].owned || s == v.files[i].home);
        assert z.files[i] == v.files[i];
      }
    }
    if Accounted(z, s) && s !in v.free {
      var i :| 0 <= i <= n && (s in z.files[i].owned || s == z.files[i].home);
      assert i < n && z.files[i] == v.files[i];
    }
  }

  lemma {:induction false} HasLeast(free: set<Sector>)
    requires free != {}
    ensures exists x :: IsLeast(free, x)
    decreases |free|
  {
    var y :| y in free;
    if free == {y} {
      assert IsLeast(free, y);
    } else {
      HasLeast(free - {y});
      var x :| IsLeast(free - {y}, x);
      var z := if x < y then x else y;
      forall w | w in free
        ensures z <= w
      {
        assert w == y || w in free - {y};
      }
      assert IsLeast(free, z);
    }
  }

  lemma WriteAccounts(v: Volume, op: Op, s: Sector)
    requires op.WriteOp? && Fits(v, op)
    ensures Accounted(v, s) <==> Accounted(After(v, op), s)
  {
    hide Rank, Total;
    var z := After(v, op);
    if Accounted(v, s) && s !in z.free {
      if s in v.free {
        assert s in z.files[op.i].owned;
      } else {
        var i :| 0 <= i < |v.files| && (s in v.files[i].owned || s == v.files[i].home);
        assert s in z.files[i].owned || s == z.files[i].home;
      }
    }
    if Accounted(z, s) && s !in v.free {
      var i :| 0 <= i < |z.files| && (s in z.files[i].owned || s == z.files[i].home);
      assert s in v.files[i].owned || s == v.files[i].home;
    }
  }

  lemma RemoveAccounts(v: Volume, op: Op, s: Sector)
    requires op.RemoveOp? && Fits(v, op)
    ensures Accounted(v, s) <==> Accounted(After(v, op), s)
  {
    var z := After(v, op);
    if Accounted(v, s) && s !in z.free {
      var i :| 0 <= i < |v.files| && (s in v.files[i].owned || s == v.files[i].home);
      assert z.files[if i < op.i then i else i - 1] == v.files[i];
    }
    if Accounted(z, s) && s !in v.free {
      if s in z.free {
        assert s in v.files[op.i].owned || s == v.files[op.i].home;
      } else {
        var k :| 0 <= k < |z.files| && (s in z.files[k].owned || s == z.files[k].home);
        assert v.files[if k < op.i then k else k + 1] == z.files[k];
      }
    }
  }

  /** No run loses a sector or finds one. */
  lemma {:induction false} RunConserves(v: Volume, ops: seq<Op>, s: Sector)
    requires AllFit(v, ops)
    ensures Accounted(v, s) <==> Accounted(AfterAll(v, ops), s)
    decreases |ops|
  {
    hide Fits, After, Accounted;
    if ops != [] {
      AccountedStep(v, ops[0], s);
      RunConserves(After(v, ops[0]), ops[1..], s);
    }
  }
}
