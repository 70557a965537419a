/** A file as a flat sequence of bytes: what `inode_read_at` and `inode_write_at`
    promise, independent of sectors, and how the bytes lie in a list of sectors. */
module FlatFile {
  import opened Basics
  import opened Device
  import opened InodeTree

  function Zeros(n: nat): seq<Byte> { seq(n, _ => 0) }

  /** `b` laid over `f` from byte `offset` on. */
  function Splice(f: seq<Byte>, offset: nat, b: seq<Byte>): seq<Byte>
    requires offset + |b| <= |f|
  {
    f[..offset] + b + f[offset + |b|..]
  }

  /** Writing past the end extends the file; the gap reads as zeros. */
  function Write(f: seq<Byte>, offset: nat, b: seq<Byte>): seq<Byte> {
    Splice(if |f| < offset + |b| then f + Zeros(offset + |b| - |f|) else f, offset, b)
  }

  function Read(f: seq<Byte>, offset: nat, size: nat): seq<Byte> {
    if |f| <= offset then [] else f[offset..Min(|f|, offset + size)]
  }

  /** A read returns the bytes from the offset on, as many as asked for or as there are. */
  lemma ReadEffect(f: seq<Byte>, offset: nat, size: nat)
    ensures |Read(f, offset, size)| == if |f| <= offset then 0 else if |f| - offset < size then |f| - offset else size
    ensures forall i :: 0 <= i < |Read(f, offset, size)| ==> Read(f, offset, size)[i] == f[offset + i]
  {}

  /** A read returns the last bytes written, bytes outside the write keep their
      value, and the gap of a write past the end reads as zeros. */
  lemma ReadAfterWrite(f: seq<Byte>, offset: nat, b: seq<Byte>)
    ensures Read(Write(f, offset, b), offset, |b|) == b
    ensures |Write(f, offset, b)| == if |f| < offset + |b| then offset + |b| else |f|
    ensures forall p :: 0 <= p < |f| && !(offset <= p < offset + |b|) ==> Write(f, offset, b)[p] == f[p]
    ensures forall p :: |f| <= p < offset ==> Write(f, offset, b)[p] == 0
  {}

  /** The bytes that the sectors `data` hold, one sector after another. */
  ghost function Raw(disk: seq<Block>, data: seq<Sector>): (r: seq<Byte>)
    requires forall k :: 0 <= k < |data| ==> data[k] < |disk|
    ensures |r| == SECTOR_SIZE * |data|
  {
    seq(SECTOR_SIZE * |data|, p requires 0 <= p < SECTOR_SIZE * |data| => disk[data[p / SECTOR_SIZE]][p % SECTOR_SIZE])
  }

  /** One sector of the file is one stretch of its bytes. */
  lemma RawChunk(disk: seq<Block>, data: seq<Sector>, k: nat, ofs: nat, cnt: nat)
    requires forall i :: 0 <= i < |data| ==> data[i] < |disk|
    requires k < |data| && ofs + cnt <= SECTOR_SIZE
    ensures Raw(disk, data)[SECTOR_SIZE * k + ofs..SECTOR_SIZE * k + ofs + cnt] == disk[data[k]][ofs..ofs + cnt]
  {
    var ours, theirs := Raw(disk, data)[SECTOR_SIZE * k + ofs..SECTOR_SIZE * k + ofs + cnt], disk[data[k]][ofs..ofs + cnt];
    forall j | 0 <= j < cnt
      ensures ours[j] == theirs[j]
    {
      assert (SECTOR_SIZE * k + ofs + j) / SECTOR_SIZE == k && (SECTOR_SIZE * k + ofs + j) % SECTOR_SIZE == ofs + j;
    }
  }

  /** Overwriting part of one data sector overwrites that stretch of the file and
      nothing else, because no sector is used twice. */
  lemma RawSplice(disk: seq<Block>, t: Tree, k: nat, ofs: nat, b: seq<Byte>, block: Block)
    requires Separate(t) && forall i :: 0 <= i < |t.data| ==> t.data[i] < |disk|
    requires k < |t.data| && ofs + |b| <= SECTOR_SIZE && block == Splice(disk[t.data[k]], ofs, b)
    ensures Raw(disk[t.data[k] := block], t.data) == Splice(Raw(disk, t.data), SECTOR_SIZE * k + ofs, b)
  {
    var after, before := Raw(disk[t.data[k] := block], t.data), Raw(disk, t.data);
    forall p | 0 <= p < SECTOR_SIZE * |t.data|
      ensures after[p] == Splice(before, SECTOR_SIZE * k + ofs, b)[p]
    {
      var j := p / SECTOR_SIZE;
      if j != k {
        assert t.roles[t.data[j]] == Data(j) && t.roles[t.data[k]] == Data(k);
        assert !(SECTOR_SIZE * k + ofs <= p < SECTOR_SIZE * k + ofs + |b|);
      }
    }
  }

  /** The file's bytes depend on its data sectors only. */
  lemma RawFrame(d0: seq<Block>, d1: seq<Block>, data: seq<Sector>)
    requires |d0| == |d1| && forall i :: 0 <= i < |data| ==> data[i] < |d0| && d1[data[i]] == d0[data[i]]
    ensures Raw(d1, data) == Raw(d0, data)
  {}

  /** Zeroed sectors hold zero bytes. */
  lemma RawZeros(disk: seq<Block>, data: seq<Sector>)
    requires forall k :: 0 <= k < |data| ==> Zeroed(disk, data[k])
    ensures forall k :: 0 <= k < |data| ==> data[k] < |disk|
    ensures Raw(disk, data) == Zeros(SECTOR_SIZE * |data|)
  {
    assert forall k :: 0 <= k < |data| ==> Zeroed(disk, data[k]);
  }

  /** Appended zeroed sectors are appended zero bytes. */
  lemma RawGrow(d0: seq<Block>, d1: seq<Block>, data0: seq<Sector>, data1: seq<Sector>)
    requires |d0| == |d1| && data0 <= data1
    requires forall i :: 0 <= i < |data0| ==> data0[i] < |d0| && d1[data0[i]] == d0[data0[i]]
    requires forall i :: |data0| <= i < |data1| ==> Zeroed(d1, data1[i])
    ensures forall i :: 0 <= i < |data1| ==> data1[i] < |d1|
    ensures Raw(d1, data1) == Raw(d0, data0) + Zeros(SECTOR_SIZE * (|data1| - |data0|))
  {
    forall i | 0 <= i < |data0|
      ensures data1[i] == data0[i]
    {}
  }

  /** The unused end of the last sector is all zeros. */
  ghost predicate TailZero(raw: seq<Byte>, length: nat) {
    length <= |raw| && forall p :: length <= p < |raw| ==> raw[p] == 0
  }

  /** The write at the level of whole sectors, cut off at byte `cut` of the file, is
      the flat write as far as that; `n` bytes of `b` are written. */
  lemma SpliceIsWrite(raw: seq<Byte>, length: nat, grown: nat, offset: nat, b: seq<Byte>, cut: nat, n: nat)
    requires TailZero(raw, length) && cut <= |raw| + grown && cut <= |Write(raw[..length], offset, b)|
    requires n <= |b| && (n == 0 || offset + n <= cut) && (n == |b| || offset + n == cut || (n == 0 && cut <= offset))
    ensures var raw' := if n == 0 then raw + Zeros(grown) else Splice(raw + Zeros(grown), offset, b[..n]);
            && |raw'| == |raw| + grown && raw'[..cut] == Write(raw[..length], offset, b)[..cut]
            && (length <= cut ==> TailZero(raw', cut))
  {
    var base := raw + Zeros(grown);
    var raw' := if n == 0 then base else Splice(base, offset, b[..n]);
    var flat := Write(raw[..length], offset, b);
    hide Write, Splice, Zeros;
    SpliceAt(base, offset, b[..n]);
    ZerosAt(raw, length, grown);
    WriteEffect(raw[..length], offset, b);
    forall p | 0 <= p < cut
      ensures raw'[p] == flat[p]
    {
      assert base[p] == if p < length then raw[p] else 0;
    }
  }

  lemma SpliceAt(f: seq<Byte>, offset: nat, b: seq<Byte>)
    ensures offset + |b| <= |f| ==>
              && |Splice(f, offset, b)| == |f|
              && forall p :: 0 <= p < |f| ==> Splice(f, offset, b)[p] == if offset <= p < offset + |b| then b[p - offset] else f[p]
  {}

  lemma ZerosAt(raw: seq<Byte>, length: nat, grown: nat)
    requires TailZero(raw, length)
    ensures |raw + Zeros(grown)| == |raw| + grown
    ensures forall p :: 0 <= p < |raw| + grown ==> (raw + Zeros(grown))[p] == if p < length then raw[p] else 0
  {}

  lemma WriteEffect(f: seq<Byte>, offset: nat, b: seq<Byte>)
    ensures |Write(f, offset, b)| == if |f| < offset + |b| then offset + |b| else |f|
    ensures forall p :: 0 <= p < |Write(f, offset, b)| ==>
              Write(f, offset, b)[p] == if offset <= p < offset + |b| then b[p - offset] else if p < |f| then f[p] else 0
  {}
}
