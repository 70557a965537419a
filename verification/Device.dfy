/** The block device the file system lives on, and the layout of a pointer
    block: 128 little-endian 32-bit sector numbers in one 512-byte sector. */
module Device {
  import opened Basics

  const SECTOR_SIZE := 512
  const BLOCK_PTRS := 128

  type Sector = s: int | 0 <= s < 0x1_0000_0000

  /** `(block_sector_t) -1`, the "no such sector" answer. */
  const NO_SECTOR: Sector := 0xFFFF_FFFF

  type Block = b: seq<Byte> | |b| == SECTOR_SIZE witness seq(SECTOR_SIZE, _ => 0)

  function ZeroBlock(): Block { seq(SECTOR_SIZE, _ => 0) }

  /** Byte `k` (0 to 3) of the little-endian form of `s`. */
  function SectorByte(s: Sector, k: int): Byte
    requires 0 <= k < 4
  {
    (if k == 0 then s else if k == 1 then s / 0x100 else if k == 2 then s / 0x1_0000 else s / 0x100_0000) % 256
  }

  function PtrAt(b: Block, i: int): Sector
    requires 0 <= i < BLOCK_PTRS
  {
    b[4 * i] as int + 0x100 * b[4 * i + 1] as int + 0x1_0000 * b[4 * i + 2] as int + 0x100_0000 * b[4 * i + 3] as int
  }

  /** The pointers a sector holds when read as a `struct indirect_block`. */
  function Ptrs(b: Block): (p: seq<Sector>)
    ensures |p| == BLOCK_PTRS
  {
    seq(BLOCK_PTRS, i requires 0 <= i < BLOCK_PTRS => PtrAt(b, i))
  }

  /** The sector image of a `struct indirect_block`. */
  function PtrBlock(p: seq<Sector>): Block
    requires |p| == BLOCK_PTRS
  {
    seq(SECTOR_SIZE, k requires 0 <= k < SECTOR_SIZE => SectorByte(p[k / 4], k % 4))
  }

  lemma SectorBytesRoundTrip(s: Sector)
    ensures SectorByte(s, 0) as int + 0x100 * SectorByte(s, 1) as int + 0x1_0000 * SectorByte(s, 2) as int
            + 0x100_0000 * SectorByte(s, 3) as int == s as int
  {}

  /** Writing a pointer block and reading it back gives the same pointers. */
  lemma PtrBlockRoundTrip(p: seq<Sector>)
    requires |p| == BLOCK_PTRS
    ensures Ptrs(PtrBlock(p)) == p
  {
    forall i | 0 <= i < BLOCK_PTRS
      ensures PtrAt(PtrBlock(p), i) == p[i]
    {
      var b := PtrBlock(p);
      assert forall k :: 0 <= k < 4 ==> b[4 * i + k] == SectorByte(p[i], k);
      SectorBytesRoundTrip(p[i]);
    }
  }

  class BlockDevice {
    var sectors: seq<Block>

    constructor (contents: seq<Block>)
      ensures sectors == contents
    {
      sectors := contents;
    }

    method Read(s: Sector) returns (b: Block)
      requires s < |sectors|
      ensures b == sectors[s]
    {
      b := sectors[s];
    }

    method Write(s: Sector, b: Block)
      requires s < |sectors|
      modifies this
      ensures sectors == old(sectors)[s := b]
    {
      sectors := sectors[s := b];
    }

    /** `block_read` into a `struct indirect_block`. */
    method ReadPtrs(s: Sector, block: array<Sector>)
      requires s < |sectors| && block.Length == BLOCK_PTRS
      modifies block
      ensures block[..] == Ptrs(sectors[s])
    {
      forall i | 0 <= i < BLOCK_PTRS {
        block[i] := PtrAt(sectors[s], i);
      }
    }

    /** `block_write` of a `struct indirect_block`. */
    method WritePtrs(s: Sector, block: array<Sector>)
      requires s < |sectors| && block.Length == BLOCK_PTRS
      modifies this
      ensures |sectors| == |old(sectors)| && sectors == old(sectors)[s := sectors[s]]
      ensures Ptrs(sectors[s]) == block[..]
    {
      sectors := sectors[s := PtrBlock(block[..])];
      PtrBlockRoundTrip(block[..]);
    }
  }
}
