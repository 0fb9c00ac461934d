/** The partition as a file system sees it: geometry, numbered blocks, bitmaps and inode slots. */
module Disk {
  import opened Bytes

  /** Where a group keeps its bitmaps and its inode table. */
  datatype Places = Places(blockBitmap: nat, inodeBitmap: nat, inodeTable: nat)

  /** What an open handle never changes. */
  datatype Geo = Geo(
    start: nat, blockCount: nat, blockSize: nat, blocksPerGroup: nat, inodesPerGroup: nat, inodeSize: nat,
    descSize: nat, is64bit: bool, hasExtents: bool, csum: bool, seed: u32, places: seq<Places>)

  /** The card's bytes, seen through a geometry. */
  datatype Disk = Disk(g: Geo, card: seq<byte>)

  const SECTOR := 512

  predicate Fits(d: Disk) {
    && 1024 <= d.g.blockSize <= 0x1_0000 && d.g.blockSize % 1024 == 0
    && 2 <= d.g.blockCount
    && d.g.start * SECTOR + d.g.blockCount * d.g.blockSize <= |d.card| <= SECTOR * 0x1_0000_0000
  }

  // ---- blocks ----

  function Base(g: Geo, b: nat): nat { g.start * SECTOR + b * g.blockSize }

  predicate InRange(d: Disk, b: nat) { Base(d.g, b) + d.g.blockSize <= |d.card| }

  /** The bytes of block `b`; nothing if the card ends before it. */
  function Blk(d: Disk, b: nat): (r: seq<byte>)
    ensures InRange(d, b) ==> |r| == d.g.blockSize
  {
    if InRange(d, b) then d.card[Base(d.g, b)..Base(d.g, b) + d.g.blockSize] else []
  }

  function WithBlk(d: Disk, b: nat, x: seq<byte>): (d': Disk)
    requires InRange(d, b) && |x| == d.g.blockSize
    ensures d'.g == d.g && |d'.card| == |d.card|
  {
    d.(card := Put(d.card, Base(d.g, b), x))
  }

  lemma BasesApart(g: Geo, b: nat, c: nat)
    requires b < c
    ensures Base(g, b) + g.blockSize <= Base(g, c)
  {
    assert (b + 1) * g.blockSize <= c * g.blockSize;
  }

  lemma WithBlkReads(d: Disk, b: nat, x: seq<byte>)
    requires InRange(d, b) && |x| == d.g.blockSize
    ensures Blk(WithBlk(d, b, x), b) == x
  {
    hide Base, Put;
    PutInside(d.card, Base(d.g, b), x);
  }

  lemma WithBlkKeeps(d: Disk, b: nat, x: seq<byte>, c: nat)
    requires InRange(d, b) && |x| == d.g.blockSize && c != b
    ensures Blk(WithBlk(d, b, x), c) == Blk(d, c)
  {
    hide Base, Put;
    if b < c { BasesApart(d.g, b, c); } else { BasesApart(d.g, c, b); }
    if InRange(d, c) {
      PutOutside(d.card, Base(d.g, b), x, Base(d.g, c), Base(d.g, c) + d.g.blockSize);
    }
  }

  /** `d'` differs from `d` at most in the blocks of `s`. */
  ghost predicate SameBut(d: Disk, d': Disk, s: set<nat>) {
    && d'.g == d.g && |d'.card| == |d.card|
    && forall c :: c !in s ==> Blk(d', c) == Blk(d, c)
  }

  lemma WithBlkFrame(d: Disk, b: nat, x: seq<byte>)
    requires InRange(d, b) && |x| == d.g.blockSize
    ensures Blk(WithBlk(d, b, x), b) == x && SameBut(d, WithBlk(d, b, x), {b})
  {
    hide Blk, WithBlk, InRange, Put;
    WithBlkReads(d, b, x);
    forall c: nat | c != b ensures Blk(WithBlk(d, b, x), c) == Blk(d, c) { WithBlkKeeps(d, b, x, c); }
  }

  // ---- sectors ----

  /** The sector that the driver computes for a block, in its 32-bit arithmetic. */
  function Lba(g: Geo, b: nat): nat {
    (g.start % 0x1_0000_0000 + b * g.blockSize / SECTOR % 0x1_0000_0000) % 0x1_0000_0000
  }

  lemma LbaExact(d: Disk, b: nat)
    requires Fits(d) && b < d.g.blockCount
    ensures Lba(d.g, b) * SECTOR == Base(d.g, b) && InRange(d, b)
    ensures (Lba(d.g, b) + d.g.blockSize / SECTOR) * SECTOR == Base(d.g, b) + d.g.blockSize
  {
    var bs, n := d.g.blockSize, d.g.blockCount;
    var x := b * bs;
    WholeSectors(b, bs);
    WholeSectors(1, bs);
    MulNext(b, n, bs);
    NoWrap(d.g.start, x, bs, |d.card|);
    Linear(d.g.start, x, bs);
  }

  lemma Linear(start: nat, x: nat, bs: nat)
    requires x / SECTOR * SECTOR == x && bs / SECTOR * SECTOR == bs
    ensures (start + x / SECTOR) * SECTOR == start * SECTOR + x
    ensures (start + x / SECTOR + bs / SECTOR) * SECTOR == start * SECTOR + x + bs
  {
  }

  lemma MulNext(b: nat, n: nat, bs: nat)
    requires b < n
    ensures b * bs + bs <= n * bs
  {
    assert (b + 1) * bs <= n * bs;
  }

  /** Below 2^32 sectors no step of the address arithmetic wraps. */
  lemma NoWrap(start: nat, offset: nat, bs: nat, size: nat)
    requires offset / SECTOR * SECTOR == offset && 1024 <= bs
    requires start * SECTOR + offset + bs <= size <= SECTOR * 0x1_0000_0000
    ensures (start % 0x1_0000_0000 + offset / SECTOR % 0x1_0000_0000) % 0x1_0000_0000 == start + offset / SECTOR
  {
    assert start + offset / SECTOR < 0x1_0000_0000;
  }

  lemma WholeSectors(b: nat, bs: nat)
    requires bs % 1024 == 0
    ensures b * bs / SECTOR * SECTOR == b * bs
  {
    var k := bs / 1024;
    assert b * bs == (b * k * 2) * SECTOR;
  }
}
