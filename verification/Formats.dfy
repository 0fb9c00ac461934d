/** The records of the disk written out from their fields, and what their readers make of them. */
module Formats {
  import opened Bytes
  import opened Inode
  import opened Metadata
  import Crc32c

  // ---- the superblock ----

  /** What a superblock says beside its fields: the block size as a power of two, the identifier, whether the checksum
      seed is stored, and what happens to be in the places that only some file systems use. */
  datatype Label = Label(log: u32, uuid: seq<byte>, storesSeed: bool, stale: u16)

  const BLOCK_SIZES := [1024, 2048, 4096, 8192, 16384, 32768, 65536]

  /** The fields agree with each other. The last group may be a partial one. */
  predicate Consistent(p: Superblock, l: Label) {
    && |l.uuid| == 16 && l.log < |BLOCK_SIZES| && p.blockSize == BLOCK_SIZES[l.log]
    && 0 < p.blocksPerGroup
    && (p.numGroups - 1) * p.blocksPerGroup < p.blockCount <= p.numGroups * p.blocksPerGroup
    && (if p.is64bit then 0 < p.descSize
        else p.descSize == 32 && p.blockCount < 0x1_0000_0000 && p.freeBlocks < 0x1_0000_0000)
    && (!p.metadataCsum ==> p.csumSeed == 0)
    && (p.metadataCsum && !l.storesSeed ==> p.csumSeed == Num(Crc32c.Raw(l.uuid, 0xFFFF_FFFF)))
  }

  function Mask(on: bool, bits: byte): byte { if on then bits else 0 }

  /** Bytes 0 to 24. */
  function StoredCounts(p: Superblock): (s: seq<byte>)
    ensures |s| == 24
  {
    Enc32(p.inodeCount) + Enc32(p.blockCount % 0x1_0000_0000) + Zeros(4)
    + Enc32(p.freeBlocks % 0x1_0000_0000) + Enc32(p.freeInodes) + Zeros(4)
  }

  /** Bytes 24 to 58. */
  function StoredSizes(p: Superblock, l: Label): (s: seq<byte>)
    ensures |s| == 34
  {
    Enc32(l.log) + Zeros(4) + Enc32(p.blocksPerGroup) + Zeros(4) + Enc32(p.inodesPerGroup) + Zeros(12) + [0x53, 0xEF]
  }

  /** Bytes 58 to 120. */
  function StoredFeatures(p: Superblock, l: Label): (s: seq<byte>)
    requires |l.uuid| == 16
    ensures |s| == 62
  {
    Zeros(30) + Enc16(p.inodeSize) + Zeros(2)
    + [Mask(p.hasJournal, 0x04), 0, 0, 0]
    + [Mask(p.is64bit, 0x80) + Mask(p.hasExtents, 0x40), Mask(l.storesSeed, 0x20), 0, 0]
    + [0, Mask(p.metadataCsum, 0x04), 0, 0] + l.uuid
  }

  /** Bytes 120 to 1020. */
  function StoredRest(p: Superblock, l: Label): (s: seq<byte>)
    ensures |s| == 900
  {
    Zeros(134) + Enc16(if p.is64bit then p.descSize else l.stale) + Zeros(12)
    + Enc32(if l.storesSeed then p.csumSeed else l.stale) + Zeros(64)
    + Enc32(if p.is64bit then p.blockCount / 0x1_0000_0000 else l.stale)
    + Enc32(if p.is64bit then p.freeBlocks / 0x1_0000_0000 else l.stale) + Zeros(676)
  }

  /** The superblock with these fields: its last field is the complement of the CRC of all that comes before. */
  function StoredSuper(p: Superblock, l: Label): (s: seq<byte>)
    requires |l.uuid| == 16
    ensures |s| == 1024
  {
    var f := StoredCounts(p) + StoredSizes(p, l) + StoredFeatures(p, l) + StoredRest(p, l);
    f + Enc32(Num(Crc32c.Raw(f, 0xFFFF_FFFF) ^ 0xFFFF_FFFF))
  }

  /** A field that is found byte by byte. */
  lemma Reads32(s: seq<byte>, o: nat, x: u32)
    requires o + 4 <= |s| && s[o] == Enc32(x)[0] && s[o + 1] == Enc32(x)[1]
    requires s[o + 2] == Enc32(x)[2] && s[o + 3] == Enc32(x)[3]
    ensures Le32(s, o) == x
  {
    assert s[o..o + 4] == Enc32(x);
    Enc32Reads(s, o, x);
  }

  lemma Reads16(s: seq<byte>, o: nat, x: u16)
    requires o + 2 <= |s| && s[o] == Enc16(x)[0] && s[o + 1] == Enc16(x)[1]
    ensures Le16(s, o) == x
  {
    assert s[o..o + 2] == Enc16(x);
    Enc16Reads(s, o, x);
  }

  lemma CountsRead(p: Superblock)
    ensures var s := StoredCounts(p);
            && Le32(s, 0) == p.inodeCount && Le32(s, 4) == p.blockCount % 0x1_0000_0000
            && Le32(s, 12) == p.freeBlocks % 0x1_0000_0000 && Le32(s, 16) == p.freeInodes
  {
    hide Zeros, Enc32, Le32;
    var s := StoredCounts(p);
    Reads32(s, 0, p.inodeCount);
    Reads32(s, 4, p.blockCount % 0x1_0000_0000);
    Reads32(s, 12, p.freeBlocks % 0x1_0000_0000);
    Reads32(s, 16, p.freeInodes);
  }

  lemma SizesRead(p: Superblock, l: Label)
    ensures var s := StoredSizes(p, l);
            && Le32(s, 0) == l.log && Le32(s, 8) == p.blocksPerGroup && Le32(s, 16) == p.inodesPerGroup
            && Le16(s, 32) == 0xEF53
  {
    hide Zeros, Enc32, Le32;
    var s := StoredSizes(p, l);
    Reads32(s, 0, l.log);
    Reads32(s, 8, p.blocksPerGroup);
    Reads32(s, 16, p.inodesPerGroup);
  }

  lemma FeaturesRead(p: Superblock, l: Label)
    requires |l.uuid| == 16
    ensures var s := StoredFeatures(p, l);
            && Le16(s, 30) == p.inodeSize && s[46..62] == l.uuid
            && Le32(s, 34) == Mask(p.hasJournal, 4) && Le32(s, 42) == 0x100 * Mask(p.metadataCsum, 4)
            && Le32(s, 38) == Mask(p.is64bit, 0x80) + Mask(p.hasExtents, 0x40) + 0x100 * Mask(l.storesSeed, 0x20)
  {
    hide Zeros, Enc16;
    Reads16(StoredFeatures(p, l), 30, p.inodeSize);
  }

  lemma FlagsRead(p: Superblock, l: Label)
    ensures var incompat := Mask(p.is64bit, 0x80) + Mask(p.hasExtents, 0x40) + 0x100 * Mask(l.storesSeed, 0x20);
            && Flag(incompat, 7) == p.is64bit && Flag(incompat, 6) == p.hasExtents && Flag(incompat, 13) == l.storesSeed
            && Flag(Mask(p.hasJournal, 4), 2) == p.hasJournal
            && Flag(0x100 * Mask(p.metadataCsum, 4), 10) == p.metadataCsum
  {
    assert Pow2(2) == 4;
    assert Pow2(6) == 0x40;
    assert Pow2(7) == 0x80;
    assert Pow2(10) == 0x400 by { assert Pow2(8) == 0x100; }
    assert Pow2(13) == 0x2000 by { assert Pow2(11) == 0x800; }
  }

  lemma RestRead(p: Superblock, l: Label)
    ensures var s := StoredRest(p, l);
            && Le16(s, 134) == (if p.is64bit then p.descSize else l.stale)
            && Le32(s, 148) == (if l.storesSeed then p.csumSeed else l.stale)
            && Le32(s, 216) == (if p.is64bit then p.blockCount / 0x1_0000_0000 else l.stale)
            && Le32(s, 220) == (if p.is64bit then p.freeBlocks / 0x1_0000_0000 else l.stale)
  {
    hide Zeros, Enc32, Enc16, Le32, Le16;
    var s := StoredRest(p, l);
    Reads16(s, 134, if p.is64bit then p.descSize else l.stale);
    Reads32(s, 148, if l.storesSeed then p.csumSeed else l.stale);
    Reads32(s, 216, if p.is64bit then p.blockCount / 0x1_0000_0000 else l.stale);
    Reads32(s, 220, if p.is64bit then p.freeBlocks / 0x1_0000_0000 else l.stale);
  }

  /** A field of a part is a field of the whole. */
  lemma PartReads(s: seq<byte>, at: nat, t: seq<byte>, o: nat)
    requires at + |t| <= |s| && s[at..at + |t|] == t && o + 2 <= |t|
    ensures Le16(s, at + o) == Le16(t, o)
    ensures o + 4 <= |t| ==> Le32(s, at + o) == Le32(t, o)
  {
    assert forall i :: 0 <= i < |t| ==> s[at + i] == t[i];
  }

  lemma SizeOf(log: u32)
    requires log < |BLOCK_SIZES|
    ensures BlockSize(log) == BLOCK_SIZES[log]
  {
    assert Pow2(3) == 8;
    assert Pow2(6) == 64;
  }

  /** The number of groups, the last of which may be a partial one. */
  lemma RoundUp(count: nat, per: nat, groups: nat)
    requires 0 < per && (groups - 1) * per < count <= groups * per
    ensures (count + per - 1) / per == groups
  {
    var r := count + per - 1 - groups * per;
    assert (groups - 1) * per == groups * per - per;
    assert count + per - 1 == groups * per + r && 0 <= r < per;
    QuotientUnique(groups, per, r);
  }

  lemma SuperParts(p: Superblock, l: Label)
    requires |l.uuid| == 16
    ensures var s := StoredSuper(p, l);
            && s[0..24] == StoredCounts(p) && s[24..58] == StoredSizes(p, l) && s[58..120] == StoredFeatures(p, l)
            && s[120..1020] == StoredRest(p, l)
            && Le32(s, 1020) == Num(SuperChecksum(s))
  {
    hide StoredCounts, StoredSizes, StoredFeatures, StoredRest, Crc32c.Raw, Num, Enc32, Le32;
    var f := StoredCounts(p) + StoredSizes(p, l) + StoredFeatures(p, l) + StoredRest(p, l);
    var s := StoredSuper(p, l);
    assert s[..1020] == f;
    assert s[1020..1024] == Enc32(Num(SuperChecksum(s)));
    Enc32Reads(s, 1020, Num(SuperChecksum(s)));
  }

  lemma SuperCounts(p: Superblock, l: Label)
    requires |l.uuid| == 16
    ensures var s := StoredSuper(p, l);
            && Le32(s, 0) == p.inodeCount && Le32(s, 4) == p.blockCount % 0x1_0000_0000
            && Le32(s, 12) == p.freeBlocks % 0x1_0000_0000 && Le32(s, 16) == p.freeInodes && Le32(s, 24) == l.log
            && Le32(s, 32) == p.blocksPerGroup && Le32(s, 40) == p.inodesPerGroup && Le16(s, 56) == 0xEF53
  {
    hide StoredCounts, StoredSizes, StoredFeatures, StoredRest, StoredSuper, Le32, Le16, SuperChecksum, Num;
    var s, t, u := StoredSuper(p, l), StoredCounts(p), StoredSizes(p, l);
    SuperParts(p, l);
    CountsRead(p);
    SizesRead(p, l);
    PartReads(s, 0, t, 0);
    PartReads(s, 0, t, 4);
    PartReads(s, 0, t, 12);
    PartReads(s, 0, t, 16);
    PartReads(s, 24, u, 0);
    PartReads(s, 24, u, 8);
    PartReads(s, 24, u, 16);
    PartReads(s, 24, u, 32);
  }

  lemma SuperFeatures(p: Superblock, l: Label)
    requires |l.uuid| == 16
    ensures var s := StoredSuper(p, l);
            && Le16(s, 88) == p.inodeSize && s[104..120] == l.uuid
            && Flag(Le32(s, 96), 7) == p.is64bit && Flag(Le32(s, 96), 6) == p.hasExtents
            && Flag(Le32(s, 96), 13) == l.storesSeed && Flag(Le32(s, 92), 2) == p.hasJournal
            && Flag(Le32(s, 100), 10) == p.metadataCsum
  {
    hide StoredCounts, StoredSizes, StoredFeatures, StoredRest, StoredSuper, Mask, Flag, Le32, Le16, SuperChecksum, Num;
    var s, t := StoredSuper(p, l), StoredFeatures(p, l);
    SuperParts(p, l);
    FeaturesRead(p, l);
    FlagsRead(p, l);
    PartReads(s, 58, t, 30);
    PartReads(s, 58, t, 34);
    PartReads(s, 58, t, 38);
    PartReads(s, 58, t, 42);
    SliceOfSlice(s, 58, 120, 46, 62);
  }

  lemma SuperHighs(p: Superblock, l: Label)
    requires |l.uuid| == 16
    ensures var s := StoredSuper(p, l);
            && Le16(s, 254) == (if p.is64bit then p.descSize else l.stale)
            && Le32(s, 268) == (if l.storesSeed then p.csumSeed else l.stale)
            && Le32(s, 336) == (if p.is64bit then p.blockCount / 0x1_0000_0000 else l.stale)
            && Le32(s, 340) == (if p.is64bit then p.freeBlocks / 0x1_0000_0000 else l.stale)
  {
    hide StoredCounts, StoredSizes, StoredFeatures, StoredRest, StoredSuper, Le32, Le16, SuperChecksum, Num;
    var s, t := StoredSuper(p, l), StoredRest(p, l);
    SuperParts(p, l);
    RestRead(p, l);
    PartReads(s, 120, t, 134);
    PartReads(s, 120, t, 148);
    PartReads(s, 120, t, 216);
    PartReads(s, 120, t, 220);
  }

  /** Any consistent superblock, written out, is read back as it is: sizes, feature bits, high halves, the number of
      groups with a last partial one, and the checksum seed, stored or made from the identifier. */
  lemma SuperDecoded(p: Superblock, l: Label)
    requires Consistent(p, l)
    ensures ParseSuper(StoredSuper(p, l)) == Ok(p)
  {
    hide StoredSuper, Mask, Le32, Le16, Flag, BlockSize, SuperChecksum, Num, Crc32c.Raw, Consistent, Wide64, Groups;
    Agreed(p, l);
    SuperParts(p, l);
    SuperCounts(p, l);
    SuperFeatures(p, l);
    SuperHighs(p, l);
    WideRead(p, l);
  }

  lemma WideRead(p: Superblock, l: Label)
    requires |l.uuid| == 16 && (p.is64bit || (p.blockCount < 0x1_0000_0000 && p.freeBlocks < 0x1_0000_0000))
    ensures Wide64(StoredSuper(p, l), 4, 336, p.is64bit) == p.blockCount
    ensures Wide64(StoredSuper(p, l), 12, 340, p.is64bit) == p.freeBlocks
  {
    hide StoredSuper, Le32, Le16;
    SuperCounts(p, l);
    SuperHighs(p, l);
  }

  lemma Agreed(p: Superblock, l: Label)
    requires Consistent(p, l)
    ensures |l.uuid| == 16 && p.blockSize == BlockSize(l.log) && p.blocksPerGroup != 0
    ensures Groups(p.blockCount, p.blocksPerGroup) == p.numGroups
    ensures if p.is64bit then 0 < p.descSize
            else p.descSize == 32 && p.blockCount < 0x1_0000_0000 && p.freeBlocks < 0x1_0000_0000
    ensures p.csumSeed == if !p.metadataCsum then 0 else if l.storesSeed then p.csumSeed
                          else Num(Crc(l.uuid, 0xFFFF_FFFF))
  {
    hide Num, Crc32c.Raw, BlockSize;
    SizeOf(l.log);
    RoundUp(p.blockCount, p.blocksPerGroup, p.numGroups);
  }

  /** What is accepted: the magic, some blocks per group and, with checksums, the right one. */
  lemma SuperAccepted(s: seq<byte>)
    requires |s| == 1024
    ensures ParseSuper(s).Ok? <==>
            && s[56] == 0x53 && s[57] == 0xEF && s[32..36] != [0, 0, 0, 0]
            && (s[101] / 4 % 2 == 1 ==> s[1020..1024] == Enc32(Num(Crc32c.Raw(s[..1020], 0xFFFF_FFFF) ^ 0xFFFF_FFFF)))
  {
    hide Num, Crc32c.Raw, Le16, Le32, Flag, Enc32, BlockSize, Wide64;
    var w := SuperChecksum(s);
    StoredExactly(s, 1020, Num(w));
    ZeroExactly(s, 32);
    FlagByte(s);
    MagicExactly(s);
  }

  lemma StoredExactly(s: seq<byte>, o: nat, x: u32)
    requires o + 4 <= |s|
    ensures Le32(s, o) == x <==> s[o..o + 4] == Enc32(x)
  {
    assert s[o..o + 4] == [s[o], s[o + 1], s[o + 2], s[o + 3]];
    if Le32(s, o) == x {
      Digits(s[o], s[o + 1], s[o + 2], s[o + 3], x);
    } else if s[o..o + 4] == Enc32(x) {
      Enc32Reads(s, o, x);
    }
  }

  lemma Digits(a: byte, b: byte, c: byte, d: byte, x: u32)
    requires x == a + 0x100 * b + 0x1_0000 * c + 0x100_0000 * d
    ensures Enc32(x) == [a, b, c, d]
  {
    var y := b + 0x100 * c + 0x1_0000 * d;
    assert x == a + 0x100 * y && x % 0x100 == a && x / 0x100 == y;
    var z := c + 0x100 * d;
    assert y == b + 0x100 * z && y % 0x100 == b && y / 0x100 == z;
    assert z % 0x100 == c && z / 0x100 == d;
  }

  /** Opening counts the groups that hold all blocks, and no more, whenever their number fits 32 bits. */
  lemma GroupsHoldAll(s: seq<byte>, p: Superblock)
    requires ParseSuper(s) == Ok(p) && 0 < p.blockCount <= 0xFFFF_FFFF * p.blocksPerGroup
    ensures (p.numGroups - 1) * p.blocksPerGroup < p.blockCount <= p.numGroups * p.blocksPerGroup
  {
    hide Le32, Le16, Flag, BlockSize, SuperChecksum, Num, Crc, Groups, Wide64;
    RoundedUp(p.blockCount, p.blocksPerGroup);
  }

  lemma RoundedUp(count: u64, per: u32)
    requires 0 < per && 0 < count <= 0xFFFF_FFFF * per
    ensures var n := Groups(count, per); (n - 1) * per < count <= n * per
  {
    hide Groups;
    var n, r := Division(count + per - 1, per);
    OneLess(n, per);
    if n > 0xFFFF_FFFF { Grows(0x1_0000_0000, n, per); }
    GroupsSmall(count, per, n);
  }

  lemma Division(x: nat, per: nat) returns (n: nat, r: nat)
    requires 0 < per
    ensures n == x / per && r < per && x == n * per + r
  {
    n, r := x / per, x % per;
  }

  lemma GroupsSmall(count: u64, per: u32, n: nat)
    requires 0 < per && n == (count + per - 1) / per && n <= 0xFFFF_FFFF
    ensures Groups(count, per) == n
  {
  }

  lemma OneLess(n: int, per: int)
    ensures (n - 1) * per == n * per - per
  {
  }

  lemma Grows(a: nat, b: nat, per: nat)
    requires a <= b
    ensures a * per <= b * per
  {
  }

  lemma ZeroExactly(s: seq<byte>, o: nat)
    requires o + 4 <= |s|
    ensures Le32(s, o) == 0 <==> s[o..o + 4] == [0, 0, 0, 0]
  {
    assert s[o..o + 4] == [s[o], s[o + 1], s[o + 2], s[o + 3]];
  }

  lemma FlagByte(s: seq<byte>)
    requires |s| == 1024
    ensures Flag(Le32(s, 100), 10) <==> s[101] / 4 % 2 == 1
  {
    hide Pow2;
    Ten();
    var y: int := s[101] + 0x100 * (s[102] as int) + 0x1_0000 * (s[103] as int);
    assert Le32(s, 100) == s[100] + 0x100 * y && Le32(s, 100) / 0x400 == y / 4;
    assert y / 4 == s[101] / 4 + 0x40 * (s[102] as int) + 0x4000 * (s[103] as int);
  }

  lemma Ten()
    ensures Pow2(10) == 0x400
  {
    assert Pow2(8) == 0x100;
  }

  lemma MagicExactly(s: seq<byte>)
    requires |s| == 1024
    ensures Le16(s, 56) == 0xEF53 <==> s[56] == 0x53 && s[57] == 0xEF
  {
  }

  // ---- group descriptors ----

  /** The first 32 bytes of a descriptor; `other` are those from 16 to 32. */
  function StoredLow(gd: GroupDesc, other: seq<byte>): (s: seq<byte>)
    requires |other| == 16
    ensures |s| == 32
  {
    Enc32(gd.blockBitmap % 0x1_0000_0000) + Enc32(gd.inodeBitmap % 0x1_0000_0000)
    + Enc32(gd.inodeTable % 0x1_0000_0000)
    + Enc16(gd.freeBlocks % 0x1_0000) + Enc16(gd.freeInodes % 0x1_0000) + other
  }

  /** The bytes of a wide descriptor from 32 to 48: the high halves. */
  function StoredHigh(gd: GroupDesc): (s: seq<byte>)
    requires InU64(gd)
    ensures |s| == 16
  {
    Enc32(gd.blockBitmap / 0x1_0000_0000) + Enc32(gd.inodeBitmap / 0x1_0000_0000)
    + Enc32(gd.inodeTable / 0x1_0000_0000)
    + Enc16(gd.freeBlocks / 0x1_0000) + Enc16(gd.freeInodes / 0x1_0000)
  }

  predicate InU64(gd: GroupDesc) {
    && gd.blockBitmap < 0x1_0000_0000_0000_0000 && gd.inodeBitmap < 0x1_0000_0000_0000_0000
    && gd.inodeTable < 0x1_0000_0000_0000_0000
  }

  /** The parts that fit the low halves. */
  function LowHalves(gd: GroupDesc): GroupDesc {
    GroupDesc(gd.blockBitmap % 0x1_0000_0000, gd.inodeBitmap % 0x1_0000_0000, gd.inodeTable % 0x1_0000_0000,
              gd.freeBlocks % 0x1_0000, gd.freeInodes % 0x1_0000)
  }

  lemma LowRead(gd: GroupDesc, other: seq<byte>)
    requires |other| == 16
    ensures var s := StoredLow(gd, other);
            && Le32(s, 0) == gd.blockBitmap % 0x1_0000_0000 && Le32(s, 4) == gd.inodeBitmap % 0x1_0000_0000
            && Le32(s, 8) == gd.inodeTable % 0x1_0000_0000 && Le16(s, 12) == gd.freeBlocks % 0x1_0000
            && Le16(s, 14) == gd.freeInodes % 0x1_0000
  {
    hide Enc32, Enc16, Le32, Le16;
    var s := StoredLow(gd, other);
    Reads32(s, 0, gd.blockBitmap % 0x1_0000_0000);
    Reads32(s, 4, gd.inodeBitmap % 0x1_0000_0000);
    Reads32(s, 8, gd.inodeTable % 0x1_0000_0000);
    Reads16(s, 12, gd.freeBlocks % 0x1_0000);
    Reads16(s, 14, gd.freeInodes % 0x1_0000);
  }

  lemma HighRead(gd: GroupDesc)
    requires InU64(gd)
    ensures var s := StoredHigh(gd);
            && Le32(s, 0) == gd.blockBitmap / 0x1_0000_0000 && Le32(s, 4) == gd.inodeBitmap / 0x1_0000_0000
            && Le32(s, 8) == gd.inodeTable / 0x1_0000_0000 && Le16(s, 12) == gd.freeBlocks / 0x1_0000
            && Le16(s, 14) == gd.freeInodes / 0x1_0000
  {
    hide Enc32, Enc16, Le32, Le16;
    var s := StoredHigh(gd);
    Reads32(s, 0, gd.blockBitmap / 0x1_0000_0000);
    Reads32(s, 4, gd.inodeBitmap / 0x1_0000_0000);
    Reads32(s, 8, gd.inodeTable / 0x1_0000_0000);
    Reads16(s, 12, gd.freeBlocks / 0x1_0000);
    Reads16(s, 14, gd.freeInodes / 0x1_0000);
  }

  /** Any descriptor, written out, is read back as it is: in full if the file system is 64-bit and the descriptor has 64
      bytes, and else its low halves, whatever comes behind them. */
  lemma DescDecoded(gd: GroupDesc, other: seq<byte>, more: seq<byte>)
    requires InU64(gd) && |other| == 16
    ensures |more| >= 16 ==> ParseDesc(StoredLow(gd, other) + StoredHigh(gd) + more, true) == gd
    ensures |more| < 32 ==> ParseDesc(StoredLow(gd, other) + more, true) == LowHalves(gd)
    ensures ParseDesc(StoredLow(gd, other) + more, false) == LowHalves(gd)
  {
    hide StoredLow, StoredHigh, Le32, Le16;
    var low, high := StoredLow(gd, other), StoredHigh(gd);
    LowRead(gd, other);
    HighRead(gd);
    LowIn(low, high + more);
    assert low + high + more == low + (high + more);
    LowIn(low, more);
    if |more| >= 16 { HighIn(low, high, more); }
  }

  lemma LowIn(low: seq<byte>, rest: seq<byte>)
    requires |low| == 32
    ensures var s := low + rest;
            && Le32(s, 0) == Le32(low, 0) && Le32(s, 4) == Le32(low, 4) && Le32(s, 8) == Le32(low, 8)
            && Le16(s, 12) == Le16(low, 12) && Le16(s, 14) == Le16(low, 14)
  {
  }

  lemma HighIn(low: seq<byte>, high: seq<byte>, rest: seq<byte>)
    requires |low| == 32 && |high| == 16
    ensures var s := low + high + rest;
            && Le32(s, 32) == Le32(high, 0) && Le32(s, 36) == Le32(high, 4) && Le32(s, 40) == Le32(high, 8)
            && Le16(s, 44) == Le16(high, 12) && Le16(s, 46) == Le16(high, 14)
  {
  }

  // ---- inodes ----

  /** An inode slot from its fields, with anything in the gaps: owner and times, and what lies around the root. */
  function StoredInode(n: Inode, low: u32, high: u32, gaps: (seq<byte>, seq<byte>, seq<byte>),
                       rest: seq<byte>): seq<byte>
    requires |gaps.0| == 20 && |gaps.1| == |gaps.2| == 4 && |n.iBlock| == 60
  {
    Enc16(n.mode) + [0, 0] + Enc32(low) + gaps.0 + Enc32(n.blocks) + Enc32(n.flags) + gaps.1 + n.iBlock
    + Enc32(n.generation) + gaps.2 + Enc32(high) + rest
  }

  /** Any slot, written out, is decoded as it is. The high half of the size counts for regular files alone. */
  lemma InodeDecoded(n: Inode, low: u32, high: u32, gaps: (seq<byte>, seq<byte>, seq<byte>), rest: seq<byte>)
    requires |gaps.0| == 20 && |gaps.1| == |gaps.2| == 4 && |n.iBlock| == 60 && 16 <= |rest|
    ensures var s := StoredInode(n, low, high, gaps, rest);
            ParseInode(s, n.ino)
            == n.(raw := s, size := if 0x8000 <= n.mode < 0x9000 then 0x1_0000_0000 * high + low else low)
  {
    hide Enc16, Enc32, Le16, Le32;
    var s := StoredInode(n, low, high, gaps, rest);
    Reads16(s, 0, n.mode);
    Reads32(s, 4, low);
    Reads32(s, 28, n.blocks);
    Reads32(s, 32, n.flags);
    Reads32(s, 100, n.generation);
    Reads32(s, 108, high);
    assert s[40..100] == n.iBlock;
  }

  // ---- what the checksums cover ----

  /** An inode's checksum is the CRC of its number, its generation and its slot with the two checksum fields zero. */
  lemma InodeCovers(seed: u32, ino: u32, raw: seq<byte>)
    requires |raw| == 128 || 132 < |raw|
    ensures var zeroed := if |raw| == 128 then Put(raw, 124, [0, 0]) else Put(Put(raw, 124, [0, 0]), 130, [0, 0]);
            InodeChecksum(seed, ino, Le32(raw, 100), raw, |raw|)
            == Crc32c.Raw(Enc32(ino) + Enc32(Le32(raw, 100)) + zeroed, seed as bv32)
  {
    hide Crc32c.Raw, Enc32, Le32;
    var zeroed := if |raw| == 128 then Put(raw, 124, [0, 0]) else Put(Put(raw, 124, [0, 0]), 130, [0, 0]);
    var head := Enc32(ino) + Enc32(Le32(raw, 100));
    var w := seed as bv32;
    Crc32c.RawChains(Enc32(ino), Enc32(Le32(raw, 100)), w);
    var a := raw[..124] + [0, 0] + raw[126..128];
    ChainThree(raw[..124], [0, 0], raw[126..128], Crc32c.Raw(head, w));
    if |raw| == 128 {
      assert a == zeroed;
    } else {
      var b := raw[128..130] + [0, 0] + raw[132..];
      assert raw[132..|raw|] == raw[132..];
      ChainThree(raw[128..130], [0, 0], raw[132..], Crc32c.Raw(a, Crc32c.Raw(head, w)));
      Crc32c.RawChains(a, b, Crc32c.Raw(head, w));
      assert a + b == zeroed;
    }
    Crc32c.RawChains(head, zeroed, w);
  }

  lemma ChainThree(a: seq<byte>, b: seq<byte>, c: seq<byte>, init: bv32)
    ensures Crc32c.Raw(a + b + c, init) == Crc32c.Raw(c, Crc32c.Raw(b, Crc32c.Raw(a, init)))
  {
    hide Crc32c.Raw;
    Crc32c.RawChains(a, b, init);
    Crc32c.RawChains(a + b, c, init);
  }

  /** That of a directory block covers the directory's number, its generation and all but the last twelve bytes. */
  lemma DirCovers(seed: u32, ino: u32, generation: u32, block: seq<byte>)
    requires 12 <= |block|
    ensures DirChecksum(seed, ino, generation, block, |block|)
            == Crc32c.Raw(Enc32(ino) + Enc32(generation) + block[..|block| - 12], seed as bv32)
  {
    hide Crc32c.Raw, Enc32;
    Crc32c.RawChains(Enc32(ino), Enc32(generation), seed as bv32);
    Crc32c.RawChains(Enc32(ino) + Enc32(generation), block[..|block| - 12], seed as bv32);
  }

  /** That of a descriptor is the low half of the CRC of the group's number and the descriptor with the field zero. */
  lemma DescCovers(seed: u32, group: u32, gd: seq<byte>)
    requires 32 <= |gd|
    ensures DescMatches(seed, group, gd) <==>
            Le16(gd, 30) == Crc32c.Raw(Enc32(group) + Put(gd, 30, [0, 0]), seed as bv32) as u32 % 0x1_0000
  {
    hide Crc32c.Raw, Enc32, Le16;
    var zeroed := Put(gd, 30, [0, 0]);
    var head := Enc32(group) + zeroed[..30];
    var w := seed as bv32;
    Crc32c.RawChains(Enc32(group), zeroed[..30], w);
    Crc32c.RawChains(head, [0, 0], w);
    if |gd| > 32 {
      Crc32c.RawChains(head + [0, 0], zeroed[32..], w);
      assert head + [0, 0] + zeroed[32..] == Enc32(group) + zeroed;
    } else {
      assert head + [0, 0] == Enc32(group) + zeroed;
    }
  }
}
