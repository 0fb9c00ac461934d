/** The inode of a freshly created file. */
module NewInode {
  import opened Bytes
  import opened Disk
  import opened Inode
  import opened Extents

  const REGULAR_MODE: u16 := 0x81A4
  const EXTENTS_FLAG: u32 := 0x8_0000

  /** The root of the new file's extent tree: one extent of one block, or none. */
  function NewRoot(hasExtents: bool, block: Option<u32>): (r: seq<byte>)
    ensures |r| == 60
  {
    if hasExtents then
      Enc16(EXTENT_MAGIC) + Enc16(if block.Some? then 1 else 0) + Enc16(4) + Enc16(0) + Zeros(4)
      + (if block.Some? then Enc32(0) + Enc16(1) + Enc16(0) + Enc32(block.value) else Zeros(12)) + Zeros(36)
    else if block.Some? then Enc32(block.value) + Zeros(56)
    else Zeros(60)
  }

  /** The slot of a new regular file. Block numbers on a card of 2^32 sectors fit in 32 bits. */
  function NewInodeRaw(g: Geo, ino: u32, block: Option<u32>, size: u32, now: u32): (r: seq<byte>)
    requires 128 <= g.inodeSize && 0 <= g.blockSize / 512 < 0x1_0000_0000
    ensures |r| == g.inodeSize
  {
    NewHead(g, block, size, now) + NewRoot(g.hasExtents, block) + Enc32(ino) + Zeros(24)
    + (if g.inodeSize > 130 then Enc16(32) + Zeros(g.inodeSize - 130) else Zeros(g.inodeSize - 128))
  }

  function NewHead(g: Geo, block: Option<u32>, size: u32, now: u32): (r: seq<byte>)
    requires 0 <= g.blockSize / 512 < 0x1_0000_0000
    ensures |r| == 40
  {
    Enc16(REGULAR_MODE) + Zeros(2) + Enc32(size) + Enc32(now) + Enc32(now) + Enc32(now) + Zeros(4) + Zeros(2) + Enc16(1)
    + Enc32(if block.Some? then g.blockSize / 512 else 0) + Enc32(if g.hasExtents then EXTENTS_FLAG else 0) + Zeros(4)
  }

  /** The fields of a new regular file's slot, by their offsets: mode 0644, one link, the three times, no deletion time,
      sectors, flags, the root with room for four extents, generation, and in larger slots the size of the extra
      part. */
  predicate FreshSlot(s: seq<byte>, hasExtents: bool, blockSize: nat, ino: u32, block: Option<u32>, size: nat,
                      now: u32)
  {
    && 128 <= |s|
    && Le16(s, 0) == 0x81A4 && Le16(s, 2) == 0 && Le32(s, 4) == size
    && Le32(s, 8) == now && Le32(s, 12) == now && Le32(s, 16) == now && Le32(s, 20) == 0
    && Le16(s, 24) == 0 && Le16(s, 26) == 1
    && Le32(s, 28) == (if block.Some? then blockSize / 512 else 0)
    && Le32(s, 32) == (if hasExtents then 0x8_0000 else 0)
    && (if hasExtents then FreshRoot(s, block) else Le32(s, 40) == if block.Some? then block.value else 0)
    && Le32(s, 100) == ino && Le32(s, 108) == 0
    && (130 < |s| ==> Le16(s, 128) == 32)
  }

  predicate FreshRoot(s: seq<byte>, block: Option<u32>)
    requires 128 <= |s|
  {
    && Le16(s, 40) == 0xF30A && Le16(s, 42) == (if block.Some? then 1 else 0) && Le16(s, 44) == 4 && Le16(s, 46) == 0
    && (block.Some? ==> Le32(s, 52) == 0 && Le16(s, 56) == 1 && Le16(s, 58) == 0 && Le32(s, 60) == block.value)
  }

  /** What the inode says, as it is stored and once parsed. */
  ghost predicate IsNew(n: Inode, g: Geo, block: Option<u32>, size: nat, now: u32) {
    && n.IsRegular() && n.size == size && n.HasExtents() == g.hasExtents && n.iBlock == NewRoot(g.hasExtents, block)
    && FreshSlot(n.raw, g.hasExtents, g.blockSize, n.ino, block, size, now)
  }

  /** Two slots agree in all fields that lie before the checksum. */
  lemma SameFields(s: seq<byte>, t: seq<byte>, o: nat)
    requires o + 4 <= 124 <= |s| && 124 <= |t| && s[..124] == t[..124]
    ensures Le32(s, o) == Le32(t, o) && Le16(s, o) == Le16(t, o)
  {
    assert s[o] == s[..124][o] == t[..124][o] == t[o] && s[o + 1] == s[..124][o + 1] == t[..124][o + 1] == t[o + 1];
    assert s[o + 2] == s[..124][o + 2] == t[..124][o + 2] == t[o + 2];
    assert s[o + 3] == s[..124][o + 3] == t[..124][o + 3] == t[o + 3];
  }

  lemma FreshSame(s: seq<byte>, t: seq<byte>, hasExtents: bool, blockSize: nat, ino: u32, block: Option<u32>, size: nat,
                  now: u32)
    requires FreshSlot(s, hasExtents, blockSize, ino, block, size, now)
    requires |t| == |s| && t[..124] == s[..124] && (130 < |s| ==> t[128..130] == s[128..130])
    ensures FreshSlot(t, hasExtents, blockSize, ino, block, size, now)
  {
    hide Le16, Le32;
    forall o: nat | o + 4 <= 124 ensures Le32(t, o) == Le32(s, o) && Le16(t, o) == Le16(s, o) { SameFields(s, t, o); }
    if 130 < |s| { SameWord(s, t, 128); }
  }

  lemma SameWord(s: seq<byte>, t: seq<byte>, o: nat)
    requires o + 2 <= |s| && o + 2 <= |t| && t[o..o + 2] == s[o..o + 2]
    ensures Le16(t, o) == Le16(s, o)
  {
    assert s[o] == s[o..o + 2][0] && s[o + 1] == s[o..o + 2][1] && t[o] == t[o..o + 2][0] && t[o + 1] == t[o..o + 2][1];
  }

  /** The slot as it is built has these fields. */
  lemma NewSlot(g: Geo, ino: u32, block: Option<u32>, size: u32, now: u32)
    requires 128 <= g.inodeSize && 0 <= g.blockSize / 512 < 0x1_0000_0000
    ensures FreshSlot(NewInodeRaw(g, ino, block, size, now), g.hasExtents, g.blockSize, ino, block, size, now)
  {
    hide Enc16, Enc32, Le16, Le32, NewHead, NewRoot, FreshRoot;
    var raw, h := NewInodeRaw(g, ino, block, size, now), NewHead(g, block, size, now);
    var root := NewRoot(g.hasExtents, block);
    assert raw[..40] == h && raw[40..100] == root;
    NewHeadFields(g, block, size, now);
    HeadFields(raw, h);
    NewTail(g, ino, block, size, now);
    NewRootFields(raw, g.hasExtents, block);
  }

  lemma HeadFields(raw: seq<byte>, h: seq<byte>)
    requires 40 == |h| <= |raw| && raw[..40] == h
    ensures forall o: nat :: o + 4 <= 40 ==> Le32(raw, o) == Le32(h, o) && Le16(raw, o) == Le16(h, o)
  {
    forall o: nat | o + 4 <= 40 ensures Le32(raw, o) == Le32(h, o) && Le16(raw, o) == Le16(h, o) {
      assert raw[o] == h[o] && raw[o + 1] == h[o + 1] && raw[o + 2] == h[o + 2] && raw[o + 3] == h[o + 3];
    }
  }

  lemma NewTail(g: Geo, ino: u32, block: Option<u32>, size: u32, now: u32)
    requires 128 <= g.inodeSize && 0 <= g.blockSize / 512 < 0x1_0000_0000
    ensures var raw := NewInodeRaw(g, ino, block, size, now);
            Le32(raw, 100) == ino && Le32(raw, 108) == 0 && (130 < |raw| ==> Le16(raw, 128) == 32)
  {
    hide Enc16, Enc32, Le16, Le32, NewHead, NewRoot;
    var raw := NewInodeRaw(g, ino, block, size, now);
    assert raw[100..104] == Enc32(ino);
    Enc32Reads(raw, 100, ino);
    HighSizeZero(g, ino, block, size, now);
    if 130 < |raw| {
      assert raw[128..130] == Enc16(32);
      Enc16Reads(raw, 128, 32);
    }
  }

  lemma NewRootFields(raw: seq<byte>, hasExtents: bool, block: Option<u32>)
    requires 128 <= |raw| && raw[40..100] == NewRoot(hasExtents, block)
    ensures if hasExtents then FreshRoot(raw, block) else Le32(raw, 40) == if block.Some? then block.value else 0
  {
    hide Enc16, Enc32, Le16, Le32;
    var r := NewRoot(hasExtents, block);
    forall a: nat, b: nat | a <= b <= 60 ensures raw[40 + a..40 + b] == r[a..b] { SliceOfSlice(raw, 40, 100, a, b); }
    if hasExtents {
      var n: u16 := if block.Some? then 1 else 0;
      assert r[0..2] == Enc16(0xF30A) && r[2..4] == Enc16(n) && r[4..6] == Enc16(4) && r[6..8] == Enc16(0);
      assert raw[40 + 0..40 + 2] == r[0..2] && raw[40 + 2..40 + 4] == r[2..4];
      assert raw[40 + 4..40 + 6] == r[4..6] && raw[40 + 6..40 + 8] == r[6..8];
      Enc16Reads(raw, 40, 0xF30A);
      Enc16Reads(raw, 42, n);
      Enc16Reads(raw, 44, 4);
      Enc16Reads(raw, 46, 0);
      if block.Some? { NewExtentFields(raw, r, block.value); }
    } else {
      var p: u32 := if block.Some? then block.value else 0;
      if block.None? { ZeroWord(); }
      assert r[0..4] == Enc32(p);
      assert raw[40 + 0..40 + 4] == r[0..4];
      Enc32Reads(raw, 40, p);
    }
  }

  lemma ZeroWord()
    ensures Zeros(60)[0..4] == Enc32(0)
  {
  }

  lemma NewExtentFields(raw: seq<byte>, r: seq<byte>, block: u32)
    requires 128 <= |raw| && r == NewRoot(true, Some(block)) && raw[40..100] == r
    ensures Le32(raw, 52) == 0 && Le16(raw, 56) == 1 && Le16(raw, 58) == 0 && Le32(raw, 60) == block
  {
    hide Enc16, Enc32, Le16, Le32;
    assert r[12..16] == Enc32(0) && r[16..18] == Enc16(1) && r[18..20] == Enc16(0) && r[20..24] == Enc32(block);
    SliceOfSlice(raw, 40, 100, 12, 16);
    SliceOfSlice(raw, 40, 100, 16, 18);
    SliceOfSlice(raw, 40, 100, 18, 20);
    SliceOfSlice(raw, 40, 100, 20, 24);
    Enc32Reads(raw, 52, 0);
    Enc16Reads(raw, 56, 1);
    Enc16Reads(raw, 58, 0);
    Enc32Reads(raw, 60, block);
  }

  lemma NewHeadFields(g: Geo, block: Option<u32>, size: u32, now: u32)
    requires 0 <= g.blockSize / 512 < 0x1_0000_0000
    ensures var h := NewHead(g, block, size, now);
            && Le16(h, 0) == 0x81A4 && Le16(h, 2) == 0 && Le32(h, 4) == size
            && Le32(h, 8) == now && Le32(h, 12) == now && Le32(h, 16) == now && Le32(h, 20) == 0
            && Le16(h, 24) == 0 && Le16(h, 26) == 1
            && Le32(h, 28) == (if block.Some? then g.blockSize / 512 else 0)
            && Le32(h, 32) == (if g.hasExtents then 0x8_0000 else 0)
  {
    hide Enc16, Enc32, Le16, Le32;
    var h := NewHead(g, block, size, now);
    var sectors: u32, flags: u32 := if block.Some? then g.blockSize / 512 else 0, if g.hasExtents then 0x8_0000 else 0;
    assert h[0..2] == Enc16(0x81A4) && h[4..8] == Enc32(size) && h[26..28] == Enc16(1);
    assert h[8..12] == Enc32(now) && h[12..16] == Enc32(now) && h[16..20] == Enc32(now);
    assert h[28..32] == Enc32(sectors) && h[32..36] == Enc32(flags);
    Enc16Reads(h, 0, 0x81A4);
    Enc32Reads(h, 4, size);
    Enc32Reads(h, 8, now);
    Enc32Reads(h, 12, now);
    Enc32Reads(h, 16, now);
    Enc16Reads(h, 26, 1);
    Enc32Reads(h, 28, sectors);
    Enc32Reads(h, 32, flags);
    NewHeadZeros(h, g, block, size, now);
  }

  lemma NewHeadZeros(h: seq<byte>, g: Geo, block: Option<u32>, size: u32, now: u32)
    requires 0 <= g.blockSize / 512 < 0x1_0000_0000 && h == NewHead(g, block, size, now)
    ensures Le16(h, 2) == 0 && Le32(h, 20) == 0 && Le16(h, 24) == 0
  {
    hide Enc16, Enc32;
  }

  lemma NewParsed(g: Geo, ino: u32, block: Option<u32>, size: u32, now: u32)
    requires 128 <= g.inodeSize && 0 <= g.blockSize / 512 < 0x1_0000_0000
    ensures IsNew(ParseInode(NewInodeRaw(g, ino, block, size, now), ino), g, block, size, now)
  {
    hide Enc16, Enc32, Le16, Le32, NewHead, NewRoot, FreshRoot;
    NewSlot(g, ino, block, size, now);
    assert NewInodeRaw(g, ino, block, size, now)[40..100] == NewRoot(g.hasExtents, block);
  }

  lemma HighSizeZero(g: Geo, ino: u32, block: Option<u32>, size: u32, now: u32)
    requires 128 <= g.inodeSize && 0 <= g.blockSize / 512 < 0x1_0000_0000
    ensures Le32(NewInodeRaw(g, ino, block, size, now), 108) == 0
  {
    hide Enc16, Enc32, NewHead, NewRoot;
  }

  /** The root decodes to the one block, or to no block at all. */
  lemma NewTree(d: Disk, block: Option<u32>)
    ensures TreeAt(d, NewRoot(true, block), true, Leaf(if block.Some? then [Extent(0, 1, block.value)] else []))
  {
    hide Enc16, Enc32, Le16, Le32;
    var r := NewRoot(true, block);
    var n: u16 := if block.Some? then 1 else 0;
    assert r[0..2] == Enc16(EXTENT_MAGIC) && r[2..4] == Enc16(n) && r[6..8] == Enc16(0);
    Enc16Reads(r, 0, EXTENT_MAGIC);
    Enc16Reads(r, 2, n);
    Enc16Reads(r, 6, 0);
    if block.Some? {
      assert r[12..16] == Enc32(0) && r[16..18] == Enc16(1) && r[18..20] == Enc16(0) && r[20..24] == Enc32(block.value);
      Enc32Reads(r, 12, 0);
      Enc16Reads(r, 16, 1);
      Enc16Reads(r, 18, 0);
      Enc32Reads(r, 20, block.value);
      assert ExtentAt(r, 12) == Extent(0, 1, block.value);
      assert NodeBody(r).extents == [Extent(0, 1, block.value)];
    } else {
      assert NodeBody(r).extents == [];
    }
  }
}
