/** The checksummed records of the disk: superblock, group descriptors, inodes, directory tails. */
module Metadata {
  import opened Bytes
  import Crc32c

  type word = Crc32c.word

  function Word(x: u32): word { x as word }
  function Num(w: word): u32 { w as int }
  function Lo16(w: word): u16 { Num(w) % 0x1_0000 }
  function Hi16(w: word): u16 { Num(w) / 0x1_0000 }

  function Crc(data: seq<byte>, init: word): word { Crc32c.Raw(data, init) }

  // ---- inodes ----

  function InodeChecksum(seed: u32, ino: u32, generation: u32, raw: seq<byte>, inodeSize: nat): word
    requires 128 <= |raw|
  {
    var c := Crc(Enc32(generation), Crc(Enc32(ino), Word(seed)));
    var c := Crc(raw[126..128], Crc([0, 0], Crc(raw[..124], c)));
    var end := Min(inodeSize, |raw|);
    if inodeSize > 128 && |raw| > 128 then
      if end > 132 then Crc(raw[132..end], Crc([0, 0], Crc(raw[128..130], c)))
      else Crc(raw[128..end], c)
    else c
  }

  /** The slot with its checksum fields filled in, as `write_inode_raw` does. */
  function SealInode(csum: bool, seed: u32, ino: u32, raw: seq<byte>, inodeSize: nat): (r: seq<byte>)
    requires 128 <= |raw|
    ensures |r| == |raw|
  {
    if !csum then raw
    else
      var c := InodeChecksum(seed, ino, Le32(raw, 100), raw, inodeSize);
      var low := Put(raw, 124, Enc16(Lo16(c)));
      if inodeSize > 128 && |raw| > 132 then Put(low, 130, Enc16(Hi16(c))) else low
  }

  /** The reader's test on an inode. */
  predicate InodeMatches(seed: u32, ino: u32, raw: seq<byte>, inodeSize: nat)
    requires 128 <= |raw|
  {
    var stored := Le16(raw, 124) + if inodeSize > 128 && |raw| > 132 then 0x1_0000 * Le16(raw, 130) else 0;
    stored == Num(InodeChecksum(seed, ino, Le32(raw, 100), raw, inodeSize))
  }

  lemma ChecksumIgnoresFields(seed: u32, ino: u32, generation: u32, raw: seq<byte>, raw': seq<byte>, inodeSize: nat)
    requires 128 <= |raw| == |raw'| == inodeSize
    requires raw[..124] == raw'[..124]
    requires raw[126..128] == raw'[126..128]
    requires |raw| <= 132 ==> raw[126..] == raw'[126..]
    requires |raw| > 132 ==> raw[128..130] == raw'[128..130] && raw[132..] == raw'[132..]
    ensures InodeChecksum(seed, ino, generation, raw, inodeSize)
            == InodeChecksum(seed, ino, generation, raw', inodeSize)
  {
    hide Crc, Word, Enc32;
    if |raw| > 132 {
      assert raw[132..|raw|] == raw[132..] && raw'[132..|raw|] == raw'[132..];
    } else {
      assert raw[128..|raw|] == raw[126..][2..] && raw'[128..|raw|] == raw'[126..][2..];
    }
  }

  lemma SealOutside(csum: bool, seed: u32, ino: u32, raw: seq<byte>, inodeSize: nat)
    requires 128 <= |raw| == inodeSize
    ensures var r := SealInode(csum, seed, ino, raw, inodeSize);
            && r[..124] == raw[..124] && r[126..128] == raw[126..128]
            && (|raw| <= 132 ==> r[126..] == raw[126..])
            && (|raw| > 132 ==> r[128..130] == raw[128..130] && r[132..] == raw[132..])
  {
    hide InodeChecksum, Lo16, Hi16, Enc16, Le32;
  }

  lemma SealFields(csum: bool, seed: u32, ino: u32, raw: seq<byte>, inodeSize: nat)
    requires 128 <= |raw| == inodeSize && csum
    ensures var c := InodeChecksum(seed, ino, Le32(raw, 100), raw, inodeSize);
            var r := SealInode(csum, seed, ino, raw, inodeSize);
            && Le16(r, 124) == Lo16(c) && (inodeSize > 132 ==> Le16(r, 130) == Hi16(c))
  {
    var c := InodeChecksum(seed, ino, Le32(raw, 100), raw, inodeSize);
    var low := Put(raw, 124, Enc16(Lo16(c)));
    hide InodeChecksum, Lo16, Hi16, Enc16, Le32, Le16;
    var r := SealInode(csum, seed, ino, raw, inodeSize);
    PutInside(raw, 124, Enc16(Lo16(c)));
    if inodeSize > 132 {
      PutInside(low, 130, Enc16(Hi16(c)));
      PutOutside(low, 130, Enc16(Hi16(c)), 124, 126);
      Enc16Reads(r, 130, Hi16(c));
    }
    Enc16Reads(r, 124, Lo16(c));
  }

  lemma LoHi(w: word)
    ensures Lo16(w) + 0x1_0000 * Hi16(w) == Num(w)
  {
    hide Num;
  }

  lemma SealKeepsGeneration(csum: bool, seed: u32, ino: u32, raw: seq<byte>, inodeSize: nat)
    requires 128 <= |raw| == inodeSize
    ensures Le32(SealInode(csum, seed, ino, raw, inodeSize), 100) == Le32(raw, 100)
  {
    hide InodeChecksum, Lo16, Hi16, Enc16, Word, Crc;
  }

  /** A sealed inode passes the reader's test exactly when the slot has room for the whole checksum,
      or the checksum happens to fit in its low half. */
  lemma SealedInodeMatches(seed: u32, ino: u32, raw: seq<byte>, inodeSize: nat)
    requires 128 <= |raw| == inodeSize
    ensures InodeMatches(seed, ino, SealInode(true, seed, ino, raw, inodeSize), inodeSize)
        <==> inodeSize > 132 || Hi16(InodeChecksum(seed, ino, Le32(raw, 100), raw, inodeSize)) == 0
  {
    hide InodeChecksum, SealInode, Lo16, Hi16, Num, Le16, Le32;
    var r := SealInode(true, seed, ino, raw, inodeSize);
    var c := InodeChecksum(seed, ino, Le32(raw, 100), raw, inodeSize);
    SealFields(true, seed, ino, raw, inodeSize);
    SealOutside(true, seed, ino, raw, inodeSize);
    SealKeepsGeneration(true, seed, ino, raw, inodeSize);
    ChecksumIgnoresFields(seed, ino, Le32(raw, 100), r, raw, inodeSize);
    LoHi(c);
  }

  // ---- directory blocks ----

  function DirChecksum(seed: u32, ino: u32, generation: u32, block: seq<byte>, blockSize: nat): word {
    var c := Crc(Enc32(generation), Crc(Enc32(ino), Word(seed)));
    Crc(block[..Min(if blockSize >= 12 then blockSize - 12 else 0, |block|)], c)
  }

  /** The block with its checksum tail rewritten. */
  function SealDir(csum: bool, seed: u32, ino: u32, generation: u32, block: seq<byte>): (r: seq<byte>)
    requires 12 <= |block|
    ensures |r| == |block|
  {
    if !csum then block
    else
      var c := DirChecksum(seed, ino, generation, block, |block|);
      Put(block, |block| - 12, [0, 0, 0, 0, 12, 0, 0, 0xDE] + Enc32(Num(c)))
  }

  /** The reader's test on a directory block. */
  predicate DirMatches(seed: u32, ino: u32, generation: u32, block: seq<byte>)
    requires 12 <= |block|
  {
    block[|block| - 12 + 7] == 0xDE ==>
      Le32(block, |block| - 12 + 8) == Num(DirChecksum(seed, ino, generation, block, |block|))
  }

  lemma SealedDirMatches(seed: u32, ino: u32, generation: u32, block: seq<byte>)
    requires 12 <= |block|
    ensures var r := SealDir(true, seed, ino, generation, block);
            && DirMatches(seed, ino, generation, r)
            && r[..|block| - 12] == block[..|block| - 12]
            && Le32(r, |block| - 12) == 0 && Le16(r, |block| - 8) == 12 && r[|block| - 5] == 0xDE
  {
    hide DirChecksum, Enc32, Num;
    var n := |block| - 12;
    var x := Num(DirChecksum(seed, ino, generation, block, |block|));
    var r := SealDir(true, seed, ino, generation, block);
    assert r[..n] == block[..n];
    assert r[n..] == [0, 0, 0, 0, 12, 0, 0, 0xDE] + Enc32(x);
    DirChecksumPrefix(seed, ino, generation, block, r);
    TailReads(r, n, x);
  }

  lemma TailReads(r: seq<byte>, n: nat, x: u32)
    requires |r| == n + 12 && r[n..] == [0, 0, 0, 0, 12, 0, 0, 0xDE] + Enc32(x)
    ensures Le32(r, n) == 0 && Le16(r, n + 4) == 12 && r[n + 7] == 0xDE && Le32(r, n + 8) == x
  {
    hide Enc32;
    var t := [0, 0, 0, 0, 12, 0, 0, 0xDE] + Enc32(x);
    assert forall i :: 0 <= i < 12 ==> r[n + i] == r[n..][i] == t[i];
    assert r[n + 8..n + 12] == Enc32(x);
    Enc32Reads(r, n + 8, x);
    assert r[n] == t[0] && r[n + 1] == t[1] && r[n + 2] == t[2] && r[n + 3] == t[3] && r[n + 4] == t[4]
           && r[n + 5] == t[5] && r[n + 7] == t[7];
  }

  lemma DirChecksumPrefix(seed: u32, ino: u32, generation: u32, block: seq<byte>, r: seq<byte>)
    requires 12 <= |block| == |r| && r[..|block| - 12] == block[..|block| - 12]
    ensures DirChecksum(seed, ino, generation, r, |r|) == DirChecksum(seed, ino, generation, block, |block|)
  {
  }

  // ---- group descriptors ----

  datatype GroupDesc = GroupDesc(
    blockBitmap: nat, inodeBitmap: nat, inodeTable: nat, freeBlocks: u32, freeInodes: u32)

  predicate Wide(gd: seq<byte>, is64bit: bool) { is64bit && 64 <= |gd| }

  function ParseDesc(gd: seq<byte>, is64bit: bool): GroupDesc
    requires 32 <= |gd|
  {
    if Wide(gd, is64bit) then
      GroupDesc(
        Le32(gd, 0) + 0x1_0000_0000 * Le32(gd, 32), Le32(gd, 4) + 0x1_0000_0000 * Le32(gd, 36),
        Le32(gd, 8) + 0x1_0000_0000 * Le32(gd, 40),
        Le16(gd, 12) + 0x1_0000 * Le16(gd, 44), Le16(gd, 14) + 0x1_0000 * Le16(gd, 46))
    else
      GroupDesc(Le32(gd, 0), Le32(gd, 4), Le32(gd, 8), Le16(gd, 12), Le16(gd, 14))
  }

  function DescChecksum(seed: u32, group: u32, gd: seq<byte>): u16
    requires 32 <= |gd|
  {
    var c := Crc([0, 0], Crc(gd[..30], Crc(Enc32(group), Word(seed))));
    Lo16(if |gd| > 32 then Crc(gd[32..], c) else c)
  }

  /** The reader's test on a group descriptor. */
  predicate DescMatches(seed: u32, group: u32, gd: seq<byte>)
    requires 32 <= |gd|
  {
    Le16(gd, 30) == DescChecksum(seed, group, Put(gd, 30, [0, 0]))
  }

  /** The counts and the bitmap checksum of a descriptor, before it is sealed. */
  function DescFields(gd: seq<byte>, is64bit: bool, csum: bool, fb: nat, fi: nat, bitmap: word,
                      inodes: bool): (r: seq<byte>)
    requires 32 <= |gd|
    ensures |r| == |gd|
  {
    var counts := Put(Put(gd, 12, Enc16(fb % 0x1_0000)), 14, Enc16(fi % 0x1_0000));
    if !csum then counts
    else
      var low := Put(counts, if inodes then 18 else 16, Enc16(Lo16(bitmap)));
      if Wide(gd, is64bit) then Put(low, if inodes then 42 else 44, Enc16(Hi16(bitmap))) else low
  }

  /** The descriptor that an allocation writes back. */
  function UpdateDesc(gd: seq<byte>, seed: u32, group: u32, is64bit: bool, csum: bool, fb: nat, fi: nat, bitmap: word,
                      inodes: bool): (r: seq<byte>)
    requires 32 <= |gd|
    ensures |r| == |gd|
  {
    var f := DescFields(gd, is64bit, csum, fb, fi, bitmap, inodes);
    if csum then
      Put(f, 30, Enc16(DescChecksum(seed, group, if |f| > 32 then Put(f, 30, [0, 0]) else f)))
    else f
  }

  lemma DescChecksumIgnoresField(seed: u32, group: u32, a: seq<byte>, b: seq<byte>)
    requires 32 <= |a| == |b| && a[..30] == b[..30] && a[32..] == b[32..]
    ensures DescChecksum(seed, group, a) == DescChecksum(seed, group, b)
  {
    hide Crc, Word, Lo16, Enc32;
  }

  lemma UpdatedDescMatches(gd: seq<byte>, seed: u32, group: u32, is64bit: bool, fb: nat, fi: nat, bitmap: word,
                           inodes: bool)
    requires 32 <= |gd|
    ensures DescMatches(seed, group, UpdateDesc(gd, seed, group, is64bit, true, fb, fi, bitmap, inodes))
  {
    hide DescFields, DescChecksum, Enc16, Le16;
    var f := DescFields(gd, is64bit, true, fb, fi, bitmap, inodes);
    var z := if |f| > 32 then Put(f, 30, [0, 0]) else f;
    var c := DescChecksum(seed, group, z);
    var r := UpdateDesc(gd, seed, group, is64bit, true, fb, fi, bitmap, inodes);
    assert r == Put(f, 30, Enc16(c));
    PutInside(f, 30, Enc16(c));
    Enc16Reads(r, 30, c);
    var y := Put(r, 30, [0, 0]);
    assert y[..30] == z[..30] && y[32..] == z[32..];
    DescChecksumIgnoresField(seed, group, y, z);
  }

  /** The fields of a rewritten descriptor that a later open reads. */
  lemma UpdatedDescFields(gd: seq<byte>, seed: u32, group: u32, is64bit: bool, csum: bool, fb: nat, fi: nat,
                          bitmap: word, inodes: bool)
    requires 32 <= |gd|
    ensures var r := UpdateDesc(gd, seed, group, is64bit, csum, fb, fi, bitmap, inodes);
            && r[0..12] == gd[0..12] && (64 <= |gd| ==> r[32..40] == gd[32..40])
            && r[12..14] == Enc16(fb % 0x1_0000) && r[14..16] == Enc16(fi % 0x1_0000)
  {
    hide DescChecksum, Enc16, Lo16, Hi16;
  }

  lemma UpdatedDescHigh(gd: seq<byte>, seed: u32, group: u32, is64bit: bool, csum: bool, fb: nat, fi: nat, bitmap: word,
                        inodes: bool)
    requires 64 <= |gd| && is64bit
    ensures var r := UpdateDesc(gd, seed, group, is64bit, csum, fb, fi, bitmap, inodes);
            && r[40..42] == gd[40..42] && r[46..48] == gd[46..48]
            && r[42..44] == (if csum && inodes then Enc16(Hi16(bitmap)) else gd[42..44])
            && r[44..46] == (if csum && !inodes then Enc16(Hi16(bitmap)) else gd[44..46])
  {
    hide DescChecksum, DescFields, UpdateDesc, Enc16, Lo16, Hi16;
    var r := UpdateDesc(gd, seed, group, is64bit, csum, fb, fi, bitmap, inodes);
    var f := DescFields(gd, is64bit, csum, fb, fi, bitmap, inodes);
    FieldsBelow(gd, seed, group, is64bit, csum, fb, fi, bitmap, inodes);
    FieldsHigh(gd, is64bit, csum, fb, fi, bitmap, inodes);
    SamePart(r, f, 32, 40, 42);
    SamePart(r, f, 32, 42, 44);
    SamePart(r, f, 32, 44, 46);
    SamePart(r, f, 32, 46, 48);
  }

  lemma SamePart(r: seq<byte>, f: seq<byte>, from: nat, a: nat, b: nat)
    requires from <= a <= b <= |r| == |f| && r[from..] == f[from..]
    ensures r[a..b] == f[a..b]
  {
    SliceOfSlice(r, from, |r|, a - from, b - from);
    SliceOfSlice(f, from, |f|, a - from, b - from);
    assert r[from..|r|] == r[from..] && f[from..|f|] == f[from..];
  }

  lemma FieldsHigh(gd: seq<byte>, is64bit: bool, csum: bool, fb: nat, fi: nat, bitmap: word, inodes: bool)
    requires 64 <= |gd| && is64bit
    ensures var f := DescFields(gd, is64bit, csum, fb, fi, bitmap, inodes);
            && f[40..42] == gd[40..42] && f[46..48] == gd[46..48]
            && f[42..44] == (if csum && inodes then Enc16(Hi16(bitmap)) else gd[42..44])
            && f[44..46] == (if csum && !inodes then Enc16(Hi16(bitmap)) else gd[44..46])
  {
    hide Enc16, Lo16, Hi16;
  }

  /** Sealing changes only the checksum field. */
  lemma FieldsBelow(gd: seq<byte>, seed: u32, group: u32, is64bit: bool, csum: bool, fb: nat, fi: nat, bitmap: word,
                    inodes: bool)
    requires 32 <= |gd|
    ensures var r, f := UpdateDesc(gd, seed, group, is64bit, csum, fb, fi, bitmap, inodes),
                        DescFields(gd, is64bit, csum, fb, fi, bitmap, inodes);
            r[..30] == f[..30] && r[32..] == f[32..]
  {
    hide DescFields, DescChecksum, Enc16;
  }

  lemma UpdatedDescLow(gd: seq<byte>, seed: u32, group: u32, is64bit: bool, csum: bool, fb: nat, fi: nat, bitmap: word,
                       inodes: bool)
    requires 32 <= |gd|
    ensures var r := UpdateDesc(gd, seed, group, is64bit, csum, fb, fi, bitmap, inodes);
            && r[16..18] == (if csum && !inodes then Enc16(Lo16(bitmap)) else gd[16..18])
            && r[18..20] == (if csum && inodes then Enc16(Lo16(bitmap)) else gd[18..20])
  {
    hide DescChecksum, Enc16, Lo16, Hi16;
  }

  /** What is neither a count nor a checksum is left as it was. */
  lemma UpdatedDescRest(gd: seq<byte>, seed: u32, group: u32, is64bit: bool, csum: bool, fb: nat, fi: nat, bitmap: word,
                        inodes: bool)
    requires 32 <= |gd|
    ensures var r := UpdateDesc(gd, seed, group, is64bit, csum, fb, fi, bitmap, inodes);
            && r[..12] == gd[..12] && r[20..30] == gd[20..30]
            && (if is64bit && 64 <= |gd| then r[32..42] == gd[32..42] && r[46..] == gd[46..] else r[32..] == gd[32..])
            && (!csum ==> r[16..] == gd[16..])
  {
    hide DescChecksum, Enc16, Lo16, Hi16;
    var r := UpdateDesc(gd, seed, group, is64bit, csum, fb, fi, bitmap, inodes);
    assert forall i :: 0 <= i < 12 || 20 <= i < 30 ==> r[i] == gd[i];
    assert forall i :: 32 <= i < |gd| && (i < 42 || 46 <= i || !Wide(gd, is64bit)) ==> r[i] == gd[i];
  }

  lemma SameLe32s(a: seq<byte>, b: seq<byte>, p: nat, q: nat, o: nat)
    requires p <= o && o + 4 <= q <= |a| == |b| && a[p..q] == b[p..q]
    ensures Le32(a, o) == Le32(b, o)
  {
    assert forall i :: p <= i < q ==> a[i] == a[p..q][i - p] == b[p..q][i - p] == b[i];
  }

  /** The low halves of the counts and all places, as a later open reads them. */
  lemma ReopenedLow(gd: seq<byte>, seed: u32, group: u32, is64bit: bool, csum: bool, fb: u32, fi: u32, bitmap: word,
                    inodes: bool)
    requires 32 <= |gd|
    ensures var r := UpdateDesc(gd, seed, group, is64bit, csum, fb, fi, bitmap, inodes);
            && Le16(r, 12) == fb % 0x1_0000 && Le16(r, 14) == fi % 0x1_0000
            && Le32(r, 0) == Le32(gd, 0) && Le32(r, 4) == Le32(gd, 4) && Le32(r, 8) == Le32(gd, 8)
            && (64 <= |gd| ==> Le32(r, 32) == Le32(gd, 32) && Le32(r, 36) == Le32(gd, 36))
  {
    hide UpdateDesc, Le32, Le16, Enc16;
    var r := UpdateDesc(gd, seed, group, is64bit, csum, fb, fi, bitmap, inodes);
    UpdatedDescFields(gd, seed, group, is64bit, csum, fb, fi, bitmap, inodes);
    Enc16Reads(r, 12, fb % 0x1_0000);
    Enc16Reads(r, 14, fi % 0x1_0000);
    SameLe32s(r, gd, 0, 12, 0);
    SameLe32s(r, gd, 0, 12, 4);
    SameLe32s(r, gd, 0, 12, 8);
    if 64 <= |gd| {
      SameLe32s(r, gd, 32, 40, 32);
      SameLe32s(r, gd, 32, 40, 36);
    }
  }

  lemma SameLe16(a: seq<byte>, b: seq<byte>, o: nat)
    requires o + 2 <= |a| == |b| && a[o..o + 2] == b[o..o + 2]
    ensures Le16(a, o) == Le16(b, o)
  {
    assert a[o..o + 2][0] == b[o..o + 2][0] && a[o..o + 2][1] == b[o..o + 2][1];
  }

  lemma ReopenedHigh(gd: seq<byte>, seed: u32, group: u32, is64bit: bool, csum: bool, fb: u32, fi: u32, bitmap: word,
                     inodes: bool)
    requires 64 <= |gd| && is64bit
    ensures var r := UpdateDesc(gd, seed, group, is64bit, csum, fb, fi, bitmap, inodes);
            && Le16(r, 40) == Le16(gd, 40) && Le16(r, 46) == Le16(gd, 46)
            && Le16(r, 42) == (if csum && inodes then Hi16(bitmap) else Le16(gd, 42))
            && Le16(r, 44) == (if csum && !inodes then Hi16(bitmap) else Le16(gd, 44))
  {
    hide UpdateDesc, Hi16, Le16, Enc16;
    var r := UpdateDesc(gd, seed, group, is64bit, csum, fb, fi, bitmap, inodes);
    UpdatedDescHigh(gd, seed, group, is64bit, csum, fb, fi, bitmap, inodes);
    SameLe16(r, gd, 40);
    SameLe16(r, gd, 46);
    if csum && inodes { Enc16Reads(r, 42, Hi16(bitmap)); } else { SameLe16(r, gd, 42); }
    if csum && !inodes { Enc16Reads(r, 44, Hi16(bitmap)); } else { SameLe16(r, gd, 44); }
  }

  /** When a rewritten descriptor still says what the open handle holds: always in the low halves; in the
      high halves only while the bytes that the bitmap checksum overwrites held the same value anyway. */
  predicate HighHalvesAgree(gd: seq<byte>, is64bit: bool, csum: bool, fb: u32, fi: u32, bitmap: word, inodes: bool)
    requires 32 <= |gd|
  {
    if !Wide(gd, is64bit) then fb < 0x1_0000 && fi < 0x1_0000
    else
      && fi / 0x1_0000 == Le16(gd, 46)
      && fb / 0x1_0000 == (if csum && !inodes then Hi16(bitmap) else Le16(gd, 44))
      && (csum && inodes ==> Hi16(bitmap) == Le16(gd, 42))
  }

  lemma ReopenedDesc(gd: seq<byte>, seed: u32, group: u32, is64bit: bool, csum: bool, fb: u32, fi: u32, bitmap: word,
                     inodes: bool)
    requires 32 <= |gd|
    ensures ParseDesc(UpdateDesc(gd, seed, group, is64bit, csum, fb, fi, bitmap, inodes), is64bit)
         == ParseDesc(gd, is64bit).(freeBlocks := fb, freeInodes := fi)
        <==> HighHalvesAgree(gd, is64bit, csum, fb, fi, bitmap, inodes)
  {
    hide UpdateDesc, Hi16, Le16, Le32;
    var r := UpdateDesc(gd, seed, group, is64bit, csum, fb, fi, bitmap, inodes);
    ReopenedLow(gd, seed, group, is64bit, csum, fb, fi, bitmap, inodes);
    if Wide(gd, is64bit) {
      ReopenedHigh(gd, seed, group, is64bit, csum, fb, fi, bitmap, inodes);
      Le32Halves(r, 40);
      Le32Halves(gd, 40);
    }
  }

  /** A descriptor and a superblock without the counts. */
  function BareDesc(gd: GroupDesc): GroupDesc { gd.(freeBlocks := 0, freeInodes := 0) }

  function BareSuper(sb: Superblock): Superblock { sb.(freeBlocks := 0, freeInodes := 0) }

  /** With 32-bit descriptors a rewritten one always gives the same places. */
  lemma RewrittenPlaces(gd: seq<byte>, seed: u32, group: u32, csum: bool, fb: u32, fi: u32, bitmap: word, inodes: bool)
    requires 32 <= |gd|
    ensures BareDesc(ParseDesc(UpdateDesc(gd, seed, group, false, csum, fb, fi, bitmap, inodes), false))
            == BareDesc(ParseDesc(gd, false))
  {
    hide UpdateDesc, Hi16, Le16, Le32;
    ReopenedLow(gd, seed, group, false, csum, fb, fi, bitmap, inodes);
  }

  lemma Le32Halves(s: seq<byte>, o: nat)
    requires o + 4 <= |s|
    ensures Le32(s, o) == Le16(s, o) + 0x1_0000 * Le16(s, o + 2)
  {
  }

  /** The descriptor carries these checksums of its block bitmap and its inode bitmap, the whole of them if it has 64
      bytes, else their low halves. */
  predicate Carries(gd: seq<byte>, is64bit: bool, blocks: u32, inodes: u32)
    requires 32 <= |gd|
  {
    && Le16(gd, 16) == blocks % 0x1_0000 && Le16(gd, 18) == inodes % 0x1_0000
    && (is64bit && 64 <= |gd| ==> Le16(gd, 44) == blocks / 0x1_0000 && Le16(gd, 42) == inodes / 0x1_0000)
  }

  /** An allocation replaces the checksum of the bitmap it has changed, and leaves the other one. */
  lemma UpdatedDescCarries(gd: seq<byte>, seed: u32, group: u32, is64bit: bool, fb: u32, fi: u32, bitmap: word,
                           inodes: bool, blockSum: u32, inodeSum: u32)
    requires 32 <= |gd| && Carries(gd, is64bit, blockSum, inodeSum)
    ensures var r := UpdateDesc(gd, seed, group, is64bit, true, fb, fi, bitmap, inodes);
            if inodes then Carries(r, is64bit, blockSum, bitmap as u32)
            else Carries(r, is64bit, bitmap as u32, inodeSum)
  {
    hide UpdateDesc, Le16, Enc16;
    var r := UpdateDesc(gd, seed, group, is64bit, true, fb, fi, bitmap, inodes);
    UpdatedDescLow(gd, seed, group, is64bit, true, fb, fi, bitmap, inodes);
    if inodes { Enc16Reads(r, 18, Lo16(bitmap)); } else { SameLe16(r, gd, 18); }
    if inodes { SameLe16(r, gd, 16); } else { Enc16Reads(r, 16, Lo16(bitmap)); }
    if Wide(gd, is64bit) { ReopenedHigh(gd, seed, group, is64bit, true, fb, fi, bitmap, inodes); }
  }

  function BitmapChecksum(seed: u32, bitmap: seq<byte>): word { Crc(bitmap, Word(seed)) }

  // ---- seeds ----

  lemma WordNum(w: word)
    ensures Word(Num(w)) == w
  {
  }

  lemma HighBits()
    ensures Hi16(0) == 0 && Hi16(0x0001_0000) == 1
  {
  }

  /** For each bitmap there is a seed whose checksum has another high half than any given one. */
  lemma SeedAgainst(bitmap: seq<byte>, high: u16) returns (seed: u32)
    ensures Hi16(BitmapChecksum(seed, bitmap)) != high
  {
    hide Word, Num, Hi16;
    var w: word := if high == 0 then 0x0001_0000 else 0;
    var init := Crc32c.Backwards(bitmap, w);
    seed := Num(init);
    WordNum(init);
    HighBits();
  }

  /** Whatever the bitmap and the 64-byte descriptor, with some seed a later open does not agree with the handle. */
  lemma SomeSeedBreaks(gd: seq<byte>, bitmap: seq<byte>, fb: u32, fi: u32, inodes: bool) returns (seed: u32)
    requires 64 <= |gd|
    ensures !HighHalvesAgree(gd, true, true, fb, fi, BitmapChecksum(seed, bitmap), inodes)
  {
    hide Hi16, BitmapChecksum, Le16;
    seed := SeedAgainst(bitmap, if inodes then Le16(gd, 42) else fb / 0x1_0000);
  }

  /** Whatever the inode bitmap and the 64-byte descriptor, with some seed a later open looks for the inode table
      in another place. */
  lemma ReopenMovesTable(gd: seq<byte>, bitmap: seq<byte>, group: u32, fb: u32, fi: u32) returns (seed: u32)
    requires 64 <= |gd|
    ensures var r := UpdateDesc(gd, seed, group, true, true, fb, fi, BitmapChecksum(seed, bitmap), true);
            ParseDesc(r, true).inodeTable != ParseDesc(gd, true).inodeTable
  {
    hide UpdateDesc, Hi16, Le16, Le32, BitmapChecksum;
    seed := SeedAgainst(bitmap, Le16(gd, 42));
    var w := BitmapChecksum(seed, bitmap);
    var r := UpdateDesc(gd, seed, group, true, true, fb, fi, w, true);
    ReopenedLow(gd, seed, group, true, true, fb, fi, w, true);
    ReopenedHigh(gd, seed, group, true, true, fb, fi, w, true);
    Le32Halves(r, 40);
    Le32Halves(gd, 40);
  }

  /** Whatever the inode, with some seed a slot of 128 bytes fails its reader's test right after it is written. */
  lemma SmallInodeFails(ino: u32, raw: seq<byte>) returns (seed: u32)
    requires |raw| == 128
    ensures !InodeMatches(seed, ino, SealInode(true, seed, ino, raw, 128), 128)
  {
    hide Hi16, Word, Num, SealInode, InodeMatches, Le32, Enc32;
    var e := Crc32c.Backwards(raw[126..128], 0x0001_0000);
    var d := Crc32c.Backwards([0, 0], e);
    var c := Crc32c.Backwards(raw[..124], d);
    var b := Crc32c.Backwards(Enc32(Le32(raw, 100)), c);
    var a := Crc32c.Backwards(Enc32(ino), b);
    seed := Num(a);
    WordNum(a);
    HighBits();
    assert InodeChecksum(seed, ino, Le32(raw, 100), raw, 128) == 0x0001_0000;
    SealedInodeMatches(seed, ino, raw, 128);
  }

  // ---- the superblock ----

  datatype Superblock = Superblock(
    inodeCount: u32, blockCount: u64, freeBlocks: u64, freeInodes: u32, blockSize: nat, blocksPerGroup: u32,
    inodesPerGroup: u32, inodeSize: u16, descSize: u16, numGroups: u32,
    is64bit: bool, hasExtents: bool, hasJournal: bool, metadataCsum: bool, csumSeed: u32)

  function Flag(flags: u32, bit: nat): bool { flags / Pow2(bit) % 2 == 1 }

  function SuperChecksum(s: seq<byte>): word
    requires 1020 <= |s|
  {
    Crc32c.Xor(Crc(s[..1020], 0xFFFF_FFFF), 0xFFFF_FFFF)
  }

  function Wide64(s: seq<byte>, lo: nat, hi: nat, is64bit: bool): u64
    requires lo + 4 <= |s| && hi + 4 <= |s|
  {
    Le32(s, lo) + if is64bit then 0x1_0000_0000 * Le32(s, hi) else 0
  }

  /** `1024 << log` in 32 bits. */
  function BlockSize(log: u32): nat { if log < 22 then 1024 * Pow2(log) else 0 }

  /** The number of groups that hold all blocks, in 32 bits. */
  function Groups(count: u64, per: u32): u32
    requires 0 < per
  {
    (count + per - 1) / per % 0x1_0000_0000
  }

  /** Decodes the superblock; a wrong magic or checksum, or no blocks per group, is an error. */
  function ParseSuper(s: seq<byte>): Result<Superblock> {
    if |s| < 1024 || Le16(s, 56) != 0xEF53 || Le32(s, 32) == 0 then Err
    else
      var incompat := Le32(s, 96);
      var is64bit, csum := Flag(incompat, 7), Flag(Le32(s, 100), 10);
      if csum && Le32(s, 1020) != Num(SuperChecksum(s)) then Err
      else
        var count := Wide64(s, 4, 336, is64bit);
        Ok(Superblock(
          Le32(s, 0), count, Wide64(s, 12, 340, is64bit), Le32(s, 16), BlockSize(Le32(s, 24)), Le32(s, 32),
          Le32(s, 40), Le16(s, 88), if is64bit && Le16(s, 254) > 0 then Le16(s, 254) else 32,
          Groups(count, Le32(s, 32)),
          is64bit, Flag(incompat, 6), Flag(Le32(s, 92), 2), csum,
          if !csum then 0 else if Flag(incompat, 13) then Le32(s, 268) else Num(Crc(s[104..120], 0xFFFF_FFFF))))
  }

  /** The superblock bytes with new free counts, as an allocation writes them back. */
  function SuperFields(s: seq<byte>, is64bit: bool, freeBlocks: u64, freeInodes: u32): (r: seq<byte>)
    requires |s| == 1024
    ensures |r| == 1024
  {
    var counts := Put(Put(s, 12, Enc32(freeBlocks % 0x1_0000_0000)), 16, Enc32(freeInodes));
    if is64bit then Put(counts, 340, Enc32(freeBlocks / 0x1_0000_0000)) else counts
  }

  function UpdateSuper(s: seq<byte>, is64bit: bool, csum: bool, freeBlocks: u64, freeInodes: u32): (r: seq<byte>)
    requires |s| == 1024
    ensures |r| == 1024
  {
    var f := SuperFields(s, is64bit, freeBlocks, freeInodes);
    if csum then Put(f, 1020, Enc32(Num(SuperChecksum(f)))) else f
  }

  lemma UpdatedSuperChecksum(s: seq<byte>, is64bit: bool, freeBlocks: u64, freeInodes: u32)
    requires |s| == 1024
    ensures var r := UpdateSuper(s, is64bit, true, freeBlocks, freeInodes); Le32(r, 1020) == Num(SuperChecksum(r))
  {
    hide SuperFields, Crc, Num, Enc32, Le32;
    var f := SuperFields(s, is64bit, freeBlocks, freeInodes);
    var r := UpdateSuper(s, is64bit, true, freeBlocks, freeInodes);
    PutInside(f, 1020, Enc32(Num(SuperChecksum(f))));
    Enc32Reads(r, 1020, Num(SuperChecksum(f)));
    assert r[..1020] == f[..1020];
  }

  /** Everything but the counts, and the checksum, is left as it was. */
  lemma UpdatedSuperKeeps(s: seq<byte>, is64bit: bool, csum: bool, freeBlocks: u64, freeInodes: u32)
    requires |s| == 1024
    ensures var r := UpdateSuper(s, is64bit, csum, freeBlocks, freeInodes);
            && r[0..12] == s[0..12] && r[20..340] == s[20..340]
            && r[12..16] == Enc32(freeBlocks % 0x1_0000_0000) && r[16..20] == Enc32(freeInodes)
            && (is64bit ==> r[340..344] == Enc32(freeBlocks / 0x1_0000_0000))
            && (!is64bit ==> r[340..344] == s[340..344]) && r[344..1020] == s[344..1020]
            && (!csum ==> r[1020..] == s[1020..])
  {
    hide SuperChecksum, Num, Enc32;
  }

  /** The fields below the counts and between them and the high half, unchanged by an update. */
  lemma SameMiddle(s: seq<byte>, r: seq<byte>, o: nat)
    requires |s| == |r| == 1024 && 20 <= o && o + 4 <= 340 && r[20..340] == s[20..340]
    ensures Le32(r, o) == Le32(s, o) && Le16(r, o) == Le16(s, o)
  {
    assert r[20..340][o - 20] == s[20..340][o - 20] && r[20..340][o - 19] == s[20..340][o - 19];
    assert r[20..340][o - 18] == s[20..340][o - 18] && r[20..340][o - 17] == s[20..340][o - 17];
  }

  lemma SameMiddles(s: seq<byte>, r: seq<byte>)
    requires |s| == |r| == 1024 && r[20..340] == s[20..340] && r[0..12] == s[0..12]
    ensures Le32(r, 0) == Le32(s, 0) && Le32(r, 4) == Le32(s, 4) && Le32(r, 24) == Le32(s, 24)
            && Le32(r, 32) == Le32(s, 32)
    ensures Le32(r, 40) == Le32(s, 40) && Le16(r, 56) == Le16(s, 56) && Le16(r, 88) == Le16(s, 88)
            && Le32(r, 92) == Le32(s, 92)
    ensures Le32(r, 96) == Le32(s, 96) && Le32(r, 100) == Le32(s, 100) && r[104..120] == s[104..120]
    ensures Le16(r, 254) == Le16(s, 254) && Le32(r, 268) == Le32(s, 268) && Le32(r, 336) == Le32(s, 336)
  {
    hide Le32, Le16;
    SameLe32s(r, s, 0, 12, 0);
    SameLe32s(r, s, 0, 12, 4);
    SameMiddle(s, r, 24);
    SameMiddle(s, r, 32);
    SameMiddle(s, r, 40);
    SameMiddle(s, r, 56);
    SameMiddle(s, r, 88);
    SameMiddle(s, r, 92);
    SameMiddle(s, r, 96);
    SameMiddle(s, r, 100);
    SliceOfSlice(s, 20, 340, 84, 100);
    SliceOfSlice(r, 20, 340, 84, 100);
    SameMiddle(s, r, 254);
    SameMiddle(s, r, 268);
    SameMiddle(s, r, 336);
  }

  /** Every superblock that an allocation writes back is accepted by a later open, which then sees
      the same file system with the new counts. */
  lemma ReopenedSuper(s: seq<byte>, p: Superblock, freeBlocks: u64, freeInodes: u32)
    requires |s| == 1024 && ParseSuper(s) == Ok(p)
    ensures ParseSuper(UpdateSuper(s, p.is64bit, p.metadataCsum, freeBlocks, freeInodes))
         == Ok(p.(freeBlocks := if p.is64bit then freeBlocks else freeBlocks % 0x1_0000_0000, freeInodes := freeInodes))
  {
    hide Le32, Le16, Flag, BlockSize, UpdateSuper, SuperChecksum, Num, Crc, Enc32;
    var r := UpdateSuper(s, p.is64bit, p.metadataCsum, freeBlocks, freeInodes);
    UpdatedSuperKeeps(s, p.is64bit, p.metadataCsum, freeBlocks, freeInodes);
    SameMiddles(s, r);
    Enc32Reads(r, 12, freeBlocks % 0x1_0000_0000);
    Enc32Reads(r, 16, freeInodes);
    if p.is64bit { Enc32Reads(r, 340, freeBlocks / 0x1_0000_0000); }
    if p.metadataCsum { UpdatedSuperChecksum(s, p.is64bit, freeBlocks, freeInodes); }
  }

  /** A superblock with another checksum seed. */
  function Reseed(s: seq<byte>, seed: u32): (r: seq<byte>)
    requires |s| == 1024
    ensures |r| == 1024
  {
    var f := Put(s, 268, Enc32(seed));
    Put(f, 1020, Enc32(Num(SuperChecksum(f))))
  }

  /** The seed is free on disk: any superblock that stores one is accepted with any other. */
  lemma SeedIsFree(s: seq<byte>, p: Superblock, seed: u32)
    requires |s| == 1024 && ParseSuper(s) == Ok(p) && p.metadataCsum && Flag(Le32(s, 96), 13)
    ensures ParseSuper(Reseed(s, seed)) == Ok(p.(csumSeed := seed))
  {
    hide Le32, Le16, Flag, BlockSize, SuperChecksum, Num, Crc, Enc32;
    var f := Put(s, 268, Enc32(seed));
    var r := Reseed(s, seed);
    PutInside(s, 268, Enc32(seed));
    PutOutside(f, 1020, Enc32(Num(SuperChecksum(f))), 268, 272);
    PutInside(f, 1020, Enc32(Num(SuperChecksum(f))));
    Enc32Reads(r, 268, seed);
    Enc32Reads(r, 1020, Num(SuperChecksum(f)));
    ReseedKeeps(s, seed);
    SuperChecksumPrefix(f, r);
  }

  lemma SuperChecksumPrefix(f: seq<byte>, r: seq<byte>)
    requires |f| == |r| == 1024 && r[..1020] == f[..1020]
    ensures SuperChecksum(r) == SuperChecksum(f)
  {
  }

  lemma ReseedKeeps(s: seq<byte>, seed: u32)
    requires |s| == 1024
    ensures var r, f := Reseed(s, seed), Put(s, 268, Enc32(seed));
            && r[..1020] == f[..1020] && r[104..120] == s[104..120]
            && Le32(r, 0) == Le32(s, 0) && Le32(r, 4) == Le32(s, 4) && Le32(r, 12) == Le32(s, 12)
            && Le32(r, 16) == Le32(s, 16)
            && Le32(r, 24) == Le32(s, 24) && Le32(r, 32) == Le32(s, 32) && Le32(r, 40) == Le32(s, 40)
            && Le16(r, 56) == Le16(s, 56) && Le16(r, 88) == Le16(s, 88) && Le32(r, 92) == Le32(s, 92)
            && Le32(r, 96) == Le32(s, 96) && Le32(r, 100) == Le32(s, 100) && Le16(r, 254) == Le16(s, 254)
            && Le32(r, 336) == Le32(s, 336) && Le32(r, 340) == Le32(s, 340)
  {
    hide SuperChecksum, Num, Enc32;
    var f := Put(s, 268, Enc32(seed));
    var r := Reseed(s, seed);
    assert r[..1020] == f[..1020] && r[104..120] == s[104..120];
  }
}
