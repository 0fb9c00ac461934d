/** Allocation over whole runs: counts, distinctness, and what a later open of the file system finds. */
module Accounting {
  import opened Bytes
  import opened Bitmap
  import Crc32c
  import opened Disk
  import opened Volume
  import opened Frames
  import opened Metadata
  import opened Descs
  import opened Alloc
  import opened Handles

  // ---- conservation ----

  function SumInodes(gds: seq<GroupDesc>): nat {
    if gds == [] then 0 else SumInodes(gds[..|gds| - 1]) + gds[|gds| - 1].freeInodes
  }

  function SumBlocks(gds: seq<GroupDesc>): nat {
    if gds == [] then 0 else SumBlocks(gds[..|gds| - 1]) + gds[|gds| - 1].freeBlocks
  }

  /** Each group's counts are its clear bits. */
  ghost predicate GroupCounts(h: Handle, group: nat)
    requires group < |h.gds| && group < |h.d.g.places|
  {
    && h.gds[group].freeInodes == Clear(InodeMap(h.d, group), h.d.g.inodesPerGroup)
    && h.gds[group].freeBlocks == Clear(BlockMap(h.d, group), h.d.g.blocksPerGroup)
  }

  /** All counts agree with the bitmaps and with each other. */
  ghost predicate Conserved(h: Handle) {
    && |h.gds| == |h.d.g.places|
    && (forall group :: 0 <= group < |h.gds| ==> GroupCounts(h, group))
    && h.sb.freeInodes == SumInodes(h.gds) && h.sb.freeBlocks == SumBlocks(h.gds)
  }

  lemma {:induction false} SumUpdate(gds: seq<GroupDesc>, group: nat, x: GroupDesc)
    requires group < |gds|
    ensures SumInodes(gds[group := x]) == SumInodes(gds) - gds[group].freeInodes + x.freeInodes
    ensures SumBlocks(gds[group := x]) == SumBlocks(gds) - gds[group].freeBlocks + x.freeBlocks
    ensures gds[group].freeInodes <= SumInodes(gds) && gds[group].freeBlocks <= SumBlocks(gds)
  {
    var n := |gds| - 1;
    var r := gds[group := x];
    if group == n {
      assert r[..n] == gds[..n];
    } else {
      assert r[..n] == gds[..n][group := x];
      SumUpdate(gds[..n], group, x);
    }
  }

  /** Counts stay exact when bitmaps and handle do. */
  lemma ConservedKept(h: Handle, h': Handle)
    requires h'.sb == h.sb && h'.gds == h.gds && h'.d.g == h.d.g && |h.d.g.places| == |h.gds| && RecordsSame(h.d, h'.d)
    ensures Conserved(h) ==> Conserved(h')
  {
    hide DescBytes, SuperBytes, Blk, Bit, SumInodes, SumBlocks;
    if Conserved(h) {
      forall group | 0 <= group < |h'.gds| ensures GroupCounts(h', group) {
        assert GroupCounts(h, group);
        assert InodeMap(h'.d, group) == InodeMap(h.d, group) && BlockMap(h'.d, group) == BlockMap(h.d, group);
      }
    }
  }

  /** Taking an inode keeps every count exact, and no subtraction ever saturates. */
  lemma InodeConserves(h: Handle, h': Handle, ino: nat)
    requires Conserved(h) && TookInode(h, h', ino)
    ensures Conserved(h')
    ensures h'.sb.freeInodes == h.sb.freeInodes - 1 && h'.sb.freeBlocks == h.sb.freeBlocks
    ensures h'.gds[Group(h.d.g, ino)].freeInodes == h.gds[Group(h.d.g, ino)].freeInodes - 1
  {
    hide Blk, Bit, Clear, SumInodes, SumBlocks, DescBytes, SuperBytes, Index, Group, BitsKept;
    var g := Group(h.d.g, ino);
    var k := Index(h.d.g, ino);
    assert GroupCounts(h, g);
    ClearOneMore(InodeMap(h.d, g), InodeMap(h'.d, g), k, h.d.g.inodesPerGroup);
    SumUpdate(h.gds, g, h'.gds[g]);
    forall group | 0 <= group < |h'.gds| ensures GroupCounts(h', group) {
      assert GroupCounts(h, group);
    }
  }

  lemma BlockConserves(h: Handle, h': Handle, b: nat)
    requires Conserved(h) && TookBlock(h, h', b)
    ensures Conserved(h')
    ensures h'.sb.freeBlocks == h.sb.freeBlocks - 1 && h'.sb.freeInodes == h.sb.freeInodes
    ensures h'.gds[BlockGroup(h.d.g, b)].freeBlocks == h.gds[BlockGroup(h.d.g, b)].freeBlocks - 1
  {
    hide Blk, Bit, Clear, SumInodes, SumBlocks, DescBytes, SuperBytes, BlockIndex, BlockGroup, BitsKept;
    var g := BlockGroup(h.d.g, b);
    var k := BlockIndex(h.d.g, b);
    assert GroupCounts(h, g);
    ClearOneMore(BlockMap(h.d, g), BlockMap(h'.d, g), k, h.d.g.blocksPerGroup);
    SumUpdate(h.gds, g, h'.gds[g]);
    forall group | 0 <= group < |h'.gds| ensures GroupCounts(h', group) {
      assert GroupCounts(h, group);
    }
  }

  /** An inode allocation that stopped half-way keeps the counts exact if and only if the handle had counted it. */
  lemma InodeHalfway(h: Handle, h': Handle, ino: nat)
    requires Conserved(h) && HalfInode(h, h', ino)
    ensures Conserved(h') <==> Tallied(h, h', Group(h.d.g, ino), true)
  {
    hide Blk, Bit, Clear, SumInodes, SumBlocks, Group, BitsKept, OneMore;
    var g, k := Group(h.d.g, ino), Index(h.d.g, ino);
    assert GroupCounts(h, g);
    ClearOneMore(InodeMap(h.d, g), InodeMap(h'.d, g), k, h.d.g.inodesPerGroup);
    SumUpdate(h.gds, g, h'.gds[g]);
    forall group | 0 <= group < |h'.gds| && group != g ensures GroupCounts(h', group) {
      assert GroupCounts(h, group);
    }
    assert GroupCounts(h', g) <==> Tallied(h, h', g, true);
  }

  lemma BlockHalfway(h: Handle, h': Handle, b: nat)
    requires Conserved(h) && HalfBlock(h, h', b)
    ensures Conserved(h') <==> Tallied(h, h', BlockGroup(h.d.g, b), false)
  {
    hide Blk, Bit, Clear, SumInodes, SumBlocks, BlockGroup, BitsKept, OneMore;
    var g, k := BlockGroup(h.d.g, b), BlockIndex(h.d.g, b);
    assert GroupCounts(h, g);
    ClearOneMore(BlockMap(h.d, g), BlockMap(h'.d, g), k, h.d.g.blocksPerGroup);
    SumUpdate(h.gds, g, h'.gds[g]);
    forall group | 0 <= group < |h'.gds| && group != g ensures GroupCounts(h', group) {
      assert GroupCounts(h, group);
    }
    assert GroupCounts(h', g) <==> Tallied(h, h', g, false);
  }

  /** With exact counts an inode allocation fails exactly when every group's eligible bits are all set. */
  lemma NoInodesExact(h: Handle)
    requires Conserved(h)
    requires forall group :: 0 <= group < |h.gds| ==> h.d.g.inodesPerGroup <= 8 * |InodeMap(h.d, group)|
    ensures NoInodes(h) <==>
            forall group, k :: 0 <= group < |h.gds| && (if group == 0 then 11 else 0) <= k < h.d.g.inodesPerGroup ==>
              Bit(InodeMap(h.d, group), k)
  {
    hide Blk, Bit, Clear, SumInodes, SumBlocks;
    forall group | 0 <= group < |h.gds|
      ensures NoInodeIn(h, group) <==>
              forall k :: StartBit(group) <= k < h.d.g.inodesPerGroup ==> Bit(InodeMap(h.d, group), k)
    {
      assert GroupCounts(h, group);
      ClearNone(InodeMap(h.d, group), h.d.g.inodesPerGroup);
    }
  }

  lemma NoBlocksExact(h: Handle)
    requires Conserved(h)
    requires forall group :: 0 <= group < |h.gds| ==> h.d.g.blocksPerGroup <= 8 * |BlockMap(h.d, group)|
    ensures NoBlocks(h) <==>
            forall group, k :: 0 <= group < |h.gds| && 0 <= k < h.d.g.blocksPerGroup ==> Bit(BlockMap(h.d, group), k)
  {
    hide Blk, Bit, Clear, SumInodes, SumBlocks;
    forall group | 0 <= group < |h.gds|
      ensures NoBlockIn(h, group) <==> forall k :: 0 <= k < h.d.g.blocksPerGroup ==> Bit(BlockMap(h.d, group), k)
    {
      assert GroupCounts(h, group);
      ClearNone(BlockMap(h.d, group), h.d.g.blocksPerGroup);
    }
  }

  // ---- the checksums of the bitmaps ----

  /** The checksum of a bitmap: the CRC of its whole block, started from the file system's seed. */
  ghost function MapSum(seed: u32, bitmap: seq<byte>): u32 { Crc32c.Raw(bitmap, seed as bv32) as u32 }

  /** The descriptor of a group carries the checksums of the bitmaps that are on the card. */
  ghost predicate GroupSummed(h: Handle, group: nat)
    requires group < |h.d.g.places|
  {
    var seed := h.sb.csumSeed;
    Carries(DescBytes(h.d, group), h.sb.is64bit, MapSum(seed, BlockMap(h.d, group)), MapSum(seed, InodeMap(h.d, group)))
  }

  /** With checksums, so do all. */
  ghost predicate MapsSummed(h: Handle) {
    && |h.gds| == |h.d.g.places|
    && (h.sb.metadataCsum ==> forall group :: 0 <= group < |h.gds| ==> GroupSummed(h, group))
  }

  /** The descriptor and the bitmaps are all that matters. */
  lemma SameSums(h: Handle, h': Handle, group: nat)
    requires group < |h.d.g.places| && h'.d.g == h.d.g
    requires h'.sb.csumSeed == h.sb.csumSeed && h'.sb.is64bit == h.sb.is64bit
    requires DescBytes(h'.d, group) == DescBytes(h.d, group)
    requires BlockMap(h'.d, group) == BlockMap(h.d, group) && InodeMap(h'.d, group) == InodeMap(h.d, group)
    ensures GroupSummed(h', group) == GroupSummed(h, group)
  {
    hide DescBytes, Blk, Carries, MapSum;
  }

  lemma SummedKept(h: Handle, h': Handle)
    requires h'.sb == h.sb && h'.gds == h.gds && h'.d.g == h.d.g && |h.d.g.places| == |h.gds| && RecordsSame(h.d, h'.d)
    ensures MapsSummed(h) ==> MapsSummed(h')
  {
    hide DescBytes, SuperBytes, Blk, GroupSummed;
    if MapsSummed(h) && h.sb.metadataCsum {
      forall group | 0 <= group < |h'.gds| ensures GroupSummed(h', group) {
        assert GroupSummed(h, group);
        SameSums(h, h', group);
      }
    }
  }

  /** Counting an allocation records the checksum of the new bitmap, and leaves the other one. */
  lemma CountedSums(h: Handle, h': Handle, group: nat, inodes: bool)
    requires group < |h.d.g.places| && h'.d.g == h.d.g && h.sb.metadataCsum && GroupSummed(h, group)
    requires Counted(h, h', group, if inodes then InodeMap(h'.d, group) else BlockMap(h'.d, group), inodes)
    requires if inodes then BlockMap(h'.d, group) == BlockMap(h.d, group)
             else InodeMap(h'.d, group) == InodeMap(h.d, group)
    ensures GroupSummed(h', group)
  {
    hide Blk, DescBytes, SuperBytes, Carries, UpdateDesc, UpdateSuper;
    var seed := h.sb.csumSeed;
    var bitmap := if inodes then InodeMap(h'.d, group) else BlockMap(h'.d, group);
    UpdatedDescCarries(
      DescBytes(h.d, group), seed, group, h.sb.is64bit, h'.gds[group].freeBlocks, h'.gds[group].freeInodes,
      BitmapChecksum(seed, bitmap), inodes, MapSum(seed, BlockMap(h.d, group)), MapSum(seed, InodeMap(h.d, group)));
  }

  lemma CountedOthers(h: Handle, h': Handle, group: nat, bitmap: seq<byte>, inodes: bool)
    requires Counted(h, h', group, bitmap, inodes)
    ensures |h'.gds| == |h.gds| && h'.sb.csumSeed == h.sb.csumSeed && h'.sb.is64bit == h.sb.is64bit
    ensures h'.sb.metadataCsum == h.sb.metadataCsum
    ensures forall j :: 0 <= j < |h.gds| && j != group ==> DescBytes(h'.d, j) == DescBytes(h.d, j)
  {
    hide DescBytes, SuperBytes, UpdateDesc, UpdateSuper;
  }

  /** A complete allocation keeps every descriptor's two checksums those of the bitmaps on the card. */
  lemma InodeSums(h: Handle, h': Handle, ino: nat)
    requires TookInode(h, h', ino) && MapsSummed(h)
    ensures MapsSummed(h')
  {
    hide Blk, Bit, DescBytes, Counted, Index, Group, GroupSummed, OneMore, FirstClear;
    var g := Group(h.d.g, ino);
    CountedOthers(h, h', g, InodeMap(h'.d, g), true);
    forall group | 0 <= group < |h'.gds| && h.sb.metadataCsum ensures GroupSummed(h', group) {
      assert GroupSummed(h, group);
      if group == g { CountedSums(h, h', g, true); } else { SameSums(h, h', group); }
    }
  }

  lemma BlockSums(h: Handle, h': Handle, b: nat)
    requires TookBlock(h, h', b) && MapsSummed(h)
    ensures MapsSummed(h')
  {
    hide Blk, Bit, DescBytes, Counted, BlockIndex, BlockGroup, GroupSummed, OneMore, FirstClear;
    var g := BlockGroup(h.d.g, b);
    CountedOthers(h, h', g, BlockMap(h'.d, g), false);
    forall group | 0 <= group < |h'.gds| && h.sb.metadataCsum ensures GroupSummed(h', group) {
      assert GroupSummed(h, group);
      if group == g { CountedSums(h, h', g, false); } else { SameSums(h, h', group); }
    }
  }

  // ---- distinctness ----

  /** What one step of a run takes. Any other operation takes nothing, and gives nothing back. */
  datatype Taken = AnInode(ino: nat) | ABlock(block: nat) | Nothing

  ghost predicate Takes(d: Disk, d': Disk, s: Taken) {
    match s
    case AnInode(ino) => InodeTaken(d, d', ino)
    case ABlock(b) => BlockTaken(d, d', b)
    case Nothing => d'.g == d.g && MapsKept(d, d')
  }

  ghost predicate IsRun(ds: seq<Disk>, steps: seq<Taken>) {
    |ds| == |steps| + 1 && forall i :: 0 <= i < |steps| ==> Takes(ds[i], ds[i + 1], steps[i])
  }

  lemma TakesKeeps(d: Disk, d': Disk, s: Taken)
    requires Takes(d, d', s)
    ensures d'.g == d.g && MapsKept(d, d')
  {
    hide Blk, Bit, Group, Index, BlockGroup, BlockIndex, OneMore, BitsKept;
    match s
    case AnInode(ino) =>
      OneMoreKept(InodeMap(d, Group(d.g, ino)), InodeMap(d', Group(d.g, ino)), Index(d.g, ino));
      forall group | 0 <= group < |d.g.places|
        ensures BitsKept(Blk(d, d.g.places[group].blockBitmap), Blk(d', d.g.places[group].blockBitmap))
        ensures BitsKept(Blk(d, d.g.places[group].inodeBitmap), Blk(d', d.g.places[group].inodeBitmap))
      {
        KeptRefl(InodeMap(d, group));
        KeptRefl(BlockMap(d, group));
        assert BlockMap(d', group) == BlockMap(d, group);
      }
    case ABlock(b) =>
      OneMoreKept(BlockMap(d, BlockGroup(d.g, b)), BlockMap(d', BlockGroup(d.g, b)), BlockIndex(d.g, b));
      forall group | 0 <= group < |d.g.places|
        ensures BitsKept(Blk(d, d.g.places[group].blockBitmap), Blk(d', d.g.places[group].blockBitmap))
        ensures BitsKept(Blk(d, d.g.places[group].inodeBitmap), Blk(d', d.g.places[group].inodeBitmap))
      {
        KeptRefl(InodeMap(d, group));
        KeptRefl(BlockMap(d, group));
        assert InodeMap(d', group) == InodeMap(d, group);
      }
    case Nothing =>
  }

  lemma KeptRefl(m: seq<byte>)
    ensures BitsKept(m, m)
  {
  }

  lemma OneMoreKept(m: seq<byte>, m': seq<byte>, k: nat)
    requires OneMore(m, m', k)
    ensures BitsKept(m, m')
  {
    hide Bit;
  }

  lemma MapsKeptTrans(d: Disk, d': Disk, d'': Disk)
    requires d'.g == d.g && MapsKept(d, d') && MapsKept(d', d'')
    ensures MapsKept(d, d'')
  {
    hide Blk, Bit;
  }

  lemma {:induction false} RunKeeps(ds: seq<Disk>, steps: seq<Taken>, i: nat, j: nat)
    requires IsRun(ds, steps) && i <= j < |ds|
    ensures ds[j].g == ds[i].g && MapsKept(ds[i], ds[j])
  {
    hide Takes, MapsKept;
    if i == j {
      SameMapsKept(ds[i]);
    } else {
      RunKeeps(ds, steps, i, j - 1);
      assert Takes(ds[j - 1], ds[j - 1 + 1], steps[j - 1]);
      TakesKeeps(ds[j - 1], ds[j], steps[j - 1]);
      MapsKeptTrans(ds[i], ds[j - 1], ds[j]);
    }
  }

  lemma SameMapsKept(d: Disk)
    ensures MapsKept(d, d)
  {
    hide Blk;
  }

  /** The number is free, or no number was taken. */
  ghost predicate IsFree(d: Disk, s: Taken) {
    match s
    case AnInode(ino) => ValidIno(d.g, ino) && !InodeUsed(d, ino)
    case ABlock(b) => Addressable(d.g, b) && !BlockUsed(d, b)
    case Nothing => true
  }

  lemma TakesFree(d: Disk, d': Disk, s: Taken)
    requires Takes(d, d', s)
    ensures IsFree(d, s) && (!s.Nothing? ==> !IsFree(d', s))
  {
    hide Blk, Bit, Group, Index, MapsKept;
    match s
    case AnInode(ino) =>
    case ABlock(b) =>
    case Nothing =>
  }

  lemma FreeBefore(d: Disk, d': Disk, s: Taken)
    requires d'.g == d.g && MapsKept(d, d') && IsFree(d', s)
    ensures IsFree(d, s)
  {
    hide Blk, Bit, Group, Index;
  }

  /** Over any run of allocations, with anything in between that frees nothing, no number is given out twice,
      and every one was free at the start. */
  lemma NeverTwice(ds: seq<Disk>, steps: seq<Taken>, i: nat, j: nat)
    requires IsRun(ds, steps) && i < j < |steps|
    ensures !steps[j].Nothing? ==> steps[i] != steps[j]
    ensures IsFree(ds[0], steps[j])
  {
    hide Takes, MapsKept, IsFree;
    assert Takes(ds[i], ds[i + 1], steps[i]) && Takes(ds[j], ds[j + 1], steps[j]);
    TakesFree(ds[i], ds[i + 1], steps[i]);
    TakesFree(ds[j], ds[j + 1], steps[j]);
    RunKeeps(ds, steps, i + 1, j);
    RunKeeps(ds, steps, 0, j);
    FreeBefore(ds[i + 1], ds[j], steps[j]);
    FreeBefore(ds[0], ds[j], steps[j]);
  }

  /** An inode that is given out is none of the first eleven, unless they lie in a later group. */
  lemma NeverReserved(h: Handle, h': Handle, ino: nat)
    requires TookInode(h, h', ino)
    ensures ino > 11 || ino > h.d.g.inodesPerGroup
  {
    hide Blk, Bit, Counted;
    var n := h.d.g.inodesPerGroup;
    if ino <= n {
      assert (ino - 1) / n == 0 && (ino - 1) % n == ino - 1 by { QuotientUnique(0, n, ino - 1); }
    }
  }

  // ---- runs of complete operations ----

  /** One complete allocation, or an operation that leaves the records alone. */
  ghost predicate Completes(h: Handle, h': Handle, s: Taken) {
    match s
    case AnInode(ino) => TookInode(h, h', ino)
    case ABlock(b) => TookBlock(h, h', b)
    case Nothing => h'.sb == h.sb && h'.gds == h.gds && h'.d.g == h.d.g && RecordsSame(h.d, h'.d)
  }

  /** Counts and bitmap checksums are those of the bitmaps on the card after every run, if they were before it. */
  lemma {:induction false} RunExact(hs: seq<Handle>, steps: seq<Taken>)
    requires |hs| == |steps| + 1 && Conserved(hs[0]) && MapsSummed(hs[0])
    requires forall i :: 0 <= i < |steps| ==> Completes(hs[i], hs[i + 1], steps[i])
    ensures Conserved(hs[|steps|]) && MapsSummed(hs[|steps|])
    decreases |steps|
  {
    hide Completes, Conserved, MapsSummed;
    var n := |steps|;
    if n > 0 {
      RunExact(hs[..n], steps[..n - 1]);
      assert Completes(hs[n - 1], hs[n - 1 + 1], steps[n - 1]);
      StepExact(hs[n - 1], hs[n], steps[n - 1]);
    }
  }

  lemma StepExact(h: Handle, h': Handle, s: Taken)
    requires Completes(h, h', s) && Conserved(h) && MapsSummed(h)
    ensures Conserved(h') && MapsSummed(h')
  {
    hide TookInode, TookBlock, RecordsSame, GroupSummed, GroupCounts, SumInodes, SumBlocks, Conserved;
    match s
    case AnInode(ino) => TookInodeKeeps(h, h', ino);
    case ABlock(b) => TookBlockKeeps(h, h', b);
    case Nothing =>
      ConservedKept(h, h');
      SummedKept(h, h');
  }

  // ---- what a later open finds ----

  lemma SuperReopens(s: seq<byte>, p: Superblock, inodes: bool)
    requires |s| == 1024 && ParseSuper(s) == Ok(p)
    ensures var q := CountedSuper(p, inodes);
            ParseSuper(UpdateSuper(s, q.is64bit, q.metadataCsum, q.freeBlocks, q.freeInodes)) == Ok(q)
  {
    hide UpdateSuper, ParseSuper;
    var q := CountedSuper(p, inodes);
    NarrowCount(s, p);
    ReopenedSuper(s, p, q.freeBlocks, q.freeInodes);
  }

  lemma NarrowCount(s: seq<byte>, p: Superblock)
    requires ParseSuper(s) == Ok(p)
    ensures !p.is64bit ==> p.freeBlocks < 0x1_0000_0000
  {
    hide Flag, SuperChecksum, Le16, Crc, BlockSize, Num;
  }

  /** After an allocation a later open agrees with the handle if and only if the high halves that it reads,
      of the counts and of the inode table's place, are those of the handle. */
  lemma ReopenAfter(h: Handle, h': Handle, group: nat, bitmap: seq<byte>, inodes: bool)
    requires Coherent(h) && Counted(h, h', group, bitmap, inodes) && h'.d.g == h.d.g
    ensures Coherent(h') <==>
            HighHalvesAgree(DescBytes(h.d, group), h.sb.is64bit, h.sb.metadataCsum, h'.gds[group].freeBlocks,
                            h'.gds[group].freeInodes, BitmapChecksum(h.sb.csumSeed, bitmap), inodes)
  {
    hide DescBytes, SuperBytes, ParseSuper, ParseDesc, UpdateSuper, UpdateDesc, HighHalvesAgree, BitmapChecksum;
    var gd := DescBytes(h.d, group);
    var fb, fi, w := h'.gds[group].freeBlocks, h'.gds[group].freeInodes, BitmapChecksum(h.sb.csumSeed, bitmap);
    SuperReopens(SuperBytes(h.d), h.sb, inodes);
    ReopenedDesc(gd, h.sb.csumSeed, group, h.sb.is64bit, h.sb.metadataCsum, fb, fi, w, inodes);
    assert h'.gds[group] == h.gds[group].(freeBlocks := fb, freeInodes := fi);
    assert ParseDesc(gd, h.sb.is64bit) == h.gds[group];
  }

  /** With 32-bit descriptors it always agrees. */
  lemma ReopenNarrow(h: Handle, h': Handle, group: nat, bitmap: seq<byte>, inodes: bool)
    requires Coherent(h) && Counted(h, h', group, bitmap, inodes) && h'.d.g == h.d.g && !h.sb.is64bit
    ensures Coherent(h')
  {
    hide DescBytes, SuperBytes, ParseSuper, UpdateSuper, UpdateDesc, BitmapChecksum, Coherent, Le16, Le32;
    ReopenAfter(h, h', group, bitmap, inodes);
    CoherentAt(h, group);
  }

  lemma CoherentAt(h: Handle, group: nat)
    requires Coherent(h) && group < |h.gds|
    ensures ParseDesc(DescBytes(h.d, group), h.sb.is64bit) == h.gds[group]
  {
    hide DescBytes, SuperBytes, ParseSuper, ParseDesc;
  }

  /** What a complete allocation keeps: exact counts, and with 32-bit descriptors the agreement with a later open. */
  lemma TookInodeKeeps(h: Handle, h': Handle, ino: nat)
    requires TookInode(h, h', ino)
    ensures h'.sb.is64bit == h.sb.is64bit
    ensures Coherent(h) && !h.sb.is64bit ==> Coherent(h')
    ensures Conserved(h) ==> Conserved(h')
    ensures MapsSummed(h) ==> MapsSummed(h')
  {
    hide MapsSummed, Coherent, Conserved, Group, Index, FirstClear, DescBytes, SuperBytes, Blk, Bit, UpdateDesc,
      UpdateSuper;
    if Coherent(h) && !h.sb.is64bit {
      ReopenNarrow(h, h', Group(h.d.g, ino), InodeMap(h'.d, Group(h.d.g, ino)), true);
    }
    if Conserved(h) { InodeConserves(h, h', ino); }
    if MapsSummed(h) { InodeSums(h, h', ino); }
  }

  lemma TookBlockKeeps(h: Handle, h': Handle, b: nat)
    requires TookBlock(h, h', b)
    ensures h'.sb.is64bit == h.sb.is64bit
    ensures Coherent(h) && !h.sb.is64bit ==> Coherent(h')
    ensures Conserved(h) ==> Conserved(h')
    ensures MapsSummed(h) ==> MapsSummed(h')
  {
    hide MapsSummed, Coherent, Conserved, BlockGroup, BlockIndex, FirstClear, DescBytes, SuperBytes, Blk, Bit,
      UpdateDesc, UpdateSuper;
    if Coherent(h) && !h.sb.is64bit {
      ReopenNarrow(h, h', BlockGroup(h.d.g, b), BlockMap(h'.d, BlockGroup(h.d.g, b)), false);
    }
    if Conserved(h) { BlockConserves(h, h', b); }
    if MapsSummed(h) { BlockSums(h, h', b); }
  }
}
