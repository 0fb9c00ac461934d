/** What an open handle holds, and what the driver's operations amount to in those terms. */
module Handles {
  import opened Bytes
  import opened Bitmap
  import opened Directory
  import opened Disk
  import opened Inode
  import opened Extents
  import opened Volume
  import opened Frames
  import opened Slots
  import opened Metadata
  import opened Reads
  import opened Paths
  import opened Descs
  import opened Alloc
  import opened Publish
  import opened Staging

  /** The places in a handle's descriptors. */
  function PlacesOf(gds: seq<GroupDesc>): (r: seq<Places>)
    ensures |r| == |gds|
  {
    seq(|gds|, i requires 0 <= i < |gds| => Places(gds[i].blockBitmap, gds[i].inodeBitmap, gds[i].inodeTable))
  }

  function GeoOf(start: nat, sb: Superblock, gds: seq<GroupDesc>): Geo {
    Geo(start, sb.blockCount, sb.blockSize, sb.blocksPerGroup, sb.inodesPerGroup, sb.inodeSize, sb.descSize,
        sb.is64bit, sb.hasExtents, sb.metadataCsum, sb.csumSeed, PlacesOf(gds))
  }

  function Less(n: u32): u32 { if n == 0 then 0 else n - 1 }

  /** The descriptors and the superblock after one more allocation in `group`. */
  function CountedDescs(gds: seq<GroupDesc>, group: nat, inodes: bool): (r: seq<GroupDesc>)
    requires group < |gds|
    ensures |r| == |gds|
  {
    gds[group := if inodes then gds[group].(freeInodes := Less(gds[group].freeInodes))
                 else gds[group].(freeBlocks := Less(gds[group].freeBlocks))]
  }

  function CountedSuper(sb: Superblock, inodes: bool): Superblock {
    if inodes then sb.(freeInodes := Less(sb.freeInodes))
    else sb.(freeBlocks := if sb.freeBlocks == 0 then 0 else sb.freeBlocks - 1)
  }

  lemma CountsKeepGeo(start: nat, sb: Superblock, gds: seq<GroupDesc>, group: nat, inodes: bool)
    requires group < |gds|
    ensures GeoOf(start, CountedSuper(sb, inodes), CountedDescs(gds, group, inodes)) == GeoOf(start, sb, gds)
  {
    assert PlacesOf(CountedDescs(gds, group, inodes)) == PlacesOf(gds);
  }

  /** What an open handle holds and sees. */
  datatype Handle = Handle(d: Disk, sb: Superblock, gds: seq<GroupDesc>)

  /** The descriptor bytes that record a handle's counts and the checksum of a bitmap. */
  function NewDesc(d: Disk, sb: Superblock, gds: seq<GroupDesc>, group: nat, bitmap: seq<byte>,
                   inodes: bool): (r: seq<byte>)
    requires group < |gds| && group < 0x1_0000_0000
  {
    UpdateDesc(DescBytes(d, group), sb.csumSeed, group, sb.is64bit, sb.metadataCsum,
               gds[group].freeBlocks, gds[group].freeInodes, BitmapChecksum(sb.csumSeed, bitmap), inodes)
  }

  function NewSuper(d: Disk, sb: Superblock): (s: seq<byte>)
    ensures |s| == 1024
  {
    UpdateSuper(SuperBytes(d), sb.is64bit, sb.metadataCsum, sb.freeBlocks, sb.freeInodes)
  }

  /** One more allocation in `group` is counted in the handle. */
  ghost predicate Tallied(h: Handle, h': Handle, group: nat, inodes: bool) {
    group < |h.gds| && h'.gds == CountedDescs(h.gds, group, inodes) && h'.sb == CountedSuper(h.sb, inodes)
  }

  /** The handle has counted the allocation, or has not come to that. */
  ghost predicate Halfway(h: Handle, h': Handle, group: nat, inodes: bool) {
    (h'.gds == h.gds && h'.sb == h.sb) || Tallied(h, h', group, inodes)
  }

  /** Each of the two records is either as it was or rewritten from the handle. */
  ghost predicate PartlyRecorded(d: Disk, d': Disk, sb: Superblock, gds: seq<GroupDesc>, group: nat, bitmap: seq<byte>,
                                 inodes: bool)
    requires group < |gds| && group < 0x1_0000_0000
  {
    && (DescBytes(d', group) == DescBytes(d, group)
        || DescBytes(d', group) == NewDesc(d, sb, gds, group, bitmap, inodes))
    && (SuperBytes(d') == SuperBytes(d) || SuperBytes(d') == NewSuper(d, sb))
    && (forall j :: 0 <= j < |gds| && j != group ==> DescBytes(d', j) == DescBytes(d, j))
  }

  /** One allocation in `group` is counted in the handle, and recorded in its descriptor and the superblock. */
  ghost predicate Counted(h: Handle, h': Handle, group: nat, bitmap: seq<byte>, inodes: bool) {
    && group < |h.gds| && group < 0x1_0000_0000
    && h'.gds == CountedDescs(h.gds, group, inodes) && h'.sb == CountedSuper(h.sb, inodes)
    && DescBytes(h'.d, group) == NewDesc(h.d, h'.sb, h'.gds, group, bitmap, inodes)
    && (forall j :: 0 <= j < |h.gds| && j != group ==> DescBytes(h'.d, j) == DescBytes(h.d, j))
    && SuperBytes(h'.d) == NewSuper(h.d, h'.sb)
  }

  /** Every descriptor passes the reader's checksum test, and a later open accepts the superblock. */
  ghost predicate Sealed(h: Handle) {
    && (h.sb.metadataCsum ==>
          forall j :: 0 <= j < |h.gds| && j < 0x1_0000_0000 ==> DescMatches(h.sb.csumSeed, j, DescBytes(h.d, j)))
    && ParseSuper(SuperBytes(h.d)).Ok?
    && ParseSuper(SuperBytes(h.d)).value.is64bit == h.sb.is64bit
    && ParseSuper(SuperBytes(h.d)).value.metadataCsum == h.sb.metadataCsum
  }

  /** A later open would come to the same counts and the same places. */
  ghost predicate Coherent(h: Handle) {
    && |h.gds| == |h.d.g.places|
    && ParseSuper(SuperBytes(h.d)) == Ok(h.sb)
    && (forall group :: 0 <= group < |h.gds| ==> ParseDesc(DescBytes(h.d, group), h.sb.is64bit) == h.gds[group])
  }

  /** A later open would come to the same places; the counts may differ. */
  ghost predicate Kindred(h: Handle) {
    && |h.gds| == |h.d.g.places|
    && ParseSuper(SuperBytes(h.d)).Ok? && BareSuper(ParseSuper(SuperBytes(h.d)).value) == BareSuper(h.sb)
    && (forall group :: 0 <= group < |h.gds| ==>
          BareDesc(ParseDesc(DescBytes(h.d, group), h.sb.is64bit)) == BareDesc(h.gds[group]))
  }

  lemma CoherentKindred(h: Handle)
    requires Coherent(h)
    ensures Kindred(h)
  {
    hide DescBytes, SuperBytes, ParseSuper, ParseDesc;
  }

  /** With 32-bit descriptors an allocation keeps that, however far it gets. */
  lemma KindredThen(h: Handle, h': Handle, group: nat, bitmap: seq<byte>, inodes: bool)
    requires group < |h.gds| && group < 0x1_0000_0000 && Tallied(h, h', group, inodes) && |h'.d.g.places| == |h.gds|
    requires PartlyRecorded(h.d, h'.d, h'.sb, h'.gds, group, bitmap, inodes) && !h.sb.is64bit
    ensures Kindred(h) ==> Kindred(h')
  {
    hide DescBytes, SuperBytes, ParseSuper, ParseDesc, UpdateSuper, UpdateDesc, BitmapChecksum;
    if Kindred(h) {
      RewrittenPlaces(DescBytes(h.d, group), h'.sb.csumSeed, group, h'.sb.metadataCsum, h'.gds[group].freeBlocks,
                      h'.gds[group].freeInodes, BitmapChecksum(h'.sb.csumSeed, bitmap), inodes);
      ReopenedSuper(SuperBytes(h.d), ParseSuper(SuperBytes(h.d)).value, h'.sb.freeBlocks, h'.sb.freeInodes);
    }
  }

  /** Whichever of the two records has been rewritten so far, all still pass. */
  lemma SealedThen(h: Handle, h': Handle, group: nat, bitmap: seq<byte>, inodes: bool)
    requires group < |h.gds| == |h'.gds| && group < 0x1_0000_0000 && h'.sb == CountedSuper(h.sb, inodes)
    requires PartlyRecorded(h.d, h'.d, h'.sb, h'.gds, group, bitmap, inodes)
    ensures Sealed(h) ==> Sealed(h')
  {
    hide DescBytes, SuperBytes, ParseSuper, UpdateSuper, UpdateDesc, DescMatches, BitmapChecksum;
    if Sealed(h) {
      if h.sb.metadataCsum {
        UpdatedDescMatches(DescBytes(h.d, group), h'.sb.csumSeed, group, h'.sb.is64bit, h'.gds[group].freeBlocks,
                           h'.gds[group].freeInodes, BitmapChecksum(h'.sb.csumSeed, bitmap), inodes);
      }
      ReopenedSuper(SuperBytes(h.d), ParseSuper(SuperBytes(h.d)).value, h'.sb.freeBlocks, h'.sb.freeInodes);
    }
  }

  /** Counting starts from the same records whether or not the bitmap is already written. */
  lemma CountedFrom(h: Handle, h1: Handle, h': Handle, group: nat, bitmap: seq<byte>, inodes: bool)
    requires h1.sb == h.sb && h1.gds == h.gds && h1.d.g == h.d.g && |h.d.g.places| == |h.gds| && DescsSame(h.d, h1.d)
    ensures (Sealed(h) ==> Sealed(h1)) && (Kindred(h) ==> Kindred(h1))
    ensures Counted(h1, h', group, bitmap, inodes) ==> Counted(h, h', group, bitmap, inodes)
  {
    hide DescBytes, SuperBytes, ParseSuper, UpdateSuper, UpdateDesc, DescMatches, BitmapChecksum, CountedDescs,
      CountedSuper, ParseDesc;
  }

  lemma MapOwned(g: Geo, roles: Roles, group: nat, count: nat)
    requires Layout(g, roles) && group < |g.places| && forall b :: b in roles ==> b < count
    ensures g.places[group].inodeBitmap < count && IsMap(roles, g.places[group].inodeBitmap)
    ensures g.places[group].blockBitmap < count && IsMap(roles, g.places[group].blockBitmap)
  {
    hide DescBlock, SlotPlaced;
    assert GroupPlaced(g, roles, group);
  }

  lemma InodeNumberBound(g: Geo, group: nat, k: nat)
    requires Sizes(g) && group < |g.places| && k < g.inodesPerGroup
    ensures InodeNumber(g, group, k) < 0x1_0000_0000
  {
    hide Sizes;
    MulNext(group, |g.places|, g.inodesPerGroup);
    SizesBound(g);
  }

  lemma SizesBound(g: Geo)
    requires Sizes(g)
    ensures |g.places| * g.inodesPerGroup < 0x1_0000_0000
  {
  }

  const FIRST_INODE_BIT := 11

  /** The bits of a group that may be given out: the reserved inodes of the first group are not. */
  function StartBit(group: nat): nat { if group == 0 then FIRST_INODE_BIT else 0 }

  /** Inode `ino`, the first eligible one of its group, is taken, and counted. */
  ghost predicate TookInode(h: Handle, h': Handle, ino: nat) {
    && InodeTaken(h.d, h'.d, ino) && Group(h.d.g, ino) < |h.gds|
    && var group := Group(h.d.g, ino);
       && FirstClear(InodeMap(h.d, group), StartBit(group), h.d.g.inodesPerGroup, Index(h.d.g, ino))
       && Counted(h, h', group, InodeMap(h'.d, group), true)
  }

  /** What committing the first clear bit of a group's inode bitmap amounts to. */
  lemma TakesInode(h: Handle, h': Handle, roles: Roles, group: nat, k: nat)
    requires Layout(h.d.g, roles) && group < |h.d.g.places| == |h.gds| && InRange(h.d, h.d.g.places[group].inodeBitmap)
    requires FirstClear(InodeMap(h.d, group), StartBit(group), h.d.g.inodesPerGroup, k)
    requires |InodeMap(h.d, group)| == h.d.g.blockSize
    requires var bitmap := SetBit(InodeMap(h.d, group), k);
             var d1 := WithBlk(h.d, h.d.g.places[group].inodeBitmap, bitmap);
             SameShape(d1, h'.d) && MapsSame(d1, h'.d) && Counted(h, h', group, bitmap, true)
    ensures TookInode(h, h', InodeNumber(h.d.g, group, k)) && Group(h.d.g, InodeNumber(h.d.g, group, k)) == group
  {
    hide Blk, Bit, WithBlk, SetBit, Counted, MapsSame, Group, Index, InodeTaken, DescBlock, SlotPlaced, GroupPlaced,
      SuperBlock, InRange, NoneClear;
    var b, bitmap := h.d.g.places[group].inodeBitmap, SetBit(InodeMap(h.d, group), k);
    var d1 := WithBlk(h.d, b, bitmap);
    InodeBitWritten(h.d, roles, group, k);
    InodeNumberDecodes(h.d.g, group, k);
    InodeTakenThen(h.d, d1, h'.d, InodeNumber(h.d.g, group, k));
    WithBlkFrame(h.d, b, bitmap);
    SameMapAt(d1, h'.d, group);
  }

  /** An allocation that stopped after the bitmap: inode `ino` is marked, and counted in the handle or not. */
  ghost predicate HalfInode(h: Handle, h': Handle, ino: nat) {
    InodeTaken(h.d, h'.d, ino) && Group(h.d.g, ino) < |h.gds| && Halfway(h, h', Group(h.d.g, ino), true)
  }

  /** How an inode allocation that failed has ended. */
  ghost predicate StoppedInode(h: Handle, h': Handle) {
    h' == h || exists ino: nat :: HalfInode(h, h', ino)
  }

  lemma StopsInode(h: Handle, h': Handle, roles: Roles, group: nat, k: nat)
    requires Layout(h.d.g, roles) && group < |h.d.g.places| == |h.gds| && InRange(h.d, h.d.g.places[group].inodeBitmap)
    requires FirstClear(InodeMap(h.d, group), StartBit(group), h.d.g.inodesPerGroup, k)
    requires |InodeMap(h.d, group)| == h.d.g.blockSize
    requires var d1 := WithBlk(h.d, h.d.g.places[group].inodeBitmap, SetBit(InodeMap(h.d, group), k));
             SameShape(d1, h'.d) && MapsSame(d1, h'.d) && Halfway(h, h', group, true)
    ensures HalfInode(h, h', InodeNumber(h.d.g, group, k)) && StoppedInode(h, h')
  {
    hide Blk, Bit, WithBlk, SetBit, Halfway, MapsSame, Group, Index, InodeTaken, DescBlock, SlotPlaced, GroupPlaced,
      SuperBlock, InRange, NoneClear;
    var d1 := WithBlk(h.d, h.d.g.places[group].inodeBitmap, SetBit(InodeMap(h.d, group), k));
    InodeBitWritten(h.d, roles, group, k);
    InodeNumberDecodes(h.d.g, group, k);
    InodeTakenThen(h.d, d1, h'.d, InodeNumber(h.d.g, group, k));
  }

  lemma SameMapAt(d: Disk, d': Disk, group: nat)
    requires SameShape(d, d') && MapsSame(d, d') && group < |d.g.places|
    ensures InodeMap(d', group) == InodeMap(d, group) && BlockMap(d', group) == BlockMap(d, group)
  {
    hide Blk;
  }

  /** Block `b`, the first free one of its group, is taken, and counted. */
  ghost predicate TookBlock(h: Handle, h': Handle, b: nat) {
    && BlockTaken(h.d, h'.d, b) && BlockGroup(h.d.g, b) < |h.gds|
    && var group := BlockGroup(h.d.g, b);
       && FirstClear(BlockMap(h.d, group), 0, h.d.g.blocksPerGroup, BlockIndex(h.d.g, b))
       && Counted(h, h', group, BlockMap(h'.d, group), false)
  }

  /** What committing the first clear bit of a group's block bitmap amounts to. */
  lemma TakesBlock(h: Handle, h': Handle, roles: Roles, group: nat, k: nat)
    requires Layout(h.d.g, roles) && group < |h.d.g.places| == |h.gds| && InRange(h.d, h.d.g.places[group].blockBitmap)
    requires FirstClear(BlockMap(h.d, group), 0, h.d.g.blocksPerGroup, k)
    requires |BlockMap(h.d, group)| == h.d.g.blockSize
    requires var bitmap := SetBit(BlockMap(h.d, group), k);
             var d1 := WithBlk(h.d, h.d.g.places[group].blockBitmap, bitmap);
             SameShape(d1, h'.d) && MapsSame(d1, h'.d) && Counted(h, h', group, bitmap, false)
    ensures TookBlock(h, h', BlockNumber(h.d.g, group, k)) && BlockGroup(h.d.g, BlockNumber(h.d.g, group, k)) == group
  {
    hide Blk, Bit, WithBlk, SetBit, Counted, MapsSame, BlockGroup, BlockIndex, BlockTaken, DescBlock, SlotPlaced,
      GroupPlaced, SuperBlock, InRange, NoneClear;
    var b, bitmap := h.d.g.places[group].blockBitmap, SetBit(BlockMap(h.d, group), k);
    var d1 := WithBlk(h.d, b, bitmap);
    BlockBitWritten(h.d, roles, group, k);
    BlockNumberDecodes(h.d.g, group, k);
    BlockTakenThen(h.d, d1, h'.d, BlockNumber(h.d.g, group, k));
    WithBlkFrame(h.d, b, bitmap);
    SameMapAt(d1, h'.d, group);
  }

  /** The same for a block. */
  ghost predicate HalfBlock(h: Handle, h': Handle, b: nat) {
    BlockTaken(h.d, h'.d, b) && BlockGroup(h.d.g, b) < |h.gds| && Halfway(h, h', BlockGroup(h.d.g, b), false)
  }

  ghost predicate StoppedBlock(h: Handle, h': Handle) {
    h' == h || exists b: nat :: HalfBlock(h, h', b)
  }

  lemma StopsBlock(h: Handle, h': Handle, roles: Roles, group: nat, k: nat)
    requires Layout(h.d.g, roles) && group < |h.d.g.places| == |h.gds| && InRange(h.d, h.d.g.places[group].blockBitmap)
    requires FirstClear(BlockMap(h.d, group), 0, h.d.g.blocksPerGroup, k)
    requires |BlockMap(h.d, group)| == h.d.g.blockSize
    requires var d1 := WithBlk(h.d, h.d.g.places[group].blockBitmap, SetBit(BlockMap(h.d, group), k));
             SameShape(d1, h'.d) && MapsSame(d1, h'.d) && Halfway(h, h', group, false)
    ensures HalfBlock(h, h', BlockNumber(h.d.g, group, k)) && StoppedBlock(h, h')
  {
    hide Blk, Bit, WithBlk, SetBit, Halfway, MapsSame, BlockGroup, BlockIndex, BlockTaken, DescBlock, SlotPlaced,
      GroupPlaced, SuperBlock, InRange, NoneClear;
    var d1 := WithBlk(h.d, h.d.g.places[group].blockBitmap, SetBit(BlockMap(h.d, group), k));
    BlockBitWritten(h.d, roles, group, k);
    BlockNumberDecodes(h.d.g, group, k);
    BlockTakenThen(h.d, d1, h'.d, BlockNumber(h.d.g, group, k));
  }

  /** The group has no inode to give: its count is zero or its eligible bits are all set. */
  ghost predicate NoInodeIn(h: Handle, group: nat) {
    group < |h.gds| && group < |h.d.g.places| ==>
      h.gds[group].freeInodes == 0 || NoneClear(InodeMap(h.d, group), StartBit(group), h.d.g.inodesPerGroup)
  }

  ghost predicate NoInodes(h: Handle) { forall group :: 0 <= group < |h.gds| ==> NoInodeIn(h, group) }

  ghost predicate NoBlockIn(h: Handle, group: nat) {
    group < |h.gds| && group < |h.d.g.places| ==>
      h.gds[group].freeBlocks == 0 || NoneClear(BlockMap(h.d, group), 0, h.d.g.blocksPerGroup)
  }

  ghost predicate NoBlocks(h: Handle) { forall group :: 0 <= group < |h.gds| ==> NoBlockIn(h, group) }

  /** The group that the search visits in its `o`-th turn. */
  function Turn(preferred: nat, o: nat, n: nat): (group: nat)
    requires 0 < n
    ensures group < n
  {
    (preferred + o) % n
  }

  /** Going round from the preferred group, `group` is the first that has an inode to give. */
  ghost predicate FirstWithInode(h: Handle, preferred: nat, group: nat) {
    && !NoInodeIn(h, group)
    && exists o :: 0 <= o < |h.gds| && Turn(preferred, o, |h.gds|) == group
                   && forall p :: 0 <= p < o ==> NoInodeIn(h, Turn(preferred, p, |h.gds|))
  }

  /** The same for blocks. */
  ghost predicate FirstWithBlock(h: Handle, preferred: nat, group: nat) {
    && !NoBlockIn(h, group)
    && exists o :: 0 <= o < |h.gds| && Turn(preferred, o, |h.gds|) == group
                   && forall p :: 0 <= p < o ==> NoBlockIn(h, Turn(preferred, p, |h.gds|))
  }

  /** Going round all groups from any start visits each of them. */
  lemma RoundTo(preferred: nat, n: nat, group: nat) returns (o: nat)
    requires group < n
    ensures o < n && Turn(preferred, o, n) == group
  {
    var p, q := preferred % n, preferred / n;
    assert preferred == q * n + p;
    if group >= p {
      o := group - p;
      QuotientUnique(q, n, group);
    } else {
      o := group + n - p;
      assert (q + 1) * n == q * n + n;
      QuotientUnique(q + 1, n, group);
    }
  }

  lemma NoInodesAtAll(h: Handle, preferred: nat)
    requires 0 < |h.gds| && forall o :: 0 <= o < |h.gds| ==> NoInodeIn(h, Turn(preferred, o, |h.gds|))
    ensures NoInodes(h)
  {
    hide NoInodeIn, Turn;
    forall group | 0 <= group < |h.gds| ensures NoInodeIn(h, group) {
      var o := RoundTo(preferred, |h.gds|, group);
    }
  }

  lemma NoBlocksAtAll(h: Handle, preferred: nat)
    requires 0 < |h.gds| && forall o :: 0 <= o < |h.gds| ==> NoBlockIn(h, Turn(preferred, o, |h.gds|))
    ensures NoBlocks(h)
  {
    hide NoBlockIn, Turn;
    forall group | 0 <= group < |h.gds| ensures NoBlockIn(h, group) {
      var o := RoundTo(preferred, |h.gds|, group);
    }
  }

  lemma InodeWasThere(h: Handle, h': Handle, ino: nat)
    requires TookInode(h, h', ino) && h.gds[Group(h.d.g, ino)].freeInodes != 0
    ensures !NoInodeIn(h, Group(h.d.g, ino)) && !NoInodes(h)
  {
    hide Blk, Bit, Counted, Group, Index;
    var group := Group(h.d.g, ino);
    var k := Index(h.d.g, ino);
    assert FirstClear(InodeMap(h.d, group), StartBit(group), h.d.g.inodesPerGroup, k);
    assert !NoInodeIn(h, group);
  }

  lemma BlockWasThere(h: Handle, h': Handle, b: nat)
    requires TookBlock(h, h', b) && h.gds[BlockGroup(h.d.g, b)].freeBlocks != 0
    ensures !NoBlockIn(h, BlockGroup(h.d.g, b)) && !NoBlocks(h)
  {
    hide Blk, Bit, Counted, BlockGroup, BlockIndex;
    var group := BlockGroup(h.d.g, b);
    var k := BlockIndex(h.d.g, b);
    assert FirstClear(BlockMap(h.d, group), 0, h.d.g.blocksPerGroup, k);
    assert !NoBlockIn(h, group);
  }

  /** The insertion into a live directory, as far as it went: in the first block, in file order, that has room. */
  ghost predicate Added(d: Disk, d': Disk, trees: Trees, parent: u32, at: nat, child: u32, name: seq<byte>, now: u32,
                        ok: bool)
  {
    && parent in trees && Inserted(d, d', InodeAt(d, parent), trees[parent], at, child, name, now, ok)
    && forall m :: 0 <= m < at ==> Crowded(d, DataBlocks(trees[parent]), m, name)
  }

  ghost predicate RoomFor(d: Disk, trees: Trees, parent: nat, name: seq<byte>) {
    parent in trees && HasRoomFor(d, trees[parent], name)
  }

  /** `data` is the whole contents of a directory of well-formed blocks. */
  ghost predicate DirView(d: Disk, t: Tree, data: seq<byte>) {
    && data == Concat(d, DataBlocks(t))
    && forall b :: b in DataBlocks(t) ==>
         b < d.g.blockCount && |Blk(d, b)| == d.g.blockSize && BlockOk(Blk(d, b), d.g.csum)
  }

  lemma DirViewAt(d: Disk, t: Tree, data: seq<byte>, j: nat)
    requires DirView(d, t, data) && j < |DataBlocks(t)| && 0 < d.g.blockSize
    ensures var b, s := DataBlocks(t)[j], j * d.g.blockSize;
            && 0 <= s < s + d.g.blockSize <= |data| && data[s..s + d.g.blockSize] == Blk(d, b)
            && b < d.g.blockCount && |Blk(d, b)| == d.g.blockSize && BlockOk(Blk(d, b), d.g.csum)
  {
    hide Blk, BlockOk, Concat, DataBlocks;
    ConcatSlice(d, DataBlocks(t), d.g.blockSize, j);
  }

  /** Some block of the directory has room for the name. */
  ghost predicate HasRoomFor(d: Disk, t: Tree, name: seq<byte>) {
    exists j :: 0 <= j < |DataBlocks(t)| && RoomIn(Blk(d, DataBlocks(t)[j]), d.g.csum, name)
  }

  /** The `m`-th of these blocks, if there is one, has no room for the name. */
  ghost predicate Crowded(d: Disk, blocks: seq<nat>, m: nat, name: seq<byte>) {
    m < |blocks| ==> !RoomIn(Blk(d, blocks[m]), d.g.csum, name)
  }

  /** Extent `e` covers the blocks from the `first`-th on. */
  predicate Covers(blocks: seq<nat>, first: nat, e: Extent) {
    first + e.length <= |blocks| && blocks[first..first + e.length] == Run(e)
  }

  lemma CoversAt(blocks: seq<nat>, first: nat, e: Extent, i: nat)
    requires Covers(blocks, first, e) && i < e.length
    ensures first + i < |blocks| && blocks[first + i] == e.physical + i
  {
    assert blocks[first..first + e.length][i] == Run(e)[i];
  }

  lemma RunsFrom(es: seq<Extent>, k: nat)
    requires k < |es|
    ensures Covers(Runs(es), |Runs(es[..k])|, es[k])
    ensures |Runs(es[..k + 1])| == |Runs(es[..k])| + es[k].length
  {
    hide Runs, Run;
    RunsOne(es, k);
    RunsSplit(es, k + 1);
  }

  lemma NoRoomAtAll(d: Disk, t: Tree, name: seq<byte>)
    requires forall m :: 0 <= m < |DataBlocks(t)| ==> Crowded(d, DataBlocks(t), m, name)
    ensures !HasRoomFor(d, t, name)
  {
    hide RoomIn, Blk, DataBlocks;
    forall j | 0 <= j < |DataBlocks(t)| ensures !RoomIn(Blk(d, DataBlocks(t)[j]), d.g.csum, name) {
      assert Crowded(d, DataBlocks(t), j, name);
    }
  }

  lemma RunsNone(es: seq<Extent>)
    ensures Runs(es[..0]) == []
  {
  }

  lemma NoBlocksKept(h: Handle, h': Handle, ino: nat)
    requires TookInode(h, h', ino)
    ensures NoBlocks(h') <==> NoBlocks(h)
  {
    hide Blk, Bit, Group, Index, DescBytes, SuperBytes, NoneClear, FirstClear, OneMore;
    assert forall group :: 0 <= group < |h.gds| ==> NoBlockIn(h', group) == NoBlockIn(h, group);
  }

  lemma TookInodeFacts(h: Handle, h': Handle, ino: nat)
    requires TookInode(h, h', ino)
    ensures InodeTaken(h.d, h'.d, ino) && h'.sb.blockSize == h.sb.blockSize
  {
    hide InodeTaken, FirstClear, Group, Index, DescBytes, SuperBytes;
  }

  lemma TookBlockFacts(h: Handle, h': Handle, b: nat)
    requires TookBlock(h, h', b)
    ensures BlockTaken(h.d, h'.d, b)
  {
    hide BlockTaken, FirstClear, DescBytes, SuperBytes;
  }

  lemma BlockFresh(d: Disk, d': Disk, roles: Roles, trees: Trees, b: nat)
    requires WellFormed(d, roles, trees) && BlockTaken(d, d', b)
    ensures b < 0x1_0000_0000 && FreshBlock(d', roles, Some(b))
  {
    hide Layout, Marked, Live, Fits, BlockUsed, BlockTaken;
    FewBlocks(d);
    TakenBlockFree(d, d', roles, b);
    TakenGeo(d, d', b);
  }

  lemma TakenGeo(d: Disk, d': Disk, b: nat)
    requires BlockTaken(d, d', b)
    ensures d'.g == d.g
  {
    hide Blk, Bit;
  }

  lemma InodeStillUsed(d: Disk, d': Disk, roles: Roles, ino: nat)
    requires Grown(d, d', roles) && InodeUsed(d, ino)
    ensures InodeUsed(d', ino)
  {
    hide Blk, InodeUsed, MapsKept;
    InodeUsedKept(d, d', ino);
  }

  /** The path leads to a directory, and what it lists. */
  ghost predicate IsDirAt(d: Disk, trees: Trees, w: Walk) {
    w.At? && w.ino in trees && InodeAt(d, w.ino).IsDirectory()
  }

  ghost function EntriesAt(d: Disk, trees: Trees, w: Walk): seq<DirEntry>
    requires IsDirAt(d, trees, w)
  {
    Entries(d, trees[w.ino])
  }

  /** A path leads to a regular file that has extents, and what it holds. */
  ghost predicate IsFileAt(d: Disk, trees: Trees, w: Walk) {
    w.At? && w.ino in trees && InodeAt(d, w.ino).IsRegular() && InodeAt(d, w.ino).HasExtents()
  }

  ghost function ContentAt(d: Disk, trees: Trees, w: Walk): seq<byte>
    requires IsFileAt(d, trees, w)
  {
    FileData(d, InodeAt(d, w.ino).size, trees[w.ino])
  }

  /** A file was created in the directory that the driver finds at the path, where the name was not listed. */
  ghost predicate CreatedAt(d: Disk, d': Disk, trees: Trees, trees': Trees, parts: seq<seq<byte>>, child: u32,
                            name: seq<byte>, data: seq<byte>, now: u32)
  {
    var w := Follow(d, trees, parts);
    && IsDirAt(d, trees, w) && Find(EntriesAt(d, trees, w), name).None?
    && Created(d, d', trees, trees', w.ino, child, name, data, now)
  }

  /** The inode, and the block if there is one, come from the first groups that have any, beginning with `group`. */
  ghost predicate Nearest(h: Handle, group: nat, ino: u32, block: Option<u32>) {
    && ValidIno(h.d.g, ino) && FirstWithInode(h, group, Group(h.d.g, ino))
    && (block.Some? ==>
          Addressable(h.d.g, block.value) && FirstWithBlock(h, group, BlockGroup(h.d.g, block.value)))
  }

  /** A file was created, with the nearest inode and block, and the directory's times are set. */
  ghost predicate CompletedIn(h: Handle, d': Disk, trees: Trees, trees': Trees, parent: u32, child: u32,
                              name: seq<byte>, data: seq<byte>, now: u32)
  {
    && Created(h.d, d', trees, trees', parent, child, name, data, now) && TimesAre(InodeAt(d', parent).raw, now)
    && exists block :: Placed(h, trees', parent, child, block)
  }

  /** So it was in the directory that the driver finds at the path, where the name was not listed. */
  ghost predicate CompletedAt(h: Handle, d': Disk, trees: Trees, trees': Trees, parts: seq<seq<byte>>, child: u32,
                              name: seq<byte>, data: seq<byte>, now: u32)
  {
    var w := Follow(h.d, trees, parts);
    && IsDirAt(h.d, trees, w) && Find(EntriesAt(h.d, trees, w), name).None?
    && CompletedIn(h, d', trees, trees', w.ino, child, name, data, now)
  }

  ghost predicate Placed(h: Handle, trees': Trees, parent: u32, child: u32, block: Option<u32>) {
    && ValidIno(h.d.g, parent) && child in trees'
    && Nearest(h, Group(h.d.g, parent), child, block) && trees'[child] == FileTree(h.d.g.hasExtents, block)
  }

  lemma ThenCompleted(h: Handle, d': Disk, trees: Trees, trees': Trees, parent: u32, child: u32, block: Option<u32>,
                      name: seq<byte>, data: seq<byte>, now: u32)
    requires Created(h.d, d', trees, trees', parent, child, name, data, now) && TimesAre(InodeAt(d', parent).raw, now)
    requires ValidIno(h.d.g, parent) && Nearest(h, Group(h.d.g, parent), child, block)
    requires child in trees' && trees'[child] == FileTree(h.d.g.hasExtents, block)
    ensures CompletedIn(h, d', trees, trees', parent, child, name, data, now)
  {
    hide Nearest, TimesAre, Created, InodeAt, Group;
    assert Placed(h, trees', parent, child, block);
  }

  /** An allocated inode changes nothing about which group gives a block. */
  lemma FirstBlockKept(h: Handle, h': Handle, ino: nat, preferred: nat, group: nat)
    requires TookInode(h, h', ino) && FirstWithBlock(h', preferred, group)
    ensures FirstWithBlock(h, preferred, group)
  {
    hide Blk, Bit, Group, Index, DescBytes, SuperBytes, NoneClear, FirstClear, OneMore, Turn;
    assert forall j :: 0 <= j < |h.gds| ==> NoBlockIn(h', j) == NoBlockIn(h, j);
    SameGroups(h, h', ino);
    assert NoBlockIn(h', group) == NoBlockIn(h, group);
  }

  lemma SameGroups(h: Handle, h': Handle, ino: nat)
    requires TookInode(h, h', ino)
    ensures |h'.gds| == |h.gds| && h'.d.g == h.d.g
  {
    hide Blk, Bit, Group, Index, DescBytes, SuperBytes, NoneClear, FirstClear, OneMore;
  }

  /** There is an inode and, if it is needed, a block. */
  ghost predicate CanAllocate(h: Handle, size: nat) {
    !NoInodes(h) && (size == 0 || (size <= h.d.g.blockSize && !NoBlocks(h)))
  }

  /** When a creation with a working link succeeds. */
  ghost predicate CanCreate(h: Handle, trees: Trees, parts: seq<seq<byte>>, name: seq<byte>, size: nat) {
    var w := Follow(h.d, trees, parts);
    && IsDirAt(h.d, trees, w) && Find(EntriesAt(h.d, trees, w), name).None?
    && CanAllocate(h, size)
    && RoomFor(h.d, trees, w.ino, name)
  }

  /** Room depends on the directory's blocks alone. */
  lemma RoomKept(d: Disk, d': Disk, trees: Trees, parent: u32, name: seq<byte>)
    requires parent in trees && d'.g == d.g && SameFiles(d, d', trees)
    ensures RoomFor(d', trees, parent, name) <==> RoomFor(d, trees, parent, name)
  {
    hide Blk, RoomIn, DataBlocks, Concat, Entries, InodeAt;
    assert SameFile(d, d', parent, trees[parent]);
    var blocks := DataBlocks(trees[parent]);
    assert forall j :: 0 <= j < |blocks| ==> blocks[j] in blocks;
  }

  lemma SealedKept(h: Handle, h': Handle)
    requires h'.sb == h.sb && h'.gds == h.gds && h'.d.g == h.d.g && |h.d.g.places| == |h.gds| && RecordsSame(h.d, h'.d)
    ensures (Sealed(h) ==> Sealed(h')) && (Coherent(h) ==> Coherent(h')) && (Kindred(h) ==> Kindred(h'))
  {
    hide DescBytes, SuperBytes, ParseSuper, DescMatches, ParseDesc;
  }

  lemma StillDirectory(d: Disk, d': Disk, trees: Trees, ino: u32)
    requires ino in trees && SameFiles(d, d', trees)
    ensures InodeAt(d', ino).IsDirectory() == InodeAt(d, ino).IsDirectory()
    ensures Rooted(InodeAt(d', ino)) == Rooted(InodeAt(d, ino))
  {
    hide InodeAt, Concat, Entries, DataBlocks, ParseNode;
    assert SameFile(d, d', ino, trees[ino]);
  }

  /** The insertion, complete or stopped after the directory block, has named the staged file. */
  lemma AddedNames(d: Disk, d': Disk, roles: Roles, trees: Trees, parent: u32, at: nat, child: u32, block: Option<u32>,
                   data: seq<byte>, name: seq<byte>, now: u32, ok: bool)
    requires WellFormed(d, roles, trees) && StagedFile(d, roles, trees, child, block, data, now)
    requires parent in trees && InodeAt(d, parent).IsDirectory()
    requires Added(d, d', trees, parent, at, child, name, now, ok) && (ok || d' != d)
    ensures var tree := FileTree(d.g.hasExtents, block);
            && WellFormed(d', FileRoles(roles, d.g.hasExtents, child, block), trees[child := tree])
            && Created(d, d', trees, trees[child := tree], parent, child, name, data, now)
            && RecordsSame(d, d')
  {
    hide WellFormed, StagedFile, InodeAt, Created, FileTree, FileRoles, RecordsSame, DataBlocks, AfterInsert, RoomIn,
      AfterTouch;
    NamedAndTouched(d, d', roles, trees, parent, at, child, block, data, name, now, ok);
    NamedFile(d, roles, trees, parent, at, child, block, data, name, now);
    InsertedKeepsRecords(d, d', roles, FileRoles(roles, d.g.hasExtents, child, block), trees,
                         trees[child := FileTree(d.g.hasExtents, block)], parent, at, child, name, now, ok);
  }

  /** From `d` to `d'` the directory's inode got new times, and nothing else of it changed but its checksum. */
  ghost predicate DirTouched(d: Disk, d': Disk, ino: u32, now: u32) {
    TimesAre(InodeAt(d', ino).raw, now) && BesideTimes(InodeAt(d, ino).raw, InodeAt(d', ino).raw)
  }

  /** A complete insertion has done that. */
  lemma ParentTouched(d: Disk, d': Disk, roles: Roles, trees: Trees, parent: u32, at: nat, child: u32, name: seq<byte>,
                      now: u32)
    requires WellFormed(d, roles, trees) && Added(d, d', trees, parent, at, child, name, now, true)
    ensures DirTouched(d, d', parent, now)
  {
    hide Blk, WellFormed, InRange, SlotBlock, SealInode, Touched, WithSlot, Layout, Fits, Marked, SameBut, RoomIn,
      AfterInsert, TimesAre, BesideTimes, DataBlocks, SlotFits, Slot;
    var n := InodeAt(d, parent);
    var d1 := AfterInsert(d, n, DataBlocks(trees[parent])[at], child, name);
    WellFormedParts(d, roles, trees);
    FitsKept(d, d1);
    RawSize(d, roles, trees, parent);
    RolesBound(d, roles, trees, parent);
    SlotRoom(d1, roles, parent);
    TouchedSlot(d.g.csum, d.g.seed, parent, n.raw, now);
    SlotPutGet(d1, roles, parent, SealInode(d.g.csum, d.g.seed, parent, Touched(n.raw, now), d.g.inodeSize));
  }

  lemma RolesBound(d: Disk, roles: Roles, trees: Trees, ino: u32)
    requires WellFormed(d, roles, trees) && ino in trees
    ensures ValidIno(d.g, ino) && forall b :: b in roles ==> b < d.g.blockCount
  {
    hide Layout, Fits, FileOk, DirOk, InodeAt;
    assert Live(d, roles, trees, ino);
  }

  lemma ThenCreated(d: Disk, d': Disk, d'': Disk, trees: Trees, trees': Trees, parent: u32, child: u32, name: seq<byte>,
                    data: seq<byte>, now: u32)
    requires SameFiles(d, d', trees) && Created(d', d'', trees, trees', parent, child, name, data, now)
    ensures Created(d, d'', trees, trees', parent, child, name, data, now)
  {
    hide SameFiles, OneMoreFile, NewFile;
    ThenOneMoreFile(d, d', d'', trees, trees', parent, child, name);
  }

  lemma LayoutSizes(g: Geo, roles: Roles)
    requires Layout(g, roles)
    ensures Sizes(g)
  {
  }

  lemma SlotInRange(g: Geo, roles: Roles, ino: nat, count: nat)
    requires Layout(g, roles) && ValidIno(g, ino) && forall b :: b in roles ==> b < count
    ensures SlotBlock(g, ino) < count
  {
    hide SlotBlock, TableIndex, GroupPlaced;
    assert SlotPlaced(g, roles, ino);
  }

  lemma LiveTree(d: Disk, roles: Roles, trees: Trees, ino: u32)
    requires ino in trees && Live(d, roles, trees, ino) && Marked(d, roles)
    ensures var n, t := InodeAt(d, ino), trees[ino];
            && ValidIno(d.g, ino) && (n.IsDirectory() ==> n.HasExtents())
            && (n.HasExtents() ==> TreeAt(d, n.iBlock, true, t) && TreeAt(d, n.iBlock, false, Unforced(n.iBlock, t)))
            && forall b :: b in DataBlocks(t) ==> b < d.g.blockCount
  {
    hide InodeAt, TreeAt, BlockOk, Listings, IndexBlocks, DataBlocks, Dense, Bit, BlockUsed;
    var n, t := InodeAt(d, ino), trees[ino];
    if n.HasExtents() { UnforcedTree(d, n.iBlock, t); }
    forall b | b in DataBlocks(t) ensures b < d.g.blockCount {
      var k :| 0 <= k < |DataBlocks(t)| && DataBlocks(t)[k] == b;
      var j := |IndexBlocks(t)| + k;
      assert AllBlocks(t)[j] == b;
      assert Owns(roles, AllBlocks(t)[j], FileRole(ino, j));
    }
  }

  lemma SameGrown(d: Disk, roles: Roles)
    ensures Grown(d, d, roles) && MapsSame(d, d)
  {
    hide Blk, Bit;
  }

  lemma SameButFrame(d: Disk, d': Disk, b: nat)
    requires SameBut(d, d', {b})
    ensures SameShape(d, d')
  {
    hide Blk;
  }

  lemma GroupBound(g: Geo, group: nat)
    requires Sizes(g) && group < |g.places|
    ensures group < 0x1_0000_0000
  {
    assert |g.places| * 1 <= |g.places| * g.inodesPerGroup;
  }

  lemma GrownShape(d: Disk, d': Disk, roles: Roles)
    requires Grown(d, d', roles)
    ensures SameShape(d, d')
  {
    hide Blk, MapsKept;
  }

  lemma LiveDirView(d: Disk, roles: Roles, trees: Trees, ino: u32)
    requires WellFormed(d, roles, trees) && ino in trees && InodeAt(d, ino).IsDirectory()
    ensures var n, t := InodeAt(d, ino), trees[ino];
            DirView(d, t, FileData(d, n.size, t)) && Dense(Flatten(t)) && |n.raw| == d.g.inodeSize
  {
    hide InodeAt, TreeAt, Listings, IndexBlocks, DataBlocks, Dense, Bit, BlockUsed, Blk, Lba, Base, Flatten, BlockOk,
      Layout, Concat;
    var n, t := InodeAt(d, ino), trees[ino];
    assert Live(d, roles, trees, ino);
    LiveTree(d, roles, trees, ino);
    forall b | b in DataBlocks(t) ensures |Blk(d, b)| == d.g.blockSize { LbaExact(d, b); }
    ConcatLength(d, DataBlocks(t), d.g.blockSize);
    RawSize(d, roles, trees, ino);
  }

  lemma RawSize(d: Disk, roles: Roles, trees: Trees, ino: u32)
    requires WellFormed(d, roles, trees) && ino in trees
    ensures |InodeAt(d, ino).raw| == d.g.inodeSize
  {
    hide TreeAt, Listings, DataBlocks, Dense, Bit, BlockUsed, Blk, Lba, Base, BlockOk, Layout, SlotBlock, SlotOffset,
      FileOk, DirOk;
    assert Live(d, roles, trees, ino);
    SlotRoom(d, roles, ino);
  }
}
