/** Allocation: which bit a number stands for, and what taking one changes. */
module Alloc {
  import opened Bytes
  import opened Bitmap
  import opened Disk
  import opened Volume
  import opened Frames
  import opened Descs

  function InodeMap(d: Disk, group: nat): seq<byte>
    requires group < |d.g.places|
  {
    Blk(d, d.g.places[group].inodeBitmap)
  }

  function BlockMap(d: Disk, group: nat): seq<byte>
    requires group < |d.g.places|
  {
    Blk(d, d.g.places[group].blockBitmap)
  }

  function InodeNumber(g: Geo, group: nat, k: nat): nat { group * g.inodesPerGroup + k + 1 }
  function BlockNumber(g: Geo, group: nat, k: nat): nat { group * g.blocksPerGroup + k + FirstData(g) }
  function BlockGroup(g: Geo, b: nat): (group: nat)
    requires Addressable(g, b)
    ensures group < |g.places|
  {
    (b - FirstData(g)) / g.blocksPerGroup
  }

  function BlockIndex(g: Geo, b: nat): nat requires Addressable(g, b) { (b - FirstData(g)) % g.blocksPerGroup }

  /** A number encodes its group and bit, and nothing else encodes the same number. */
  lemma InodeNumberDecodes(g: Geo, group: nat, k: nat)
    requires k < g.inodesPerGroup && group < |g.places| && 0 < g.blockSize
    ensures var ino := InodeNumber(g, group, k); ValidIno(g, ino) && Group(g, ino) == group && Index(g, ino) == k
  {
    QuotientUnique(group, g.inodesPerGroup, k);
  }

  lemma BlockNumberDecodes(g: Geo, group: nat, k: nat)
    requires k < g.blocksPerGroup && group < |g.places|
    ensures var b := BlockNumber(g, group, k); Addressable(g, b) && BlockGroup(g, b) == group && BlockIndex(g, b) == k
  {
    QuotientUnique(group, g.blocksPerGroup, k);
  }

  /** From `d` to `d'` exactly the bitmap bit of inode `ino`, clear before, was set. */
  ghost predicate InodeTaken(d: Disk, d': Disk, ino: nat) {
    && ValidIno(d.g, ino) && d'.g == d.g
    && OneMore(InodeMap(d, Group(d.g, ino)), InodeMap(d', Group(d.g, ino)), Index(d.g, ino))
    && (forall group :: 0 <= group < |d.g.places| ==> BlockMap(d', group) == BlockMap(d, group))
    && (forall group :: 0 <= group < |d.g.places| && group != Group(d.g, ino) ==>
        InodeMap(d', group) == InodeMap(d, group))
  }

  /** From `d` to `d'` exactly the bitmap bit of block `b`, clear before, was set. */
  ghost predicate BlockTaken(d: Disk, d': Disk, b: nat) {
    && Addressable(d.g, b) && d'.g == d.g
    && OneMore(BlockMap(d, BlockGroup(d.g, b)), BlockMap(d', BlockGroup(d.g, b)), BlockIndex(d.g, b))
    && (forall group :: 0 <= group < |d.g.places| ==> InodeMap(d', group) == InodeMap(d, group))
    && (forall group :: 0 <= group < |d.g.places| && group != BlockGroup(d.g, b) ==>
        BlockMap(d', group) == BlockMap(d, group))
  }

  /** The effect of the bitmap write alone. */
  lemma InodeBitWritten(d: Disk, roles: Roles, group: nat, k: nat)
    requires Layout(d.g, roles) && group < |d.g.places| && InRange(d, d.g.places[group].inodeBitmap)
    requires k / 8 < |InodeMap(d, group)| && k < d.g.inodesPerGroup && !Bit(InodeMap(d, group), k)
    ensures var d' := WithBlk(d, d.g.places[group].inodeBitmap, SetBit(InodeMap(d, group), k));
            InodeTaken(d, d', InodeNumber(d.g, group, k)) && Grown(d, d', roles)
  {
    hide Blk, Bit, SetBit, WithBlk, SlotPlaced, DescBlock, SuperBlock, InRange, Group, Index;
    var b := d.g.places[group].inodeBitmap;
    var d' := WithBlk(d, b, SetBit(InodeMap(d, group), k));
    SetBitOneMore(InodeMap(d, group), k);
    WithBlkFrame(d, b, SetBit(InodeMap(d, group), k));
    assert GroupPlaced(d.g, roles, group);
    MetaWrite(d, d', roles, b);
    InodeNumberDecodes(d.g, group, k);
    forall j | 0 <= j < |d.g.places|
      ensures BlockMap(d', j) == BlockMap(d, j) && (j != group ==> InodeMap(d', j) == InodeMap(d, j))
    {
      assert GroupPlaced(d.g, roles, j);
    }
  }

  lemma BlockBitWritten(d: Disk, roles: Roles, group: nat, k: nat)
    requires Layout(d.g, roles) && group < |d.g.places| && InRange(d, d.g.places[group].blockBitmap)
    requires k / 8 < |BlockMap(d, group)| && k < d.g.blocksPerGroup && !Bit(BlockMap(d, group), k)
    ensures var d' := WithBlk(d, d.g.places[group].blockBitmap, SetBit(BlockMap(d, group), k));
            BlockTaken(d, d', BlockNumber(d.g, group, k)) && Grown(d, d', roles)
  {
    hide Blk, Bit, SetBit, WithBlk, SlotPlaced, DescBlock, SuperBlock, InRange, BlockGroup, BlockIndex;
    var b := d.g.places[group].blockBitmap;
    var d' := WithBlk(d, b, SetBit(BlockMap(d, group), k));
    SetBitOneMore(BlockMap(d, group), k);
    WithBlkFrame(d, b, SetBit(BlockMap(d, group), k));
    assert GroupPlaced(d.g, roles, group);
    MetaWrite(d, d', roles, b);
    BlockNumberDecodes(d.g, group, k);
    forall j | 0 <= j < |d.g.places|
      ensures InodeMap(d', j) == InodeMap(d, j) && (j != group ==> BlockMap(d', j) == BlockMap(d, j))
    {
      assert GroupPlaced(d.g, roles, j);
    }
  }

  lemma InodeTakenThen(d: Disk, d': Disk, d'': Disk, ino: nat)
    requires InodeTaken(d, d', ino) && SameShape(d', d'') && MapsSame(d', d'')
    ensures InodeTaken(d, d'', ino)
  {
    hide Blk, Bit, Group, Index;
  }

  lemma BlockTakenThen(d: Disk, d': Disk, d'': Disk, b: nat)
    requires BlockTaken(d, d', b) && SameShape(d', d'') && MapsSame(d', d'')
    ensures BlockTaken(d, d'', b)
  {
    hide Blk, Bit, BlockGroup, BlockIndex;
  }
}
