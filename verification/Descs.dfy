/** The descriptor table and the superblock as parts of blocks. */
module Descs {
  import opened Bytes
  import opened Bitmap
  import opened Disk
  import opened Volume
  import opened Frames
  import opened Slots

  // ---- group descriptors ----

  predicate DescFits(d: Disk, group: nat) {
    && 0 < d.g.blockSize && 32 <= d.g.descSize
    && DescOffset(d.g, group) + d.g.descSize <= |Blk(d, DescBlock(d.g, group))|
  }

  function DescBytes(d: Disk, group: nat): (r: seq<byte>)
    ensures 32 <= |r|
  {
    if DescFits(d, group) then
      Blk(d, DescBlock(d.g, group))[DescOffset(d.g, group)..DescOffset(d.g, group) + d.g.descSize]
    else Zeros(32)
  }

  lemma DescRoom(d: Disk, roles: Roles, group: nat)
    requires Fits(d) && Layout(d.g, roles) && group < |d.g.places|
    requires forall b :: b in roles ==> b < d.g.blockCount
    ensures DescBlock(d.g, group) < d.g.blockCount && InRange(d, DescBlock(d.g, group)) && DescFits(d, group)
  {
    hide Blk, DescBlock;
    assert GroupPlaced(d.g, roles, group);
    LbaExact(d, DescBlock(d.g, group));
    Multiple(group, d.g.descSize, d.g.blockSize);
  }

  function WithDesc(d: Disk, group: nat, x: seq<byte>): (d': Disk)
    requires DescFits(d, group) && InRange(d, DescBlock(d.g, group)) && |x| == d.g.descSize
    ensures SameShape(d, d')
  {
    var b := DescBlock(d.g, group);
    WithBlk(d, b, Put(Blk(d, b), DescOffset(d.g, group), x))
  }

  lemma DescPutGet(d: Disk, group: nat, x: seq<byte>)
    requires DescFits(d, group) && InRange(d, DescBlock(d.g, group)) && |x| == d.g.descSize
             && d.g.blockSize % d.g.descSize == 0
    ensures var d' := WithDesc(d, group, x);
            && DescBytes(d', group) == x && SameBut(d, d', {DescBlock(d.g, group)})
            && forall j :: 0 <= j < |d.g.places| && j != group ==> DescBytes(d', j) == DescBytes(d, j)
  {
    hide Blk, DescBlock, DescOffset, InRange, WithBlk, Put;
    var b := DescBlock(d.g, group);
    WithBlkFrame(d, b, Put(Blk(d, b), DescOffset(d.g, group), x));
    PutInside(Blk(d, b), DescOffset(d.g, group), x);
    forall j | 0 <= j < |d.g.places| && j != group
      ensures DescBytes(WithDesc(d, group, x), j) == DescBytes(d, j)
    {
      OtherDesc(d, group, x, j);
    }
  }

  lemma OtherDesc(d: Disk, group: nat, x: seq<byte>, j: nat)
    requires DescFits(d, group) && InRange(d, DescBlock(d.g, group)) && |x| == d.g.descSize && j != group
    requires d.g.blockSize % d.g.descSize == 0
    ensures DescBytes(WithDesc(d, group, x), j) == DescBytes(d, j)
  {
    hide Blk, InRange, WithBlk, Put, DescOffset, DescBlock;
    var b := DescBlock(d.g, group);
    WithBlkFrame(d, b, Put(Blk(d, b), DescOffset(d.g, group), x));
    if DescBlock(d.g, j) == b {
      DescsApart(d.g, group, j);
      if DescFits(d, j) {
        PutOutside(Blk(d, b), DescOffset(d.g, group), x, DescOffset(d.g, j), DescOffset(d.g, j) + d.g.descSize);
      }
    }
  }

  lemma DescsApart(g: Geo, i: nat, j: nat)
    requires 0 < g.blockSize && 0 < g.descSize && i != j && DescBlock(g, i) == DescBlock(g, j)
    ensures DescOffset(g, i) + g.descSize <= DescOffset(g, j) || DescOffset(g, j) + g.descSize <= DescOffset(g, i)
  {
    if i < j { UnitsApart(i, j, g.descSize, g.blockSize); } else { UnitsApart(j, i, g.descSize, g.blockSize); }
  }

  // ---- the superblock ----

  function SuperBase(g: Geo): nat { (g.start + 2) * SECTOR }

  function SuperBytes(d: Disk): (r: seq<byte>)
    ensures |r| == 1024
  {
    if SuperBase(d.g) + 1024 <= |d.card| then d.card[SuperBase(d.g)..SuperBase(d.g) + 1024] else Zeros(1024)
  }

  function WithSuper(d: Disk, s: seq<byte>): (d': Disk)
    requires SuperBase(d.g) + 1024 <= |d.card| && |s| == 1024
    ensures SameShape(d, d')
  {
    d.(card := Put(d.card, SuperBase(d.g), s))
  }

  /** The superblock lies inside its block. */
  lemma SuperInside(g: Geo)
    requires g.blockSize % 1024 == 0 && 1024 <= g.blockSize
    ensures Base(g, SuperBlock(g)) <= SuperBase(g) && SuperBase(g) + 1024 <= Base(g, SuperBlock(g)) + g.blockSize
  {
  }

  lemma SuperRoom(d: Disk)
    requires Fits(d)
    ensures SuperBase(d.g) + 1024 <= |d.card|
  {
    SuperInside(d.g);
    LbaExact(d, SuperBlock(d.g));
    hide Base, SuperBlock, Fits, Lba;
  }

  lemma SuperPutGet(d: Disk, s: seq<byte>)
    requires Fits(d) && SuperBase(d.g) + 1024 <= |d.card| && |s| == 1024
    ensures SuperBytes(WithSuper(d, s)) == s && SameBut(d, WithSuper(d, s), {SuperBlock(d.g)})
  {
    hide Put, Base, SuperBase, SuperBlock;
    var d' := WithSuper(d, s);
    PutInside(d.card, SuperBase(d.g), s);
    SuperInside(d.g);
    forall c: nat | c != SuperBlock(d.g) ensures Blk(d', c) == Blk(d, c) {
      if c < SuperBlock(d.g) { BasesApart(d.g, c, SuperBlock(d.g)); } else { BasesApart(d.g, SuperBlock(d.g), c); }
      if InRange(d, c) {
        PutOutside(d.card, SuperBase(d.g), s, Base(d.g, c), Base(d.g, c) + d.g.blockSize);
      }
    }
  }

  // ---- such changes only grow ----

  lemma MetaWrite(d: Disk, d': Disk, roles: Roles, b: nat)
    requires Layout(d.g, roles) && SameBut(d, d', {b}) && IsMeta(roles, b)
    requires roles[b].BlockMapRole? || roles[b].InodeMapRole? ==> BitsKept(Blk(d, b), Blk(d', b))
    ensures Grown(d, d', roles)
  {
    hide Blk, Bit, DescBlock, SuperBlock, SlotPlaced;
    forall group | 0 <= group < |d.g.places|
      ensures BitsKept(Blk(d, d.g.places[group].blockBitmap), Blk(d', d.g.places[group].blockBitmap))
      ensures BitsKept(Blk(d, d.g.places[group].inodeBitmap), Blk(d', d.g.places[group].inodeBitmap))
    {
      assert GroupPlaced(d.g, roles, group);
    }
  }

  lemma SameMaps(d: Disk, d': Disk, roles: Roles, b: nat)
    requires Layout(d.g, roles) && SameBut(d, d', {b}) && !IsMap(roles, b)
    ensures MapsSame(d, d')
  {
    hide Blk, DescBlock, SuperBlock, SlotPlaced;
    forall group | 0 <= group < |d.g.places|
      ensures Blk(d', d.g.places[group].blockBitmap) == Blk(d, d.g.places[group].blockBitmap)
      ensures Blk(d', d.g.places[group].inodeBitmap) == Blk(d, d.g.places[group].inodeBitmap)
    {
      assert GroupPlaced(d.g, roles, group);
    }
  }

  ghost predicate MapsSame(d: Disk, d': Disk) {
    forall group :: 0 <= group < |d.g.places| ==>
      && Blk(d', d.g.places[group].blockBitmap) == Blk(d, d.g.places[group].blockBitmap)
      && Blk(d', d.g.places[group].inodeBitmap) == Blk(d, d.g.places[group].inodeBitmap)
  }

  lemma SuperOfBlock(d: Disk, d': Disk)
    requires Fits(d) && SameShape(d, d') && Blk(d', SuperBlock(d.g)) == Blk(d, SuperBlock(d.g))
    ensures SuperBytes(d') == SuperBytes(d)
  {
    hide Base, SuperBase, SuperBlock, Lba;
    SuperRoom(d);
    SuperInside(d.g);
    SuperSlice(d);
    SuperSlice(d');
  }

  lemma SuperSlice(d: Disk)
    requires Fits(d)
    ensures InRange(d, SuperBlock(d.g))
    ensures var o := SuperBase(d.g) - Base(d.g, SuperBlock(d.g));
            0 <= o && o + 1024 <= |Blk(d, SuperBlock(d.g))| && SuperBytes(d) == Blk(d, SuperBlock(d.g))[o..o + 1024]
  {
    hide Base, SuperBase, Lba;
    SuperRoom(d);
    SuperInside(d.g);
    LbaExact(d, SuperBlock(d.g));
    var o := SuperBase(d.g) - Base(d.g, SuperBlock(d.g));
    SliceOfSlice(d.card, Base(d.g, SuperBlock(d.g)), Base(d.g, SuperBlock(d.g)) + d.g.blockSize, o, o + 1024);
  }

  lemma DescWritten(d: Disk, roles: Roles, group: nat, x: seq<byte>)
    requires Fits(d) && Layout(d.g, roles) && group < |d.g.places| && DescFits(d, group)
    requires InRange(d, DescBlock(d.g, group)) && |x| == d.g.descSize
    ensures var d' := WithDesc(d, group, x);
            && Grown(d, d', roles) && MapsSame(d, d') && SuperBytes(d') == SuperBytes(d)
            && DescBytes(d', group) == x
            && forall j :: 0 <= j < |d.g.places| && j != group ==> DescBytes(d', j) == DescBytes(d, j)
  {
    hide Blk, DescBytes, WithDesc, SuperBytes, DescBlock, DescFits, InRange, SuperBlock, SlotPlaced;
    var d' := WithDesc(d, group, x);
    assert GroupPlaced(d.g, roles, group);
    DescPutGet(d, group, x);
    MetaWrite(d, d', roles, DescBlock(d.g, group));
    SameMaps(d, d', roles, DescBlock(d.g, group));
    SuperOfBlock(d, d');
  }

  lemma SuperWritten(d: Disk, roles: Roles, s: seq<byte>)
    requires Fits(d) && Layout(d.g, roles) && SuperBase(d.g) + 1024 <= |d.card| && |s| == 1024
    ensures var d' := WithSuper(d, s);
            && Grown(d, d', roles) && MapsSame(d, d') && SuperBytes(d') == s
            && forall j :: 0 <= j < |d.g.places| ==> DescBytes(d', j) == DescBytes(d, j)
  {
    hide Blk, WithSuper, SuperBytes, DescBlock, DescOffset, InRange, SuperBlock, SlotPlaced;
    var d' := WithSuper(d, s);
    SuperPutGet(d, s);
    MetaWrite(d, d', roles, SuperBlock(d.g));
    SameMaps(d, d', roles, SuperBlock(d.g));
    forall j | 0 <= j < |d.g.places| ensures DescBytes(d', j) == DescBytes(d, j) {
      assert GroupPlaced(d.g, roles, j);
    }
  }

  lemma MapsSameTrans(d: Disk, d': Disk, d'': Disk)
    requires SameShape(d, d') && MapsSame(d, d') && MapsSame(d', d'')
    ensures MapsSame(d, d'')
  {
    hide Blk;
  }

  predicate IsMap(roles: Roles, b: nat) {
    b in roles && (roles[b].BlockMapRole? || roles[b].InodeMapRole?)
  }

  ghost predicate DescsSame(d: Disk, d': Disk) {
    && SuperBytes(d') == SuperBytes(d)
    && forall j :: 0 <= j < |d.g.places| ==> DescBytes(d', j) == DescBytes(d, j)
  }

  /** Superblock, descriptors and bitmaps. */
  ghost predicate RecordsSame(d: Disk, d': Disk) { DescsSame(d, d') && MapsSame(d, d') }

  predicate IsRecord(roles: Roles, b: nat) {
    b in roles && (roles[b].DescRole? || roles[b].SuperRole?)
  }

  /** Writing any other block leaves the descriptors and the superblock alone. */
  lemma OffDescs(d: Disk, d': Disk, roles: Roles, b: nat)
    requires Fits(d) && Layout(d.g, roles) && SameBut(d, d', {b}) && !IsRecord(roles, b)
    ensures DescsSame(d, d')
  {
    hide Blk, DescBlock, SuperBlock, SlotPlaced, SuperBytes, DescOffset;
    SuperOfBlock(d, d');
    forall j | 0 <= j < |d.g.places| ensures DescBytes(d', j) == DescBytes(d, j) {
      assert GroupPlaced(d.g, roles, j);
    }
  }

  /** And, if it is no bitmap either, the bitmaps. */
  lemma OffRecords(d: Disk, d': Disk, roles: Roles, b: nat)
    requires Fits(d) && Layout(d.g, roles) && SameBut(d, d', {b}) && !IsRecord(roles, b) && !IsMap(roles, b)
    ensures RecordsSame(d, d')
  {
    hide Fits, Layout, SameBut, MapsSame, DescsSame, Blk;
    OffDescs(d, d', roles, b);
    SameMaps(d, d', roles, b);
  }

  lemma RecordsSameTrans(d: Disk, d': Disk, d'': Disk)
    requires d'.g == d.g && RecordsSame(d, d') && RecordsSame(d', d'')
    ensures RecordsSame(d, d'')
  {
    hide DescBytes, SuperBytes;
  }
}
