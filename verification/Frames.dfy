/** What survives a change to the disk: the frame laws that every operation relies on. */
module Frames {
  import opened Bytes
  import opened Bitmap
  import opened Directory
  import opened Disk
  import opened Inode
  import opened Extents
  import opened Volume

  predicate SameShape(d: Disk, d': Disk) { d'.g == d.g && |d'.card| == |d.card| }

  ghost predicate SameBlocks(d: Disk, d': Disk, blocks: seq<nat>) {
    forall b :: b in blocks ==> Blk(d', b) == Blk(d, b)
  }

  lemma {:induction false} ConcatFrame(d: Disk, d': Disk, blocks: seq<nat>)
    requires SameShape(d, d') && SameBlocks(d, d', blocks)
    ensures Concat(d', blocks) == Concat(d, blocks) && Listings(d', blocks) == Listings(d, blocks)
  {
    hide Blk, Parse;
    if blocks != [] {
      ConcatFrame(d, d', blocks[..|blocks| - 1]);
      assert blocks[|blocks| - 1] in blocks;
    }
  }

  /** A file reads the same in both states. */
  ghost predicate SameFile(d: Disk, d': Disk, ino: u32, t: Tree) {
    && SameInode(InodeAt(d', ino), InodeAt(d, ino))
    && SameBlocks(d, d', DataBlocks(t))
    && Concat(d', DataBlocks(t)) == Concat(d, DataBlocks(t))
    && Entries(d', t) == Entries(d, t)
  }

  ghost predicate SameFiles(d: Disk, d': Disk, trees: Trees) {
    forall ino :: ino in trees && ino < 0x1_0000_0000 ==> SameFile(d, d', ino, trees[ino])
  }

  /** Roles are only ever added. */
  ghost predicate RolesKept(roles: Roles, roles': Roles) {
    forall b :: b in roles ==> b in roles' && roles'[b] == roles[b]
  }

  lemma FileKept(d: Disk, d': Disk, roles: Roles, roles': Roles, ino: nat, n: Inode, n': Inode, t: Tree)
    requires FileOk(d, roles, ino, n, t) && SameShape(d, d') && RolesKept(roles, roles') && SameInode(n', n)
    requires SameBlocks(d, d', IndexBlocks(t))
    ensures FileOk(d', roles', ino, n', t)
  {
    hide Blk, TreeAt, AllBlocks, IndexBlocks;
    assert n'.HasExtents() == n.HasExtents() && n'.iBlock == n.iBlock;
    if n.HasExtents() { TreeFrame(d, d', n.iBlock, true, t); }
  }

  lemma DirKept(d: Disk, d': Disk, trees: Trees, trees': Trees, n: Inode, n': Inode, t: Tree)
    requires DirOk(d, trees, n, t) && SameShape(d, d') && SameInode(n', n) && trees.Keys <= trees'.Keys
    requires SameBlocks(d, d', DataBlocks(t))
    ensures DirOk(d', trees', n', t)
  {
    hide Blk, DataBlocks, BlockOk, Dense, Listings, Flatten;
    assert n'.HasExtents() == n.HasExtents() && n'.size == n.size;
    ConcatFrame(d, d', DataBlocks(t));
  }

  lemma InAllBlocks(d: Disk, d': Disk, t: Tree)
    requires SameBlocks(d, d', AllBlocks(t))
    ensures SameBlocks(d, d', IndexBlocks(t)) && SameBlocks(d, d', DataBlocks(t))
  {
    hide Blk, IndexBlocks, DataBlocks;
  }

  /** A live inode whose own blocks, slot and bit are kept stays live and reads the same. */
  lemma LiveKept(d: Disk, d': Disk, roles: Roles, roles': Roles, trees: Trees, trees': Trees, ino: nat)
    requires ino in trees && Live(d, roles, trees, ino) && SameShape(d, d')
    requires RolesKept(roles, roles') && trees.Keys <= trees'.Keys && trees'[ino] == trees[ino]
    requires SameInode(InodeAt(d', ino), InodeAt(d, ino)) && InodeUsed(d', ino)
    requires SameBlocks(d, d', AllBlocks(trees[ino]))
    ensures Live(d', roles', trees', ino) && SameFile(d, d', ino, trees[ino])
  {
    hide Blk, AllBlocks, InodeAt, FileOk, DirOk, InodeUsed, DataBlocks, SameBlocks, IndexBlocks;
    var t := trees[ino];
    InAllBlocks(d, d', t);
    FileKept(d, d', roles, roles', ino, InodeAt(d, ino), InodeAt(d', ino), t);
    ConcatFrame(d, d', DataBlocks(t));
    if InodeAt(d, ino).IsDirectory() {
      DirKept(d, d', trees, trees', InodeAt(d, ino), InodeAt(d', ino), t);
    }
  }

  // ---- changes to bitmaps, descriptors and the superblock only ----

  predicate IsMeta(roles: Roles, b: nat) {
    b in roles && !roles[b].TableRole? && !roles[b].FileRole?
  }

  ghost predicate MapsKept(d: Disk, d': Disk) {
    forall group :: 0 <= group < |d.g.places| ==>
      && BitsKept(Blk(d, d.g.places[group].blockBitmap), Blk(d', d.g.places[group].blockBitmap))
      && BitsKept(Blk(d, d.g.places[group].inodeBitmap), Blk(d', d.g.places[group].inodeBitmap))
  }

  /** Only blocks of the fixed structures changed, and no allocation was undone. */
  ghost predicate Grown(d: Disk, d': Disk, roles: Roles) {
    && SameShape(d, d') && MapsKept(d, d')
    && forall b :: !IsMeta(roles, b) ==> Blk(d', b) == Blk(d, b)
  }

  lemma GrownTrans(d: Disk, d': Disk, d'': Disk, roles: Roles)
    requires Grown(d, d', roles) && Grown(d', d'', roles)
    ensures Grown(d, d'', roles)
  {
    hide Blk, Bit;
  }

  lemma UsedKept(d: Disk, d': Disk, b: nat)
    requires SameShape(d, d') && MapsKept(d, d') && BlockUsed(d, b)
    ensures BlockUsed(d', b)
  {
    hide Blk, Bit;
  }

  lemma InodeUsedKept(d: Disk, d': Disk, ino: nat)
    requires SameShape(d, d') && MapsKept(d, d') && InodeUsed(d, ino)
    ensures InodeUsed(d', ino)
  {
    hide Blk, Bit, Index;
  }

  lemma MarkedKept(d: Disk, d': Disk, roles: Roles)
    requires Marked(d, roles) && SameShape(d, d') && MapsKept(d, d')
    ensures Marked(d', roles)
  {
    hide BlockUsed, Addressable, MapsKept;
    forall b | b in roles ensures BlockUsed(d', b) { UsedKept(d, d', b); }
    forall b: nat | Addressable(d'.g, b) && !BlockUsed(d', b) ensures b < d'.g.blockCount {
      if BlockUsed(d, b) { UsedKept(d, d', b); }
    }
  }

  lemma SlotFrame(d: Disk, d': Disk, ino: u32)
    requires SameShape(d, d') && (ValidIno(d.g, ino) ==> Blk(d', SlotBlock(d.g, ino)) == Blk(d, SlotBlock(d.g, ino)))
    ensures InodeAt(d', ino) == InodeAt(d, ino)
  {
    hide Blk, ParseInode, SlotBlock, SlotOffset;
  }

  lemma NotMeta(roles: Roles, b: nat, r: Role)
    requires Owns(roles, b, r) && (r.TableRole? || r.FileRole?)
    ensures !IsMeta(roles, b)
  {
  }

  /** No block that a file or the inode table owns changed, and no allocation was undone. */
  ghost predicate Quiet(d: Disk, d': Disk, roles: Roles) {
    && SameShape(d, d') && MapsKept(d, d')
    && forall b :: b in roles && !IsMeta(roles, b) ==> Blk(d', b) == Blk(d, b)
  }

  lemma GrownQuiet(d: Disk, d': Disk, roles: Roles)
    requires Grown(d, d', roles)
    ensures Quiet(d, d', roles)
  {
    hide Blk, MapsKept, IsMeta;
  }

  /** Writing a block that nobody owns. */
  lemma FreeQuiet(d: Disk, d': Disk, roles: Roles, b: nat)
    requires Layout(d.g, roles) && SameBut(d, d', {b}) && b !in roles
    ensures Quiet(d, d', roles)
  {
    hide Blk, Bit, DescBlock, SlotPlaced;
    forall group | 0 <= group < |d.g.places|
      ensures BitsKept(Blk(d, d.g.places[group].blockBitmap), Blk(d', d.g.places[group].blockBitmap))
      ensures BitsKept(Blk(d, d.g.places[group].inodeBitmap), Blk(d', d.g.places[group].inodeBitmap))
    {
      assert GroupPlaced(d.g, roles, group);
    }
  }

  lemma OwnBlocksKept(d: Disk, d': Disk, roles: Roles, ino: nat, n: Inode, t: Tree)
    requires FileOk(d, roles, ino, n, t) && Quiet(d, d', roles)
    ensures SameBlocks(d, d', AllBlocks(t))
  {
    hide Blk, AllBlocks, TreeAt, MapsKept;
    forall k | 0 <= k < |AllBlocks(t)| ensures Blk(d', AllBlocks(t)[k]) == Blk(d, AllBlocks(t)[k]) {
      assert Owns(roles, AllBlocks(t)[k], FileRole(ino, k));
    }
  }

  lemma QuietLive(d: Disk, d': Disk, roles: Roles, trees: Trees, ino: nat)
    requires Layout(d.g, roles) && ino in trees && Live(d, roles, trees, ino) && Quiet(d, d', roles)
    ensures Live(d', roles, trees, ino) && SameFile(d, d', ino, trees[ino])
  {
    hide Blk, FileOk, DirOk, InodeAt, GroupPlaced, Sizes, Listings, Concat, DataBlocks, IsMeta, AllBlocks;
    assert SlotPlaced(d.g, roles, ino);
    NotMeta(roles, SlotBlock(d.g, ino), TableRole(Group(d.g, ino), TableIndex(d.g, ino)));
    SlotFrame(d, d', ino);
    InodeUsedKept(d, d', ino);
    OwnBlocksKept(d, d', roles, ino, InodeAt(d, ino), trees[ino]);
    LiveKept(d, d', roles, roles, trees, trees, ino);
  }

  /** Changes outside the files and the inode table are invisible to every live file. */
  lemma QuietWellFormed(d: Disk, d': Disk, roles: Roles, trees: Trees)
    requires WellFormed(d, roles, trees) && Quiet(d, d', roles)
    ensures WellFormed(d', roles, trees) && SameFiles(d, d', trees)
  {
    hide Layout, Marked, Live, SameFile;
    FitsKept(d, d');
    MarkedKept(d, d', roles);
    forall ino | ino in trees
      ensures Live(d', roles, trees, ino) && (ino < 0x1_0000_0000 ==> SameFile(d, d', ino, trees[ino]))
    {
      QuietLive(d, d', roles, trees, ino);
    }
  }

  lemma FitsKept(d: Disk, d': Disk)
    requires Fits(d) && SameShape(d, d')
    ensures Fits(d')
  {
  }
}
