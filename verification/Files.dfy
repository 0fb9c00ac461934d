/** Writing an inode slot of a live file system. */
module Files {
  import opened Bytes
  import opened Bitmap
  import opened Disk
  import opened Inode
  import opened Extents
  import opened Volume
  import opened Frames
  import opened Slots

  lemma SlotInFree(d: Disk, roles: Roles, ino: nat, i: nat, n: Inode, t: Tree)
    requires Layout(d.g, roles) && ValidIno(d.g, ino) && FileOk(d, roles, i, n, t)
    ensures forall b :: b in AllBlocks(t) ==> b != SlotBlock(d.g, ino)
  {
    hide AllBlocks, TreeAt, SlotBlock, Group, TableIndex, GroupPlaced;
    assert SlotPlaced(d.g, roles, ino);
    forall b | b in AllBlocks(t) ensures b != SlotBlock(d.g, ino) {
      var k :| 0 <= k < |AllBlocks(t)| && AllBlocks(t)[k] == b;
      assert Owns(roles, AllBlocks(t)[k], FileRole(i, k));
    }
  }

  lemma SlotMaps(d: Disk, d': Disk, roles: Roles, ino: nat)
    requires Layout(d.g, roles) && ValidIno(d.g, ino) && SameBut(d, d', {SlotBlock(d.g, ino)})
    ensures MapsKept(d, d')
  {
    hide Blk, Bit, DescBlock, SlotBlock, Group, TableIndex;
    assert SlotPlaced(d.g, roles, ino);
    forall group | 0 <= group < |d.g.places|
      ensures BitsKept(Blk(d, d.g.places[group].blockBitmap), Blk(d', d.g.places[group].blockBitmap))
      ensures BitsKept(Blk(d, d.g.places[group].inodeBitmap), Blk(d', d.g.places[group].inodeBitmap))
    {
      assert GroupPlaced(d.g, roles, group);
    }
  }

  lemma SlotLive(d: Disk, d': Disk, roles: Roles, trees: Trees, ino: u32, i: u32)
    requires Layout(d.g, roles) && i in trees && Live(d, roles, trees, i) && ValidIno(d.g, ino)
    requires SameBut(d, d', {SlotBlock(d.g, ino)}) && MapsKept(d, d') && SameInode(InodeAt(d', i), InodeAt(d, i))
    ensures Live(d', roles, trees, i) && SameFile(d, d', i, trees[i])
  {
    hide Blk, FileOk, DirOk, InodeAt, Layout, Listings, Concat, DataBlocks, AllBlocks, SlotBlock, MapsKept;
    SlotInFree(d, roles, ino, i, InodeAt(d, i), trees[i]);
    InodeUsedKept(d, d', i);
    LiveKept(d, d', roles, roles, trees, trees, i);
  }

  /** Writing a slot is visible in that inode alone; if the inode is live, what is read from it must stay. */
  lemma SlotWellFormed(d: Disk, roles: Roles, trees: Trees, ino: u32, raw: seq<byte>)
    requires WellFormed(d, roles, trees) && SlotFits(d, ino) && InRange(d, SlotBlock(d.g, ino))
             && |raw| == d.g.inodeSize
    requires ino in trees ==> SameInode(ParseInode(raw, ino), InodeAt(d, ino))
    ensures var d' := WithSlot(d, ino, raw);
            && WellFormed(d', roles, trees) && SameFiles(d, d', trees)
            && InodeAt(d', ino) == ParseInode(raw, ino)
            && SameBut(d, d', {SlotBlock(d.g, ino)})
  {
    hide Layout, Marked, Live, SameFile, SlotBlock, ParseInode, Blk, InRange, WithSlot, SameBut, SameInode, SlotFits;
    var d' := WithSlot(d, ino, raw);
    SlotPutGet(d, roles, ino, raw);
    SlotValid(d, ino);
    SlotMaps(d, d', roles, ino);
    FitsKept(d, d');
    MarkedKept(d, d', roles);
    forall i | i in trees ensures Live(d', roles, trees, i) && (i < 0x1_0000_0000 ==> SameFile(d, d', i, trees[i])) {
      LiveBound(d, roles, trees, i);
      if i != ino { SameSlotInode(d, d', i); }
      SlotLive(d, d', roles, trees, ino, i);
    }
  }

  lemma SlotValid(d: Disk, ino: nat)
    requires SlotFits(d, ino)
    ensures ValidIno(d.g, ino)
  {
    hide Blk, SlotBlock;
  }

  lemma LiveBound(d: Disk, roles: Roles, trees: Trees, i: nat)
    requires i in trees && Live(d, roles, trees, i)
    ensures i < 0x1_0000_0000 && ValidIno(d.g, i)
  {
    hide FileOk, DirOk, Bit;
  }

  lemma SameSlotInode(d: Disk, d': Disk, i: u32)
    requires Slot(d', i) == Slot(d, i)
    ensures SameInode(InodeAt(d', i), InodeAt(d, i))
  {
    hide Slot, ParseInode;
  }
}
