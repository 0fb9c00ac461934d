/** Every live inode and every directory block carries the checksum that its reader recomputes. */
module Checksums {
  import opened Bytes
  import opened Directory
  import opened Disk
  import opened Inode
  import opened Extents
  import opened Volume
  import opened Frames
  import opened Slots
  import opened Metadata
  import opened Descs
  import opened Files
  import opened Publish
  import opened Staging
  import opened Overwrite
  import opened Rename
  import opened Handles

  /** The slot passes its reader's test, where there is room for the whole checksum. */
  predicate StampOk(d: Disk, ino: u32) {
    d.g.csum && d.g.inodeSize > 132 ==> InodeMatches(d.g.seed, ino, InodeAt(d, ino).raw, d.g.inodeSize)
  }

  predicate BlockStamped(d: Disk, ino: u32, b: nat) {
    12 <= |Blk(d, b)| && DirMatches(d.g.seed, ino, InodeAt(d, ino).generation, Blk(d, b))
  }

  ghost predicate DirStamped(d: Disk, ino: u32, t: Tree) {
    d.g.csum && InodeAt(d, ino).IsDirectory() ==> forall b :: b in DataBlocks(t) ==> BlockStamped(d, ino, b)
  }

  ghost predicate Stamps(d: Disk, trees: Trees) {
    forall i: u32 :: i in trees ==> StampOk(d, i) && DirStamped(d, i, trees[i])
  }

  // ---- what does not matter ----

  lemma SameStamp(d: Disk, d': Disk, ino: u32, t: Tree)
    requires d'.g == d.g && InodeAt(d', ino) == InodeAt(d, ino)
             && (InodeAt(d, ino).IsDirectory() ==> SameBlocks(d, d', DataBlocks(t)))
    ensures StampOk(d', ino) == StampOk(d, ino) && DirStamped(d', ino, t) == DirStamped(d, ino, t)
  {
    hide InodeAt, Blk, DataBlocks, InodeMatches, DirMatches;
  }

  /** Changes outside the files and the inode table. */
  lemma QuietStamps(d: Disk, d': Disk, roles: Roles, trees: Trees)
    requires WellFormed(d, roles, trees) && Quiet(d, d', roles)
    ensures Stamps(d, trees) ==> Stamps(d', trees)
    ensures forall i: u32 :: i in trees ==> InodeAt(d', i) == InodeAt(d, i)
  {
    hide InodeAt, Blk, DataBlocks, Layout, Marked, Live, StampOk, DirStamped, Fits, MapsKept, AllBlocks, FileOk,
      SlotBlock, IsMeta;
    forall i: u32 | i in trees
      ensures InodeAt(d', i) == InodeAt(d, i) && StampOk(d', i) == StampOk(d, i)
              && DirStamped(d', i, trees[i]) == DirStamped(d, i, trees[i])
    {
      LiveBound(d, roles, trees, i);
      QuietSlot(d, d', roles, i);
      LiveUsed(d, roles, trees, i);
      OwnBlocksKept(d, d', roles, i, InodeAt(d, i), trees[i]);
      InAllBlocks(d, d', trees[i]);
      SameStamp(d, d', i, trees[i]);
    }
  }

  lemma QuietSlot(d: Disk, d': Disk, roles: Roles, i: u32)
    requires Layout(d.g, roles) && Quiet(d, d', roles) && ValidIno(d.g, i)
    ensures InodeAt(d', i) == InodeAt(d, i)
  {
    hide InodeAt, Blk, MapsKept, IsMeta, Sizes, GroupPlaced, SlotBlock, Group, TableIndex;
    assert SlotPlaced(d.g, roles, i);
    NotMeta(roles, SlotBlock(d.g, i), TableRole(Group(d.g, i), TableIndex(d.g, i)));
    SlotFrame(d, d', i);
  }

  /** Rewriting the data of a file that is no directory. */
  lemma OwnDataStamps(d: Disk, d': Disk, trees: Trees, ino: u32)
    requires OwnDataOnly(d, d', trees, ino) && !InodeAt(d, ino).IsDirectory()
    ensures Stamps(d, trees) ==> Stamps(d', trees)
  {
    hide InodeAt, Blk, DataBlocks, StampOk, DirStamped, RecordsSame, SameInode, Concat, Entries, SameBlocks;
    forall i: u32 | i in trees
      ensures StampOk(d', i) == StampOk(d, i) && DirStamped(d', i, trees[i]) == DirStamped(d, i, trees[i])
    {
      if i != ino { assert SameFile(d, d', i, trees[i]); }
      SameStamp(d, d', i, trees[i]);
    }
  }

  // ---- sealed slots ----

  /** What a slot write keeps of the other inodes. */
  lemma SlotStampsOthers(d: Disk, d': Disk, roles: Roles, trees: Trees, ino: u32, i: u32)
    requires WellFormed(d, roles, trees) && ValidIno(d.g, ino) && SameBut(d, d', {SlotBlock(d.g, ino)}) && i in trees
    ensures SameBlocks(d, d', DataBlocks(trees[i]))
  {
    hide InodeAt, Blk, DataBlocks, Layout, Marked, Live, Fits, FileOk, SlotBlock, AllBlocks, IndexBlocks;
    WellFormedParts(d, roles, trees);
    LiveOf(d, roles, trees, i);
    SlotInFree(d, roles, ino, i, InodeAt(d, i), trees[i]);
    InAllBlocks(d, d', trees[i]);
  }

  /** Writing a sealed slot stamps it, and disturbs no other stamp. */
  lemma SlotStamps(d: Disk, roles: Roles, trees: Trees, ino: u32, raw: seq<byte>)
    requires WellFormed(d, roles, trees) && SlotFits(d, ino) && InRange(d, SlotBlock(d.g, ino))
             && |raw| == d.g.inodeSize >= 128
    requires ino in trees ==> ParseInode(raw, ino).generation == InodeAt(d, ino).generation
                              && ParseInode(raw, ino).IsDirectory() == InodeAt(d, ino).IsDirectory()
    ensures var d' := WithSlot(d, ino, SealInode(d.g.csum, d.g.seed, ino, raw, d.g.inodeSize));
            StampOk(d', ino) && (Stamps(d, trees) ==> Stamps(d', trees)) && SlotsSame(d, d', ino)
  {
    hide InodeAt, Blk, DataBlocks, Layout, Marked, Live, Fits, SlotBlock, SealInode, ParseInode, StampOk, DirStamped,
      WithSlot, InRange, SlotFits, SlotsSame, Slot, SameBut, SameBlocks;
    var sealed := SealInode(d.g.csum, d.g.seed, ino, raw, d.g.inodeSize);
    var d' := WithSlot(d, ino, sealed);
    SlotPutGet(d, roles, ino, sealed);
    SlotValid(d, ino);
    OtherInodes(d, d', ino);
    StampedSlot(d, d', ino, raw);
    forall i: u32 | i in trees && StampOk(d, i) && DirStamped(d, i, trees[i])
      ensures StampOk(d', i) && DirStamped(d', i, trees[i])
    {
      SlotStampsOthers(d, d', roles, trees, ino, i);
      if i == ino {
        SameGeneration(d, d', ino, raw, trees[i]);
      } else {
        OtherSlotSame(d, d', ino, i);
        SameStamp(d, d', i, trees[i]);
      }
    }
  }

  lemma OtherSlotSame(d: Disk, d': Disk, ino: u32, i: u32)
    requires SlotsSame(d, d', ino) && i != ino
    ensures InodeAt(d', i) == InodeAt(d, i)
  {
    hide InodeAt;
  }

  lemma StampedSlot(d: Disk, d': Disk, ino: u32, raw: seq<byte>)
    requires |raw| == d.g.inodeSize >= 128 && d'.g == d.g
    requires Slot(d', ino) == SealInode(d.g.csum, d.g.seed, ino, raw, d.g.inodeSize)
    ensures StampOk(d', ino)
    ensures InodeAt(d', ino).generation == ParseInode(raw, ino).generation
    ensures InodeAt(d', ino).IsDirectory() == ParseInode(raw, ino).IsDirectory()
  {
    hide Slot, SealInode, InodeMatches, InodeChecksum, ParseInode, Hi16, Le32;
    var sealed := SealInode(d.g.csum, d.g.seed, ino, raw, d.g.inodeSize);
    SealedParse(d.g.csum, d.g.seed, ino, raw, d.g.inodeSize);
    if d.g.csum { SealedInodeMatches(d.g.seed, ino, raw, d.g.inodeSize); }
  }

  lemma SameGeneration(d: Disk, d': Disk, ino: u32, raw: seq<byte>, t: Tree)
    requires d'.g == d.g && DirStamped(d, ino, t) && SameBlocks(d, d', DataBlocks(t))
    requires InodeAt(d', ino).generation == InodeAt(d, ino).generation
             && InodeAt(d', ino).IsDirectory() == InodeAt(d, ino).IsDirectory()
    ensures DirStamped(d', ino, t)
  {
    hide InodeAt, Blk, DataBlocks, DirMatches;
  }

  // ---- sealed directory blocks ----

  /** Writing a sealed block of a directory stamps it, and disturbs no other stamp. */
  lemma DirBlockStamps(d: Disk, d': Disk, roles: Roles, trees: Trees, parent: u32, j: nat, x: seq<byte>)
    requires WellFormed(d, roles, trees) && parent in trees && j < |DataBlocks(trees[parent])| && 12 <= |x|
    requires SameBut(d, d', {DataBlocks(trees[parent])[j]})
    requires Blk(d', DataBlocks(trees[parent])[j])
             == SealDir(d.g.csum, d.g.seed, parent, InodeAt(d, parent).generation, x)
    ensures Stamps(d, trees) ==> Stamps(d', trees)
    ensures forall i: u32 :: InodeAt(d', i) == InodeAt(d, i)
  {
    hide InodeAt, Blk, DataBlocks, Layout, Marked, Live, Fits, SealDir, StampOk, DirStamped, SameBut, SameBlocks,
      IndexBlocks, MapsKept, FileOk;
    var t := trees[parent];
    var b, k := DataBlocks(t)[j], |IndexBlocks(t)| + j;
    WellFormedParts(d, roles, trees);
    LiveOf(d, roles, trees, parent);
    OwnedOnce(d, roles, parent, InodeAt(d, parent), t, j);
    FileBlockApart(d, d', roles, b, parent, k);
    SameButShape(d, d', {b});
    forall i: u32 | i in trees && StampOk(d, i) && DirStamped(d, i, trees[i])
      ensures StampOk(d', i) && DirStamped(d', i, trees[i])
    {
      if i == parent {
        SealedStamp(d, d', parent, t, j, x);
      } else {
        LiveOf(d, roles, trees, i);
        ForeignData(d, d', roles, i, trees[i], b, parent, k);
        SameStamp(d, d', i, trees[i]);
      }
    }
  }

  lemma ForeignData(d: Disk, d': Disk, roles: Roles, i: u32, t: Tree, b: nat, parent: nat, k: nat)
    requires FileOk(d, roles, i, InodeAt(d, i), t) && Owns(roles, b, FileRole(parent, k)) && i != parent
             && SameBut(d, d', {b})
    ensures SameBlocks(d, d', DataBlocks(t))
  {
    hide InodeAt, Blk, DataBlocks, FileOk, IndexBlocks;
    ForeignBlock(d, roles, i, InodeAt(d, i), t, b, parent, k);
  }

  lemma SealedStamp(d: Disk, d': Disk, ino: u32, t: Tree, j: nat, x: seq<byte>)
    requires d'.g == d.g && InodeAt(d', ino) == InodeAt(d, ino) && StampOk(d, ino) && DirStamped(d, ino, t)
    requires j < |DataBlocks(t)| && SameBut(d, d', {DataBlocks(t)[j]}) && 12 <= |x|
    requires Blk(d', DataBlocks(t)[j]) == SealDir(d.g.csum, d.g.seed, ino, InodeAt(d, ino).generation, x)
    ensures StampOk(d', ino) && DirStamped(d', ino, t)
  {
    hide InodeAt, Blk, DataBlocks, InodeMatches, DirMatches, SealDir, Le32, Le16;
    if d.g.csum { SealedDirMatches(d.g.seed, ino, InodeAt(d, ino).generation, x); }
  }

  // ---- the operations ----

  /** Renaming. */
  lemma RenamedStamps(d: Disk, d': Disk, roles: Roles, trees: Trees, parent: u32, j: nat, name: seq<byte>,
                      name': seq<byte>)
    requires WellFormed(d, roles, trees) && parent in trees
             && RenamesAt(d, d', InodeAt(d, parent), trees[parent], j, name, name')
    ensures Stamps(d, trees) ==> Stamps(d', trees)
  {
    hide InodeAt, Blk, DataBlocks, WellFormed, Match, SealDir, Stamps, SameBut, Put, Unlisted;
    var b := DataBlocks(trees[parent])[j];
    var q := Match(Blk(d, b), 0, name).value;
    DirBlockStamps(d, d', roles, trees, parent, j, Put(Blk(d, b), q + 8, name'));
  }

  /** A staged file has no directory blocks, so its slot is all that need be stamped. */
  lemma OneMoreStamp(d: Disk, trees: Trees, child: u32, tree: Tree)
    requires Stamps(d, trees) && StampOk(d, child) && !InodeAt(d, child).IsDirectory() && child !in trees
    ensures Stamps(d, trees[child as nat := tree])
  {
    hide InodeAt, Blk, DataBlocks, StampOk;
  }

  /** Both writes of an insertion. */
  lemma InsertedStamps(d: Disk, d': Disk, roles: Roles, roles': Roles, trees: Trees, parent: u32, at: nat, child: u32,
                       tree: Tree, name: seq<byte>, now: u32, ok: bool)
    requires WellFormed(d, roles, trees) && parent in trees && child !in trees
    requires Inserted(d, d', InodeAt(d, parent), trees[parent], at, child, name, now, ok) && (ok || d' != d)
    requires WellFormed(AfterInsert(d, InodeAt(d, parent), DataBlocks(trees[parent])[at], child, name), roles',
                        trees[child as nat := tree])
    requires !InodeAt(d, child).IsDirectory() && StampOk(d, child)
    ensures Stamps(d, trees) ==> Stamps(d', trees[child as nat := tree])
  {
    hide InodeAt, Blk, DataBlocks, WellFormed, Stamps, SameBut, RoomIn, AfterTouch, StampOk, AfterInsert;
    var n, t := InodeAt(d, parent), trees[parent];
    var d1 := AfterInsert(d, n, DataBlocks(t)[at], child, name);
    InsertStamps(d, roles, trees, parent, at, child, name);
    if Stamps(d, trees) { OneMoreStamp(d1, trees, child, tree); }
    if d' != d1 { TouchStamps(d1, roles', trees[child as nat := tree], n, now); }
  }

  lemma InsertStamps(d: Disk, roles: Roles, trees: Trees, parent: u32, at: nat, child: u32, name: seq<byte>)
    requires WellFormed(d, roles, trees) && parent in trees && at < |DataBlocks(trees[parent])|
    requires RoomIn(Blk(d, DataBlocks(trees[parent])[at]), d.g.csum, name)
    ensures var d1 := AfterInsert(d, InodeAt(d, parent), DataBlocks(trees[parent])[at], child, name);
            && (Stamps(d, trees) ==> Stamps(d1, trees))
            && (forall i: u32 :: InodeAt(d1, i) == InodeAt(d, i)) && (forall i: u32 :: StampOk(d1, i) == StampOk(d, i))
  {
    hide InodeAt, Blk, DataBlocks, WellFormed, Stamps, SameBut, Last, HasRoom, BlockOk, WithBlk, AddRecord, SealDir,
      InodeMatches, InRange;
    var n, b := InodeAt(d, parent), DataBlocks(trees[parent])[at];
    var s := Blk(d, b);
    BlockOfLive(d, roles, trees, parent, at);
    BlockLong(s, d.g.csum);
    var end := End(s, d.g.csum);
    var x := AddRecord(s, Last(s, 0, end), end, child, name, 1);
    WithBlkFrame(d, b, NewDirBlock(s, d.g.csum, d.g.seed, n, child, name, 1));
    DirBlockStamps(d, AfterInsert(d, n, b, child, name), roles, trees, parent, at, x);
  }

  lemma TouchStamps(d: Disk, roles: Roles, trees: Trees, n: Inode, now: u32)
    requires WellFormed(d, roles, trees) && n.ino in trees && n == InodeAt(d, n.ino)
    ensures Stamps(d, trees) ==> Stamps(AfterTouch(d, n, now), trees)
  {
    hide InodeAt, Blk, WellFormed, Stamps, Touched, SealInode, SlotBlock, SlotFits, InRange, WithSlot, ParseInode,
      StampOk, SlotsSame;
    if CanTouch(d, n) {
      RawParse(d, n.ino);
      TouchedParse(n.ino, n.raw, now);
      SlotStamps(d, roles, trees, n.ino, Touched(n.raw, now));
    }
  }

  /** Writing the data block of a new file, which nobody owns yet. */
  lemma FreeStamps(d: Disk, d': Disk, roles: Roles, trees: Trees, ino: u32, b: nat)
    requires WellFormed(d, roles, trees) && SameBut(d, d', {b}) && b !in roles
    ensures Stamps(d, trees) ==> Stamps(d', trees)
    ensures StampOk(d', ino) == StampOk(d, ino)
  {
    hide InodeAt, Blk, WellFormed, Stamps, Layout, Quiet, SameBut, InodeMatches;
    WellFormedParts(d, roles, trees);
    FreeQuiet(d, d', roles, b);
    QuietStamps(d, d', roles, trees);
    FreeWriteSlot(d, d', roles, ino, b);
    SameButShape(d, d', {b});
  }

  /** The new size is sealed with its slot. */
  lemma SizedStamps(d: Disk, roles: Roles, trees: Trees, ino: u32, size: u64)
    requires WellFormed(d, roles, trees) && ino in trees && InodeAt(d, ino).IsRegular()
    requires SlotFits(d, ino) && InRange(d, SlotBlock(d.g, ino)) && |InodeAt(d, ino).raw| == d.g.inodeSize >= 128
    ensures |SizedSlot(d, InodeAt(d, ino), size)| == d.g.inodeSize
    ensures Stamps(d, trees) ==> Stamps(WithSlot(d, ino, SizedSlot(d, InodeAt(d, ino), size)), trees)
  {
    hide InodeAt, WellFormed, Stamps, SealInode, SlotBlock, SlotFits, InRange, WithSlot, ParseInode, Resized, StampOk,
      SlotsSame;
    RawParse(d, ino);
    ResizedParse(ino, InodeAt(d, ino).raw, size);
    SlotStamps(d, roles, trees, ino, Resized(InodeAt(d, ino).raw, true, size));
  }

  /** Naming a staged and stamped file. */
  lemma AddedStamps(d: Disk, d': Disk, roles: Roles, trees: Trees, parent: u32, at: nat, child: u32, block: Option<u32>,
                    data: seq<byte>, name: seq<byte>, now: u32, ok: bool)
    requires WellFormed(d, roles, trees) && StagedFile(d, roles, trees, child, block, data, now) && StampOk(d, child)
    requires parent in trees && InodeAt(d, parent).IsDirectory()
    requires Added(d, d', trees, parent, at, child, name, now, ok) && (ok || d' != d)
    ensures Stamps(d, trees) ==> Stamps(d', trees[child as nat := FileTree(d.g.hasExtents, block)])
  {
    hide WellFormed, InodeAt, FileTree, FileRoles, DataBlocks, AfterInsert, RoomIn, AfterTouch, Stamps, StampOk,
      OneMoreFile, NewFile, FileOk, Blk, Marked, InodeUsed;
    NamedFile(d, roles, trees, parent, at, child, block, data, name, now);
    InsertedStamps(d, d', roles, FileRoles(roles, d.g.hasExtents, child, block), trees, parent, at, child,
                   FileTree(d.g.hasExtents, block), name, now, ok);
  }
}
