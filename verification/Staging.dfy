/** From free numbers to a file that is ready to be named, and on to a file that is named. */
module Staging {
  import opened Bytes
  import opened Bitmap
  import opened Directory
  import opened Disk
  import opened Inode
  import opened Extents
  import opened Volume
  import opened Frames
  import opened Slots
  import opened Reads
  import opened Metadata
  import opened Alloc
  import opened Descs
  import opened Files
  import opened NewInode
  import opened Publish

  // ---- following several steps ----

  lemma SameFileTrans(d: Disk, d': Disk, d'': Disk, ino: u32, t: Tree)
    requires SameFile(d, d', ino, t) && SameFile(d', d'', ino, t)
    ensures SameFile(d, d'', ino, t)
  {
    hide InodeAt, Concat, Entries, DataBlocks;
  }

  lemma SameFilesTrans(d: Disk, d': Disk, d'': Disk, trees: Trees)
    requires SameFiles(d, d', trees) && SameFiles(d', d'', trees)
    ensures SameFiles(d, d'', trees)
  {
    hide SameFile;
    forall ino | ino in trees && ino < 0x1_0000_0000 ensures SameFile(d, d'', ino, trees[ino]) {
      SameFileTrans(d, d', d'', ino, trees[ino]);
    }
  }

  lemma SameFilesRefl(d: Disk, trees: Trees)
    ensures SameFiles(d, d, trees)
  {
    hide InodeAt, Concat, Entries, DataBlocks;
  }

  lemma ThenOneMoreFile(d: Disk, d': Disk, d'': Disk, trees: Trees, trees': Trees, parent: u32, child: u32,
                        name: seq<byte>)
    requires SameFiles(d, d', trees) && OneMoreFile(d', d'', trees, trees', parent, child, name)
    ensures OneMoreFile(d, d'', trees, trees', parent, child, name)
  {
    hide InodeAt, Concat, Entries, DataBlocks, ListingGrew, NewLinks;
    assert SameFile(d, d', parent, trees[parent]);
    forall i | i in trees && i < 0x1_0000_0000 && i != parent ensures SameFile(d, d'', i, trees[i]) {
      SameFileTrans(d, d', d'', i, trees[i]);
    }
  }

  lemma OneMoreFileThen(d: Disk, d': Disk, d'': Disk, trees: Trees, trees': Trees, parent: u32, child: u32,
                        name: seq<byte>)
    requires OneMoreFile(d, d', trees, trees', parent, child, name) && SameFiles(d', d'', trees')
             && parent < 0x1_0000_0000
    ensures OneMoreFile(d, d'', trees, trees', parent, child, name)
  {
    hide InodeAt, Concat, Entries, DataBlocks, ListingGrew, NewLinks;
    assert SameFile(d', d'', parent, trees'[parent]);
    assert SameFile(d', d'', child, trees'[child]);
    forall i | i in trees && i < 0x1_0000_0000 && i != parent ensures SameFile(d, d'', i, trees[i]) {
      assert SameFile(d', d'', i, trees'[i]);
      SameFileTrans(d, d', d'', i, trees[i]);
    }
  }

  // ---- fresh numbers ----

  /** An inode just taken is nobody's. */
  lemma TakenInodeDead(d: Disk, d': Disk, roles: Roles, trees: Trees, ino: u32)
    requires WellFormed(d, roles, trees) && InodeTaken(d, d', ino)
    ensures ino !in trees && InodeUsed(d', ino)
  {
    hide Layout, Marked, FileOk, DirOk, Bit, Blk, Group, Index;
    forall i | i in trees ensures InodeUsed(d, i) { assert Live(d, roles, trees, i); }
    assert !InodeUsed(d, ino);
  }

  /** A block just taken is nobody's, and on the card. */
  lemma TakenBlockFree(d: Disk, d': Disk, roles: Roles, b: nat)
    requires Marked(d, roles) && BlockTaken(d, d', b)
    ensures b !in roles && b < d.g.blockCount && BlockUsed(d', b)
  {
    hide Bit, Blk;
    assert !BlockUsed(d, b);
  }

  lemma FewBlocks(d: Disk)
    requires Fits(d)
    ensures d.g.blockCount < 0x1_0000_0000
  {
    FewUnits(d.g.blockCount, d.g.blockSize, |d.card| - d.g.start * SECTOR);
  }

  lemma FewUnits(n: nat, unit: nat, size: int)
    requires 1024 <= unit && n * unit <= size <= SECTOR * 0x1_0000_0000
    ensures n < 0x1_0000_0000
  {
    assert n * 1024 <= n * unit;
  }

  // ---- the staged file ----

  function FileTree(hasExtents: bool, block: Option<u32>): Tree {
    if hasExtents then Leaf(if block.Some? then [Extent(0, 1, block.value)] else []) else Blank
  }

  function FileRoles(roles: Roles, hasExtents: bool, ino: u32, block: Option<u32>): Roles {
    if hasExtents && block.Some? then roles[block.value as nat := FileRole(ino, 0)] else roles
  }

  lemma FileTreeBlocks(block: Option<u32>)
    ensures IndexBlocks(FileTree(true, block)) == []
    ensures DataBlocks(FileTree(true, block)) == (if block.Some? then [block.value] else [])
    ensures IndexBlocks(FileTree(false, block)) == [] && DataBlocks(FileTree(false, block)) == []
  {
    if block.Some? {
      var e := Extent(0, 1, block.value);
      RunsOne([e], 0);
      assert [e][..1] == [e] && [e][..0] == [];
      assert Run(e) == [block.value];
    }
  }

  /** The new inode is initialised, and its data readable, before any directory names it. */
  ghost predicate StagedFile(d: Disk, roles: Roles, trees: Trees, ino: u32, block: Option<u32>, data: seq<byte>,
                             now: u32)
  {
    var tree := FileTree(d.g.hasExtents, block);
    && Staged(d, roles, FileRoles(roles, d.g.hasExtents, ino, block), trees, ino, tree)
    && NewFile(d, ino, tree, data, now)
  }

  /** Inode `ino` is initialised as a new regular file that reads back as `data`, if the file system has extents at
      all. */
  ghost predicate NewFile(d: Disk, ino: u32, tree: Tree, data: seq<byte>, now: u32) {
    var n := InodeAt(d, ino);
    && n.IsRegular() && n.size == |data| && n.HasExtents() == d.g.hasExtents
    && (d.g.hasExtents ==> FileData(d, |data|, tree) == data)
    && exists block: Option<u32> ::
         (block.Some? <==> data != []) && tree == FileTree(d.g.hasExtents, block) && IsNew(n, d.g, block, |data|, now)
  }

  lemma StagedFileOk(d: Disk, roles: Roles, ino: u32, block: Option<u32>, size: nat, now: u32)
    requires IsNew(InodeAt(d, ino), d.g, block, size, now)
    requires block.Some? ==> block.value !in roles
    ensures FileOk(d, FileRoles(roles, d.g.hasExtents, ino, block), ino, InodeAt(d, ino),
                   FileTree(d.g.hasExtents, block))
  {
    hide Blk, NewRoot, InodeAt, TreeAt, IndexBlocks, DataBlocks;
    FileTreeBlocks(block);
    NewTree(d, block);
  }

  lemma StagedMarked(d: Disk, roles: Roles, hasExtents: bool, ino: u32, block: Option<u32>)
    requires Marked(d, roles) && (block.Some? ==> block.value < d.g.blockCount && BlockUsed(d, block.value))
    ensures Marked(d, FileRoles(roles, hasExtents, ino, block))
  {
    hide BlockUsed, Addressable;
  }

  /** The data block holds the data, then zeros. */
  lemma StagedData(d: Disk, block: Option<u32>, data: seq<byte>)
    requires block.None? ==> data == []
    requires block.Some? ==> |data| <= |Blk(d, block.value)| && Blk(d, block.value)[..|data|] == data
    ensures FileData(d, |data|, FileTree(true, block)) == data
  {
    hide Blk;
    FileTreeBlocks(block);
    if block.Some? {
      var blocks := [block.value as nat];
      assert blocks[..0] == [];
      assert Concat(d, blocks) == Concat(d, []) + Blk(d, block.value);
    }
  }

  lemma IsStaged(d: Disk, roles: Roles, trees: Trees, ino: u32, block: Option<u32>, data: seq<byte>, now: u32)
    requires ino !in trees && InodeUsed(d, ino) && Marked(d, roles) && |data| < 0x1_0000_0000
    requires IsNew(InodeAt(d, ino), d.g, block, |data|, now)
    requires block.None? <==> data == []
    requires block.Some? ==> block.value !in roles && block.value < d.g.blockCount && BlockUsed(d, block.value)
    requires block.Some? ==> |data| <= |Blk(d, block.value)| && Blk(d, block.value)[..|data|] == data
    ensures StagedFile(d, roles, trees, ino, block, data, now)
  {
    hide Blk, NewRoot, InodeAt, FileOk, Marked, FileData, InodeUsed, BlockUsed, FileTree;
    StagedFileOk(d, roles, ino, block, |data|, now);
    StagedMarked(d, roles, d.g.hasExtents, ino, block);
    StagedData(d, block, data);
  }

  // ---- naming it ----

  lemma AfterInsertInserts(d: Disk, trees: Trees, parent: u32, at: nat, child: u32, name: seq<byte>)
    requires parent in trees && InodeAt(d, parent).IsDirectory() && at < |DataBlocks(trees[parent])|
    requires var b := DataBlocks(trees[parent])[at];
             RoomIn(Blk(d, b), d.g.csum, name) && InRange(d, b) && |Blk(d, b)| == d.g.blockSize
    ensures Inserts(d, AfterInsert(d, InodeAt(d, parent), DataBlocks(trees[parent])[at], child, name), trees, parent,
                    at, child, name)
  {
    hide Blk, DataBlocks, RoomIn, InodeAt, NewDirBlock, WithBlk, SameBut, InRange;
    var b := DataBlocks(trees[parent])[at];
    WithBlkFrame(d, b, NewDirBlock(Blk(d, b), d.g.csum, d.g.seed, InodeAt(d, parent), child, name, 1));
  }

  /** The disk after the directory block is on the card has the file; so has it after the times are updated. */
  lemma NamedFile(d: Disk, roles: Roles, trees: Trees, parent: u32, at: nat, child: u32, block: Option<u32>,
                  data: seq<byte>, name: seq<byte>, now: u32)
    requires WellFormed(d, roles, trees) && StagedFile(d, roles, trees, child, block, data, now)
    requires parent in trees && InodeAt(d, parent).IsDirectory() && at < |DataBlocks(trees[parent])|
    requires RoomIn(Blk(d, DataBlocks(trees[parent])[at]), d.g.csum, name)
    ensures var d' := AfterInsert(d, InodeAt(d, parent), DataBlocks(trees[parent])[at], child, name);
            var tree := FileTree(d.g.hasExtents, block);
            && WellFormed(d', FileRoles(roles, d.g.hasExtents, child, block), trees[child := tree])
            && OneMoreFile(d, d', trees, trees[child := tree], parent, child, name)
            && NewFile(d', child, tree, data, now)
  {
    hide Blk, DataBlocks, RoomIn, InodeAt, Concat, AfterInsert, WellFormed, Inserts, Staged, FileTree, FileRoles,
      OneMoreFile;
    var t := trees[parent];
    var d' := AfterInsert(d, InodeAt(d, parent), DataBlocks(t)[at], child, name);
    var tree := FileTree(d.g.hasExtents, block);
    BlockOfLive(d, roles, trees, parent, at);
    AfterInsertInserts(d, trees, parent, at, child, name);
    Published(d, d', roles, FileRoles(roles, d.g.hasExtents, child, block), trees, parent, at, child, tree, name);
  }

  lemma BlockOfLive(d: Disk, roles: Roles, trees: Trees, ino: u32, at: nat)
    requires WellFormed(d, roles, trees) && ino in trees && at < |DataBlocks(trees[ino])|
    ensures InRange(d, DataBlocks(trees[ino])[at]) && DataBlocks(trees[ino])[at] < d.g.blockCount
    ensures |Blk(d, DataBlocks(trees[ino])[at])| == d.g.blockSize
  {
    hide Blk, DataBlocks, InodeAt, Layout, DirOk, BlockUsed, IndexBlocks, Lba, Base;
    LiveUsed(d, roles, trees, ino);
    OwnedOnce(d, roles, ino, InodeAt(d, ino), trees[ino], at);
    LbaExact(d, DataBlocks(trees[ino])[at]);
  }

  /** Updating the times of a live inode is invisible. */
  lemma TouchedWellFormed(d: Disk, roles: Roles, trees: Trees, n: Inode, now: u32)
    requires WellFormed(d, roles, trees) && n.ino in trees && n == InodeAt(d, n.ino)
    ensures WellFormed(AfterTouch(d, n, now), roles, trees) && SameFiles(d, AfterTouch(d, n, now), trees)
  {
    hide Blk, WellFormed, Touched, SealInode, InRange, SameInode, ParseInode, SlotBlock, SlotOffset, WithSlot;
    SameFilesRefl(d, trees);
    if SlotFits(d, n.ino) && InRange(d, SlotBlock(d.g, n.ino)) && |n.raw| == d.g.inodeSize {
      var raw := Touched(n.raw, now);
      SealedParse(d.g.csum, d.g.seed, n.ino, raw, d.g.inodeSize);
      TouchedParse(n.ino, n.raw, now);
      RawParse(d, n.ino);
      SameInodeTrans(ParseInode(SealInode(d.g.csum, d.g.seed, n.ino, raw, d.g.inodeSize), n.ino),
                     ParseInode(raw, n.ino), n);
      SlotWellFormed(d, roles, trees, n.ino, SealInode(d.g.csum, d.g.seed, n.ino, raw, d.g.inodeSize));
    }
  }

  lemma RawParse(d: Disk, ino: u32)
    ensures 128 <= |InodeAt(d, ino).raw| && ParseInode(InodeAt(d, ino).raw, ino) == InodeAt(d, ino)
  {
    hide Slot;
  }

  lemma SameInodeTrans(a: Inode, b: Inode, c: Inode)
    requires SameInode(a, b) && SameInode(b, c)
    ensures SameInode(a, c)
  {
  }

  // ---- what creating a file amounts to ----

  /** The file system has one more file, `child`, that holds `data` and is listed as `name` in `parent`. */
  ghost predicate Created(d: Disk, d': Disk, trees: Trees, trees': Trees, parent: u32, child: u32, name: seq<byte>,
                          data: seq<byte>, now: u32)
  {
    && OneMoreFile(d, d', trees, trees', parent, child, name)
    && child in trees' && NewFile(d', child, trees'[child], data, now)
  }

  /** Insertion and time update together, from a staged file. */
  lemma NamedAndTouched(d: Disk, d': Disk, roles: Roles, trees: Trees, parent: u32, at: nat, child: u32,
                        block: Option<u32>, data: seq<byte>, name: seq<byte>, now: u32, ok: bool)
    requires WellFormed(d, roles, trees) && StagedFile(d, roles, trees, child, block, data, now)
    requires parent in trees && InodeAt(d, parent).IsDirectory()
    requires Inserted(d, d', InodeAt(d, parent), trees[parent], at, child, name, now, ok) && (ok || d' != d)
    ensures var tree := FileTree(d.g.hasExtents, block);
            && WellFormed(d', FileRoles(roles, d.g.hasExtents, child, block), trees[child := tree])
            && Created(d, d', trees, trees[child := tree], parent, child, name, data, now)
  {
    hide Blk, DataBlocks, RoomIn, InodeAt, AfterInsert, WellFormed, Staged, FileTree, FileRoles, OneMoreFile,
      AfterTouch, NewFile;
    NamedFile(d, roles, trees, parent, at, child, block, data, name, now);
    var n := InodeAt(d, parent);
    var d1 := AfterInsert(d, n, DataBlocks(trees[parent])[at], child, name);
    var tree := FileTree(d.g.hasExtents, block);
    var roles', trees' := FileRoles(roles, d.g.hasExtents, child, block), trees[child := tree];
    if d' != d1 {
      SameParent(d, d1, trees, trees', parent, child, name, roles, at, n);
      TouchedWellFormed(d1, roles', trees', n, now);
      OneMoreFileThen(d, d1, d', trees, trees', parent, child, name);
      ChildApart(d, roles, trees, child, block, data, now);
      TouchKeepsSlot(d1, roles', trees', n, now, child);
      NewFileKept(d1, d', trees', child, tree, data, now);
    }
  }

  /** The insertion leaves the directory's own slot as it was. */
  lemma SameParent(d: Disk, d': Disk, trees: Trees, trees': Trees, parent: u32, child: u32, name: seq<byte>,
                   roles: Roles, at: nat, n: Inode)
    requires WellFormed(d, roles, trees) && parent in trees && n == InodeAt(d, parent)
             && at < |DataBlocks(trees[parent])|
    requires d' == AfterInsert(d, n, DataBlocks(trees[parent])[at], child, name)
    ensures InodeAt(d', parent) == n
  {
    hide Blk, DataBlocks, RoomIn, InodeAt, Layout, DirOk, Marked, NewDirBlock, WithBlk, IndexBlocks, MapsKept, Fits;
    BlockOfLive(d, roles, trees, parent, at);
    LiveUsed(d, roles, trees, parent);
    OwnedOnce(d, roles, parent, n, trees[parent], at);
    var b := DataBlocks(trees[parent])[at];
    if RoomIn(Blk(d, b), d.g.csum, name) {
      WithBlkFrame(d, b, NewDirBlock(Blk(d, b), d.g.csum, d.g.seed, n, child, name, 1));
      FileBlockApart(d, d', roles, b, parent, |IndexBlocks(trees[parent])| + at);
    }
  }

  lemma NewFileKept(d: Disk, d': Disk, trees: Trees, child: u32, tree: Tree, data: seq<byte>, now: u32)
    requires SameFiles(d, d', trees) && d'.g == d.g && InodeAt(d', child) == InodeAt(d, child)
    requires child in trees && trees[child] == tree && NewFile(d, child, tree, data, now)
    ensures NewFile(d', child, tree, data, now)
  {
    hide Concat, Entries, DataBlocks, InodeAt;
    assert SameFile(d, d', child, trees[child]);
  }

  // ---- the two writes of staging ----

  lemma SmallData(d: Disk, roles: Roles)
    requires Fits(d) && Layout(d.g, roles)
    ensures 128 <= d.g.inodeSize && 0 <= d.g.blockSize / 512 < 0x1_0000_0000 && d.g.blockSize <= 0x1_0000
  {
    hide GroupPlaced, SlotPlaced, SuperBlock;
  }

  /** A block that can hold the data of a new file. */
  ghost predicate FreshBlock(d: Disk, roles: Roles, block: Option<u32>) {
    block.Some? ==> block.value !in roles && block.value < d.g.blockCount && BlockUsed(d, block.value)
  }

  /** Writing the slot of a taken inode that nobody names. */
  lemma InodeWritten(d: Disk, d': Disk, roles: Roles, trees: Trees, ino: u32, block: Option<u32>, size: u32, now: u32)
    requires WellFormed(d, roles, trees) && ino !in trees && InodeUsed(d, ino) && FreshBlock(d, roles, block)
    requires 128 <= d.g.inodeSize && 0 <= d.g.blockSize / 512 < 0x1_0000_0000
    requires SlotFits(d, ino) && InRange(d, SlotBlock(d.g, ino))
    requires d' == WithSlot(d, ino,
                            SealInode(d.g.csum, d.g.seed, ino, NewInodeRaw(d.g, ino, block, size, now), d.g.inodeSize))
    ensures WellFormed(d', roles, trees) && SameFiles(d, d', trees) && RecordsSame(d, d') && Fits(d')
    ensures IsNew(InodeAt(d', ino), d.g, block, size, now)
    ensures InodeUsed(d', ino) && FreshBlock(d', roles, block)
  {
    hide WellFormed, InodeUsed, BlockUsed, NewInodeRaw, SealInode, SlotFits, SlotBlock, Blk, InRange, WithSlot, InodeAt,
      NewRoot, MapsKept, RecordsSame;
    var raw := NewInodeRaw(d.g, ino, block, size, now);
    var sealed := SealInode(d.g.csum, d.g.seed, ino, raw, d.g.inodeSize);
    SlotWellFormed(d, roles, trees, ino, sealed);
    NewParsed(d.g, ino, block, size, now);
    SealedParse(d.g.csum, d.g.seed, ino, raw, d.g.inodeSize);
    SealKeepsFresh(d.g, ino, raw, block, size, now);
    SlotKeepsMaps(d, d', roles, trees, ino);
    SlotKeepsRecords(d, d', roles, trees, ino);
    WellFormedParts(d', roles, trees);
    InodeUsedKept(d, d', ino);
    if block.Some? { UsedKept(d, d', block.value); }
  }

  lemma SealKeepsFresh(g: Geo, ino: u32, raw: seq<byte>, block: Option<u32>, size: nat, now: u32)
    requires 128 <= |raw| == g.inodeSize && FreshSlot(raw, g.hasExtents, g.blockSize, ino, block, size, now)
    ensures FreshSlot(SealInode(g.csum, g.seed, ino, raw, g.inodeSize), g.hasExtents, g.blockSize, ino, block, size,
                      now)
  {
    hide SealInode, FreshSlot;
    SealOutside(g.csum, g.seed, ino, raw, g.inodeSize);
    var sealed := SealInode(g.csum, g.seed, ino, raw, g.inodeSize);
    if 130 < |raw| <= 132 { assert sealed[128..130] == sealed[126..][2..4] && raw[128..130] == raw[126..][2..4]; }
    FreshSame(raw, sealed, g.hasExtents, g.blockSize, ino, block, size, now);
  }

  /** Updating the times of one inode leaves every other slot as it was. */
  lemma TouchKeepsSlot(d: Disk, roles: Roles, trees: Trees, n: Inode, now: u32, ino: u32)
    requires WellFormed(d, roles, trees) && ino != n.ino && ValidIno(d.g, ino)
    ensures InodeAt(AfterTouch(d, n, now), ino) == InodeAt(d, ino)
  {
    hide Blk, WellFormed, InRange, SlotBlock, SlotOffset, SealInode, Touched, WithSlot, ParseInode, Slot, Layout, Fits,
      Marked, SameBut;
    WellFormedParts(d, roles, trees);
    if CanTouch(d, n) {
      SlotPutGet(d, roles, n.ino, SealInode(d.g.csum, d.g.seed, n.ino, Touched(n.raw, now), d.g.inodeSize));
    }
  }

  lemma ChildApart(d: Disk, roles: Roles, trees: Trees, ino: u32, block: Option<u32>, data: seq<byte>, now: u32)
    requires StagedFile(d, roles, trees, ino, block, data, now)
    ensures ino !in trees && ValidIno(d.g, ino)
  {
    hide NewFile, FileOk, Marked, FileTree, FileRoles, InodeAt;
    UsedValid(d, ino);
  }

  lemma SlotKeepsMaps(d: Disk, d': Disk, roles: Roles, trees: Trees, ino: nat)
    requires WellFormed(d, roles, trees) && SlotFits(d, ino) && SameBut(d, d', {SlotBlock(d.g, ino)})
    ensures SameShape(d, d') && MapsKept(d, d')
  {
    hide Layout, Marked, Live, Fits, Blk, MapsKept, SlotBlock;
    SlotValid(d, ino);
    SlotMaps(d, d', roles, ino);
  }

  lemma WellFormedParts(d: Disk, roles: Roles, trees: Trees)
    requires WellFormed(d, roles, trees)
    ensures Fits(d) && Layout(d.g, roles) && Marked(d, roles)
  {
    hide Layout, Marked, Live, Fits;
  }

  lemma NoDataWritten(d: Disk, roles: Roles, trees: Trees, ino: u32, block: Option<u32>, data: seq<byte>, now: u32)
    requires WellFormed(d, roles, trees) && ino !in trees && InodeUsed(d, ino) && block.None? && data == []
    requires IsNew(InodeAt(d, ino), d.g, block, 0, now)
    ensures StagedFile(d, roles, trees, ino, block, data, now)
  {
    hide WellFormed, InodeUsed, InodeAt, NewRoot, StagedFile;
    WellFormedParts(d, roles, trees);
    IsStaged(d, roles, trees, ino, block, data, now);
  }

  /** Writing the data into a taken block that nobody owns. */
  lemma DataWritten(d: Disk, d': Disk, roles: Roles, trees: Trees, ino: u32, block: Option<u32>, data: seq<byte>,
                    padded: seq<byte>, now: u32)
    requires WellFormed(d, roles, trees) && ino !in trees && InodeUsed(d, ino) && FreshBlock(d, roles, block)
             && block.Some? && data != []
    requires |data| <= |padded| == d.g.blockSize && padded[..|data|] == data && |data| < 0x1_0000_0000
    requires IsNew(InodeAt(d, ino), d.g, block, |data|, now)
    requires InRange(d, block.value) && d' == WithBlk(d, block.value, padded)
    ensures WellFormed(d', roles, trees) && SameFiles(d, d', trees) && RecordsSame(d, d')
    ensures StagedFile(d', roles, trees, ino, block, data, now)
  {
    hide WellFormed, InodeUsed, BlockUsed, InodeAt, NewRoot, Blk, WithBlk, InRange, StagedFile, Layout, MapsKept,
      Marked, SlotBlock, RecordsSame;
    WellFormedParts(d, roles, trees);
    WithBlkFrame(d, block.value, padded);
    FreeQuiet(d, d', roles, block.value);
    QuietWellFormed(d, d', roles, trees);
    WellFormedParts(d', roles, trees);
    InodeUsedKept(d, d', ino);
    UsedKept(d, d', block.value);
    FreeWriteSlot(d, d', roles, ino, block.value);
    OffRecords(d, d', roles, block.value);
    IsStaged(d', roles, trees, ino, block, data, now);
  }

  lemma FreeWriteSlot(d: Disk, d': Disk, roles: Roles, ino: u32, b: nat)
    requires Layout(d.g, roles) && SameBut(d, d', {b}) && b !in roles
    ensures InodeAt(d', ino) == InodeAt(d, ino)
  {
    hide Blk, SlotBlock, InodeAt, GroupPlaced, Group, TableIndex;
    if ValidIno(d.g, ino) { assert SlotPlaced(d.g, roles, ino); }
    SlotFrame(d, d', ino);
  }

  lemma UsedValid(d: Disk, ino: nat)
    requires InodeUsed(d, ino)
    ensures ValidIno(d.g, ino)
  {
    hide Blk, Bit;
  }

  // ---- the records stay ----

  lemma RecordsSameRefl(d: Disk)
    ensures RecordsSame(d, d)
  {
    hide DescBytes, SuperBytes;
  }

  lemma SlotKeepsRecords(d: Disk, d': Disk, roles: Roles, trees: Trees, ino: nat)
    requires WellFormed(d, roles, trees) && SlotFits(d, ino) && SameBut(d, d', {SlotBlock(d.g, ino)})
    ensures RecordsSame(d, d')
  {
    hide WellFormed, Blk, SlotBlock, SlotFits, Group, TableIndex, GroupPlaced, RecordsSame, SameBut, Sizes, SuperBlock;
    WellFormedParts(d, roles, trees);
    SlotValid(d, ino);
    assert SlotPlaced(d.g, roles, ino);
    OffRecords(d, d', roles, SlotBlock(d.g, ino));
  }

  /** Neither write of an insertion touches a record. */
  lemma InsertedKeepsRecords(d: Disk, d': Disk, roles: Roles, roles': Roles, trees: Trees, trees': Trees, parent: u32,
                             at: nat, child: u32, name: seq<byte>, now: u32, ok: bool)
    requires WellFormed(d, roles, trees) && parent in trees
    requires Inserted(d, d', InodeAt(d, parent), trees[parent], at, child, name, now, ok)
    requires WellFormed(AfterInsert(d, InodeAt(d, parent), DataBlocks(trees[parent])[at], child, name), roles', trees')
    ensures RecordsSame(d, d')
  {
    hide Blk, DataBlocks, RoomIn, InodeAt, WellFormed, NewDirBlock, WithBlk, IndexBlocks, InRange, SlotFits, SlotBlock,
      WithSlot, SealInode, Touched, RecordsSame;
    var n, t := InodeAt(d, parent), trees[parent];
    var d1 := AfterInsert(d, n, DataBlocks(t)[at], child, name);
    WellFormedParts(d, roles, trees);
    LiveOf(d, roles, trees, parent);
    OwnedOnce(d, roles, parent, n, t, at);
    var b := DataBlocks(t)[at];
    RecordsSameRefl(d);
    BlockOfLive(d, roles, trees, parent, at);
    WithBlkFrame(d, b, NewDirBlock(Blk(d, b), d.g.csum, d.g.seed, n, child, name, 1));
    OffRecords(d, d1, roles, b);
    if d' != d && d' != d1 {
      TouchKeepsRecords(d1, roles', trees', n, now);
      RecordsSameTrans(d, d1, d');
    }
  }

  lemma LiveOf(d: Disk, roles: Roles, trees: Trees, ino: u32)
    requires WellFormed(d, roles, trees) && ino in trees
    ensures FileOk(d, roles, ino, InodeAt(d, ino), trees[ino])
  {
    hide Layout, Marked, Fits, FileOk, DirOk, InodeAt, InodeUsed;
    assert Live(d, roles, trees, ino);
  }

  lemma TouchKeepsRecords(d: Disk, roles: Roles, trees: Trees, n: Inode, now: u32)
    requires WellFormed(d, roles, trees)
    ensures RecordsSame(d, AfterTouch(d, n, now))
  {
    hide Blk, WellFormed, InRange, SlotBlock, SlotOffset, SealInode, Touched, RecordsSame, SameBut, SlotFits, WithSlot;
    RecordsSameRefl(d);
    WellFormedParts(d, roles, trees);
    if CanTouch(d, n) {
      SlotPutGet(d, roles, n.ino, SealInode(d.g.csum, d.g.seed, n.ino, Touched(n.raw, now), d.g.inodeSize));
      SlotKeepsRecords(d, AfterTouch(d, n, now), roles, trees, n.ino);
    }
  }
}
