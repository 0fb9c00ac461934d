/** Publishing a file: one more record in one block of a directory, and what that does to the whole tree. */
module Publish {
  import opened Bytes
  import opened Bitmap
  import opened Directory
  import opened Disk
  import opened Inode
  import opened Extents
  import opened Volume
  import opened Frames
  import opened Slots
  import opened Reads
  import opened Metadata

  // ---- slots that say the same ----

  lemma SealedParse(csum: bool, seed: u32, ino: u32, raw: seq<byte>, inodeSize: nat)
    requires 128 <= |raw| == inodeSize
    ensures SameInode(ParseInode(SealInode(csum, seed, ino, raw, inodeSize), ino), ParseInode(raw, ino))
  {
    hide InodeChecksum, Lo16, Hi16, Enc16, SealInode;
    var r := SealInode(csum, seed, ino, raw, inodeSize);
    SealOutside(csum, seed, ino, raw, inodeSize);
    assert forall i :: 0 <= i < 124 ==> r[i] == r[..124][i] == raw[..124][i] == raw[i];
    assert r[40..100] == raw[40..100];
  }

  /** The slot with new change and modification times. */
  function Touched(raw: seq<byte>, now: u32): (r: seq<byte>)
    requires 128 <= |raw|
    ensures |r| == |raw|
  {
    Put(Put(raw, 12, Enc32(now)), 16, Enc32(now))
  }

  lemma TouchedParse(ino: u32, raw: seq<byte>, now: u32)
    requires 128 <= |raw|
    ensures SameInode(ParseInode(Touched(raw, now), ino), ParseInode(raw, ino))
  {
    hide Enc32;
    assert Touched(raw, now)[40..100] == raw[40..100];
  }

  /** The slot carries these change and modification times. */
  predicate TimesAre(raw: seq<byte>, now: u32) {
    128 <= |raw| && Le32(raw, 12) == now && Le32(raw, 16) == now
  }

  /** Nothing but the times and the checksum differs. */
  predicate BesideTimes(raw: seq<byte>, raw': seq<byte>) {
    && 128 <= |raw| == |raw'| && raw'[..12] == raw[..12] && raw'[20..124] == raw[20..124]
    && raw'[126..128] == raw[126..128] && (132 < |raw| ==> raw'[128..130] == raw[128..130] && raw'[132..] == raw[132..])
  }

  /** What of a directory's slot is written back after an insertion. */
  lemma TouchedSlot(csum: bool, seed: u32, ino: u32, raw: seq<byte>, now: u32)
    requires 128 <= |raw|
    ensures var r := SealInode(csum, seed, ino, Touched(raw, now), |raw|); TimesAre(r, now) && BesideTimes(raw, r)
  {
    hide SealInode, Enc32, Le32;
    var t := Touched(raw, now);
    var r := SealInode(csum, seed, ino, t, |raw|);
    SealOutside(csum, seed, ino, t, |raw|);
    SliceAgrees(r, t, 124, 0, 12);
    SliceAgrees(r, t, 124, 12, 16);
    SliceAgrees(r, t, 124, 16, 20);
    SliceAgrees(r, t, 124, 20, 124);
    Enc32Reads(r, 12, now);
    Enc32Reads(r, 16, now);
  }

  // ---- one directory block ----

  predicate RoomIn(s: seq<byte>, csum: bool, name: seq<byte>) {
    BlockOk(s, csum) && 0 < End(s, csum) && HasRoom(s, Last(s, 0, End(s, csum)), End(s, csum), name)
  }

  /** The block as it is written back: the new record, then the checksum tail. */
  function NewDirBlock(s: seq<byte>, csum: bool, seed: u32, n: Inode, child: u32, name: seq<byte>,
                       fileType: byte): (r: seq<byte>)
    requires RoomIn(s, csum, name)
    ensures |r| == |s|
  {
    SealDir(csum, seed, n.ino, n.generation,
            AddRecord(s, Last(s, 0, End(s, csum)), End(s, csum), child, name, fileType))
  }

  lemma SealedBlockOk(s: seq<byte>, t: seq<byte>, seed: u32, ino: u32, generation: u32)
    requires 12 < |t| && Chain(t, 0, |t| - 12)
    ensures var r := SealDir(true, seed, ino, generation, t);
            BlockOk(r, true) && ListTo(r, 0, |r| - 12) == ListTo(t, 0, |t| - 12)
  {
    hide SealDir, Chain, ListTo, DirMatches;
    var r := SealDir(true, seed, ino, generation, t);
    SealedDirMatches(seed, ino, generation, t);
    assert r[0..|t| - 12] == r[..|t| - 12] && t[0..|t| - 12] == t[..|t| - 12];
    ChainAgrees(t, r, 0, |t| - 12);
  }

  /** The new block is well-formed and lists exactly one more entry, at the end. */
  lemma NewBlockLists(s: seq<byte>, csum: bool, seed: u32, n: Inode, child: u32, name: seq<byte>, fileType: byte)
    requires RoomIn(s, csum, name)
    ensures var r := NewDirBlock(s, csum, seed, n, child, name, fileType);
            BlockOk(r, csum) && Links(Parse(r, |s|)) == Links(Parse(s, |s|)) + NewLinks(child, name, fileType)
  {
    hide Chain, ListTo, AddRecord, HasRoom, Parse, Links, NewLinks, Ino, RecLen, SealDir;
    var end := End(s, csum);
    var t := AddRecord(s, Last(s, 0, end), end, child, name, fileType);
    InsertLists(s, end, child, name, fileType);
    BlockParse(s, csum);
    if csum {
      SealedBlockOk(s, t, seed, n.ino, n.generation);
    } else {
      assert SealDir(csum, seed, n.ino, n.generation, t) == t by { UnsealedDir(seed, n.ino, n.generation, t); }
    }
    BlockParse(NewDirBlock(s, csum, seed, n, child, name, fileType), csum);
  }

  lemma UnsealedDir(seed: u32, ino: u32, generation: u32, t: seq<byte>)
    requires 12 <= |t|
    ensures SealDir(false, seed, ino, generation, t) == t
  {
  }

  // ---- the directory ----

  /** Two lists of blocks that differ in one place. */
  lemma {:induction false} OneBlockChanged(d: Disk, d': Disk, blocks: seq<nat>, j: nat)
    requires SameShape(d, d') && j < |blocks|
    requires forall i :: 0 <= i < |blocks| && i != j ==> Blk(d', blocks[i]) == Blk(d, blocks[i])
    ensures Listings(d, blocks)
            == Listings(d, blocks[..j]) + Parse(Blk(d, blocks[j]), d.g.blockSize) + Listings(d, blocks[j + 1..])
    ensures Listings(d', blocks)
            == Listings(d, blocks[..j]) + Parse(Blk(d', blocks[j]), d.g.blockSize) + Listings(d, blocks[j + 1..])
  {
    hide Blk, Parse, Listings;
    assert blocks == (blocks[..j] + [blocks[j]]) + blocks[j + 1..];
    ListingsAppend(d, blocks[..j] + [blocks[j]], blocks[j + 1..]);
    ListingsAppend(d', blocks[..j] + [blocks[j]], blocks[j + 1..]);
    ConcatOne(d, blocks[..j], blocks[j]);
    ConcatOne(d', blocks[..j], blocks[j]);
    ConcatFrame(d, d', blocks[..j]);
    ConcatFrame(d, d', blocks[j + 1..]);
  }

  // ---- the whole tree ----

  /** The `j`-th data block of live inode `ino` is nobody else's, and occurs nowhere else in its own tree. */
  lemma OwnedOnce(d: Disk, roles: Roles, ino: nat, n: Inode, t: Tree, j: nat)
    requires FileOk(d, roles, ino, n, t) && j < |DataBlocks(t)|
    ensures var b := DataBlocks(t)[j];
            && Owns(roles, b, FileRole(ino, |IndexBlocks(t)| + j))
            && b !in IndexBlocks(t)
            && forall i :: 0 <= i < |DataBlocks(t)| && i != j ==> DataBlocks(t)[i] != b
  {
    hide TreeAt, IndexBlocks, DataBlocks;
    var m, b := |IndexBlocks(t)|, DataBlocks(t)[j];
    assert AllBlocks(t)[m + j] == b;
    assert Owns(roles, AllBlocks(t)[m + j], FileRole(ino, m + j));
    forall k | 0 <= k < m ensures IndexBlocks(t)[k] != b {
      assert AllBlocks(t)[k] == IndexBlocks(t)[k];
      assert Owns(roles, AllBlocks(t)[k], FileRole(ino, k));
    }
    forall i | 0 <= i < |DataBlocks(t)| && i != j ensures DataBlocks(t)[i] != b {
      assert AllBlocks(t)[m + i] == DataBlocks(t)[i];
      assert Owns(roles, AllBlocks(t)[m + i], FileRole(ino, m + i));
    }
  }

  lemma ForeignBlock(d: Disk, roles: Roles, i: nat, n: Inode, t: Tree, b: nat, ino: nat, k: nat)
    requires FileOk(d, roles, i, n, t) && Owns(roles, b, FileRole(ino, k)) && i != ino
    ensures b !in AllBlocks(t)
  {
    hide TreeAt, AllBlocks;
    forall m | 0 <= m < |AllBlocks(t)| ensures AllBlocks(t)[m] != b {
      assert Owns(roles, AllBlocks(t)[m], FileRole(i, m));
    }
  }

  /** A file block is neither an inode slot nor a bitmap. */
  lemma FileBlockApart(d: Disk, d': Disk, roles: Roles, b: nat, ino: nat, k: nat)
    requires Layout(d.g, roles) && Owns(roles, b, FileRole(ino, k)) && SameBut(d, d', {b})
    ensures MapsKept(d, d')
    ensures forall i: u32 :: InodeAt(d', i) == InodeAt(d, i)
  {
    hide Blk, Bit, DescBlock, SlotBlock, InodeAt;
    forall group | 0 <= group < |d.g.places|
      ensures BitsKept(Blk(d, d.g.places[group].blockBitmap), Blk(d', d.g.places[group].blockBitmap))
      ensures BitsKept(Blk(d, d.g.places[group].inodeBitmap), Blk(d', d.g.places[group].inodeBitmap))
    {
      assert GroupPlaced(d.g, roles, group);
    }
    forall i: u32 ensures InodeAt(d', i) == InodeAt(d, i) {
      if ValidIno(d.g, i) { assert SlotPlaced(d.g, roles, i); }
      SlotFrame(d, d', i);
    }
  }

  /** Every live inode but the owner of a changed block reads the same. */
  lemma ForeignLive(d: Disk, d': Disk, roles: Roles, roles': Roles, trees: Trees, trees': Trees, i: nat, b: nat,
                    ino: nat, k: nat)
    requires i in trees && Live(d, roles, trees, i) && i != ino && Layout(d.g, roles)
    requires Owns(roles, b, FileRole(ino, k)) && SameBut(d, d', {b})
    requires RolesKept(roles, roles') && trees.Keys <= trees'.Keys && trees'[i] == trees[i]
    ensures Live(d', roles', trees', i) && SameFile(d, d', i, trees[i])
  {
    hide Blk, FileOk, DirOk, InodeAt, Layout, Listings, Concat, DataBlocks, AllBlocks, MapsKept, InodeUsed, RolesKept;
    FileBlockApart(d, d', roles, b, ino, k);
    ForeignBlock(d, roles, i, InodeAt(d, i), trees[i], b, ino, k);
    LiveUsed(d, roles, trees, i);
    InodeUsedKept(d, d', i);
    LiveKept(d, d', roles, roles', trees, trees', i);
  }

  lemma LiveUsed(d: Disk, roles: Roles, trees: Trees, i: nat)
    requires i in trees && Live(d, roles, trees, i)
    ensures i < 0x1_0000_0000 && InodeUsed(d, i) && FileOk(d, roles, i, InodeAt(d, i), trees[i])
  {
    hide Blk, FileOk, DirOk, InodeAt, InodeUsed;
  }

  /** The directory's own tree is untouched when one of its data blocks changes. */
  lemma ChangedFileOk(d: Disk, d': Disk, roles: Roles, roles': Roles, ino: nat, n: Inode, t: Tree, j: nat)
    requires FileOk(d, roles, ino, n, t) && j < |DataBlocks(t)| && SameBut(d, d', {DataBlocks(t)[j]})
             && RolesKept(roles, roles')
    ensures FileOk(d', roles', ino, n, t)
  {
    hide Blk, FileOk, DataBlocks, IndexBlocks;
    OwnedOnce(d, roles, ino, n, t, j);
    FileKept(d, d', roles, roles', ino, n, n, t);
  }

  /** The entries of the directory after one block changed. */
  lemma ChangedEntries(d: Disk, d': Disk, roles: Roles, ino: nat, n: Inode, t: Tree, j: nat)
    requires FileOk(d, roles, ino, n, t) && j < |DataBlocks(t)| && SameBut(d, d', {DataBlocks(t)[j]})
    ensures var blocks := DataBlocks(t);
            && Entries(d, t)
               == Listings(d, blocks[..j]) + Parse(Blk(d, blocks[j]), d.g.blockSize) + Listings(d, blocks[j + 1..])
            && Entries(d', t)
               == Listings(d, blocks[..j]) + Parse(Blk(d', blocks[j]), d.g.blockSize) + Listings(d, blocks[j + 1..])
  {
    hide Blk, FileOk, DataBlocks, IndexBlocks, Listings, Parse;
    OwnedOnce(d, roles, ino, n, t, j);
    OneBlockChanged(d, d', DataBlocks(t), j);
  }

  ghost predicate InodesIn(es: seq<DirEntry>, trees: Trees) { forall e :: e in es ==> e.inode in trees }

  lemma InodesLinks(es: seq<DirEntry>, trees: Trees)
    ensures InodesIn(Links(es), trees) <==> InodesIn(es, trees)
  {
    if InodesIn(es, trees) {
      forall e | e in Links(es) ensures e.inode in trees {
        var k :| 0 <= k < |es| && Links(es)[k] == e;
        assert es[k] in es;
      }
    }
    if InodesIn(Links(es), trees) {
      forall e | e in es ensures e.inode in trees {
        var k :| 0 <= k < |es| && es[k] == e;
        assert Links(es)[k] in Links(es);
      }
    }
  }

  lemma InodesAppend(a: seq<DirEntry>, b: seq<DirEntry>, trees: Trees)
    ensures InodesIn(a + b, trees) <==> InodesIn(a, trees) && InodesIn(b, trees)
  {
    assert forall e :: e in a + b <==> e in a || e in b;
  }

  lemma InodesMore(es: seq<DirEntry>, trees: Trees, trees': Trees)
    requires InodesIn(es, trees) && trees.Keys <= trees'.Keys
    ensures InodesIn(es, trees')
  {
  }

  /** A listing that grew by one entry in the middle still leads to live inodes only. */
  lemma GrownListing(a: seq<DirEntry>, p: seq<DirEntry>, p': seq<DirEntry>, b: seq<DirEntry>, added: seq<DirEntry>,
                     trees: Trees, trees': Trees)
    requires InodesIn(a + p + b, trees) && Links(p') == Links(p) + added && InodesIn(added, trees')
             && trees.Keys <= trees'.Keys
    ensures InodesIn(a + p' + b, trees')
    ensures Links(a + p' + b) == Links(a + p) + added + Links(b)
  {
    hide InodesIn, Links;
    InodesAppend(a + p, b, trees);
    InodesAppend(a, p, trees);
    InodesMore(a, trees, trees');
    InodesMore(p, trees, trees');
    InodesMore(b, trees, trees');
    InodesLinks(p, trees');
    InodesAppend(Links(p), added, trees');
    InodesLinks(p', trees');
    InodesAppend(a, p', trees');
    InodesAppend(a + p', b, trees');
    LinksAppend(a + p', b);
    LinksAppend(a, p');
    LinksAppend(a, p);
    assert Links(a) + (Links(p) + added) == (Links(a) + Links(p)) + added;
  }

  lemma ChangedDirOk(d: Disk, d': Disk, roles: Roles, trees: Trees, trees': Trees, ino: nat, n: Inode, t: Tree, j: nat,
                     added: seq<DirEntry>)
    requires FileOk(d, roles, ino, n, t) && DirOk(d, trees, n, t) && j < |DataBlocks(t)|
             && SameBut(d, d', {DataBlocks(t)[j]})
    requires trees.Keys <= trees'.Keys && InodesIn(added, trees')
    requires var b := DataBlocks(t)[j];
             && BlockOk(Blk(d', b), d.g.csum)
             && Links(Parse(Blk(d', b), d.g.blockSize)) == Links(Parse(Blk(d, b), d.g.blockSize)) + added
    ensures DirOk(d', trees', n, t)
    ensures var blocks := DataBlocks(t);
            Links(Entries(d', t)) == Links(Listings(d, blocks[..j + 1])) + added + Links(Listings(d, blocks[j + 1..]))
    ensures Entries(d, t) == Listings(d, DataBlocks(t)[..j + 1]) + Listings(d, DataBlocks(t)[j + 1..])
  {
    hide Blk, FileOk, DataBlocks, IndexBlocks, Listings, Parse, BlockOk, Links, Dense, Flatten;
    var blocks := DataBlocks(t);
    ChangedEntries(d, d', roles, ino, n, t, j);
    GrownListing(Listings(d, blocks[..j]), Parse(Blk(d, blocks[j]), d.g.blockSize),
                 Parse(Blk(d', blocks[j]), d.g.blockSize), Listings(d, blocks[j + 1..]), added, trees, trees');
    ConcatOne(d, blocks[..j], blocks[j]);
    assert blocks[..j + 1] == blocks[..j] + [blocks[j]];
  }

  lemma LayoutKept(g: Geo, roles: Roles, roles': Roles)
    requires Layout(g, roles) && RolesKept(roles, roles')
    ensures Layout(g, roles')
  {
    hide DescBlock, SlotBlock, SuperBlock, Group, TableIndex;
    forall group | 0 <= group < |g.places| ensures GroupPlaced(g, roles', group) {
      assert GroupPlaced(g, roles, group);
    }
    forall ino | ValidIno(g, ino) ensures SlotPlaced(g, roles', ino) { assert SlotPlaced(g, roles, ino); }
  }

  /** The directory itself is live after the insertion. */
  lemma ParentLive(d: Disk, d': Disk, roles: Roles, roles': Roles, trees: Trees, trees': Trees, parent: u32, j: nat,
                   added: seq<DirEntry>)
    requires parent in trees && Live(d, roles, trees, parent) && Layout(d.g, roles) && InodeAt(d, parent).IsDirectory()
    requires RolesKept(roles, roles') && trees.Keys <= trees'.Keys && trees'[parent] == trees[parent]
             && InodesIn(added, trees')
    requires j < |DataBlocks(trees[parent])| && SameBut(d, d', {DataBlocks(trees[parent])[j]})
    requires var b := DataBlocks(trees[parent])[j];
             && BlockOk(Blk(d', b), d.g.csum)
             && Links(Parse(Blk(d', b), d.g.blockSize)) == Links(Parse(Blk(d, b), d.g.blockSize)) + added
    ensures Live(d', roles', trees', parent) && InodeAt(d', parent) == InodeAt(d, parent)
    ensures var blocks := DataBlocks(trees[parent]);
            && Links(Entries(d', trees[parent]))
               == Links(Listings(d, blocks[..j + 1])) + added + Links(Listings(d, blocks[j + 1..]))
            && Entries(d, trees[parent]) == Listings(d, blocks[..j + 1]) + Listings(d, blocks[j + 1..])
  {
    hide Blk, FileOk, DirOk, DataBlocks, IndexBlocks, Listings, Parse, BlockOk, Links, InodeAt, Layout, MapsKept,
      InodeUsed, RolesKept, Entries;
    var n, t := InodeAt(d, parent), trees[parent];
    OwnedOnce(d, roles, parent, n, t, j);
    FileBlockApart(d, d', roles, DataBlocks(t)[j], parent, |IndexBlocks(t)| + j);
    ChangedFileOk(d, d', roles, roles', parent, n, t, j);
    ChangedDirOk(d, d', roles, trees, trees', parent, n, t, j, added);
    InodeUsedKept(d, d', parent);
  }

  /** A child whose own blocks are not the changed one is live after the insertion. */
  lemma ChildLive(d: Disk, d': Disk, roles': Roles, trees': Trees, child: u32, b: nat, parent: nat, k: nat)
    requires child in trees' && child != parent && Layout(d.g, roles') && Owns(roles', b, FileRole(parent, k))
             && SameBut(d, d', {b})
    requires InodeUsed(d, child) && FileOk(d, roles', child, InodeAt(d, child), trees'[child])
             && !InodeAt(d, child).IsDirectory()
    ensures Live(d', roles', trees', child) && InodeAt(d', child) == InodeAt(d, child)
    ensures Concat(d', DataBlocks(trees'[child])) == Concat(d, DataBlocks(trees'[child]))
  {
    hide Blk, FileOk, DirOk, DataBlocks, IndexBlocks, Listings, InodeAt, Layout, MapsKept, InodeUsed, AllBlocks, Concat;
    var n, t := InodeAt(d, child), trees'[child];
    FileBlockApart(d, d', roles', b, parent, k);
    ForeignBlock(d, roles', child, n, t, b, parent, k);
    InAllBlocks(d, d', t);
    FileKept(d, d', roles', roles', child, n, n, t);
    ConcatFrame(d, d', DataBlocks(t));
    InodeUsedKept(d, d', child);
  }

  /** A new inode is ready to be named: its bit and its blocks are taken, its slot and data are on the card,
      and no directory leads to it yet. */
  ghost predicate Staged(d: Disk, roles: Roles, roles': Roles, trees: Trees, child: u32, tree: Tree) {
    && child !in trees && RolesKept(roles, roles') && Marked(d, roles')
    && InodeUsed(d, child) && FileOk(d, roles', child, InodeAt(d, child), tree) && !InodeAt(d, child).IsDirectory()
  }

  /** One list is the other with `added` somewhere in between, record lengths aside. */
  ghost predicate ListingGrew(es: seq<DirEntry>, es': seq<DirEntry>, added: seq<DirEntry>) {
    exists k :: 0 <= k <= |es| && Links(es') == Links(es[..k]) + added + Links(es[k..])
  }

  /** The file system with one more file: everything else is as it was. */
  ghost predicate OneMoreFile(d: Disk, d': Disk, trees: Trees, trees': Trees, parent: u32, child: u32,
                              name: seq<byte>)
  {
    && parent in trees && child !in trees && trees'.Keys == trees.Keys + {child as nat}
    && (forall i :: i in trees ==> trees'[i] == trees[i])
    && (forall i :: i in trees && i < 0x1_0000_0000 && i != parent ==> SameFile(d, d', i, trees[i]))
    && SameInode(InodeAt(d', parent), InodeAt(d, parent))
    && ListingGrew(Entries(d, trees[parent]), Entries(d', trees[parent]), NewLinks(child, name, 1))
    && !InodeAt(d', child).IsDirectory()
  }

  /** The write of one directory block that publishes `child` under `name`. */
  ghost predicate Inserts(d: Disk, d': Disk, trees: Trees, parent: u32, j: nat, child: u32, name: seq<byte>) {
    && parent in trees && InodeAt(d, parent).IsDirectory() && j < |DataBlocks(trees[parent])|
    && var b := DataBlocks(trees[parent])[j];
       && RoomIn(Blk(d, b), d.g.csum, name) && |Blk(d, b)| == d.g.blockSize && SameBut(d, d', {b})
       && Blk(d', b) == NewDirBlock(Blk(d, b), d.g.csum, d.g.seed, InodeAt(d, parent), child, name, 1)
  }

  lemma NewLinksLive(child: u32, name: seq<byte>, trees: Trees)
    requires child in trees
    ensures InodesIn(NewLinks(child, name, 1), trees)
  {
  }

  lemma InsertsFacts(d: Disk, d': Disk, trees: Trees, parent: u32, j: nat, child: u32, name: seq<byte>)
    requires Inserts(d, d', trees, parent, j, child, name)
    ensures SameBut(d, d', {DataBlocks(trees[parent])[j]})
    ensures var b := DataBlocks(trees[parent])[j];
            && BlockOk(Blk(d', b), d.g.csum)
            && Links(Parse(Blk(d', b), d.g.blockSize))
               == Links(Parse(Blk(d, b), d.g.blockSize)) + NewLinks(child, name, 1)
  {
    hide Blk, DataBlocks, Parse, Links, NewLinks, RoomIn, BlockOk, InodeAt, NewDirBlock;
    var b := DataBlocks(trees[parent])[j];
    NewBlockLists(Blk(d, b), d.g.csum, d.g.seed, InodeAt(d, parent), child, name, 1);
  }

  /** Publishing a staged file yields a well-formed file system with exactly one more file. */
  lemma Published(d: Disk, d': Disk, roles: Roles, roles': Roles, trees: Trees, parent: u32, j: nat, child: u32,
                  tree: Tree, name: seq<byte>)
    requires WellFormed(d, roles, trees) && Staged(d, roles, roles', trees, child, tree)
    requires Inserts(d, d', trees, parent, j, child, name)
    ensures WellFormed(d', roles', trees[child := tree])
    ensures OneMoreFile(d, d', trees, trees[child := tree], parent, child, name)
    ensures InodeAt(d', child) == InodeAt(d, child)
    ensures Concat(d', DataBlocks(tree)) == Concat(d, DataBlocks(tree))
  {
    hide Blk, DataBlocks, Parse, Links, NewLinks, BlockOk, InodeAt, Layout, Marked, FileOk, SameFile, Listings, Concat,
      InodeUsed, Entries, IndexBlocks, DirOk, Live, RolesKept, SameInode, Fits;
    var trees' := trees[child := tree];
    var t := trees[parent];
    var b := DataBlocks(t)[j];
    InsertsFacts(d, d', trees, parent, j, child, name);
    SameButShape(d, d', {b});
    FitsKept(d, d');
    LayoutKept(d.g, roles, roles');
    LiveUsed(d, roles, trees, parent);
    OwnedOnce(d, roles, parent, InodeAt(d, parent), t, j);
    var k := |IndexBlocks(t)| + j;
    FileBlockApart(d, d', roles, b, parent, k);
    MarkedKept(d, d', roles');
    NewLinksLive(child, name, trees');
    ParentLive(d, d', roles, roles', trees, trees', parent, j, NewLinks(child, name, 1));
    OwnsKept(roles, roles', b, FileRole(parent, k));
    ChildLive(d, d', roles', trees', child, b, parent, k);
    forall i | i in trees && i != parent
      ensures Live(d', roles', trees', i) && (i < 0x1_0000_0000 ==> SameFile(d, d', i, trees[i]))
    {
      ForeignLive(d, d', roles, roles', trees, trees', i, b, parent, k);
    }
    GrewAt(Entries(d, t), Entries(d', t), Listings(d, DataBlocks(t)[..j + 1]), Listings(d, DataBlocks(t)[j + 1..]),
           NewLinks(child, name, 1));
    SameInodeRefl(InodeAt(d, parent));
  }

  lemma GrewAt(es: seq<DirEntry>, es': seq<DirEntry>, a: seq<DirEntry>, b: seq<DirEntry>, added: seq<DirEntry>)
    requires es == a + b && Links(es') == Links(a) + added + Links(b)
    ensures ListingGrew(es, es', added)
  {
    hide Links;
    assert es[..|a|] == a && es[|a|..] == b;
  }

  lemma SameInodeRefl(n: Inode)
    ensures SameInode(n, n)
  {
  }

  lemma SameButShape(d: Disk, d': Disk, s: set<nat>)
    requires SameBut(d, d', s)
    ensures SameShape(d, d')
  {
    hide Blk;
  }

  lemma OwnsKept(roles: Roles, roles': Roles, b: nat, r: Role)
    requires RolesKept(roles, roles') && Owns(roles, b, r)
    ensures Owns(roles', b, r)
  {
  }

  // ---- the two writes of an insertion ----

  /** The disk after the directory block is written back. */
  function AfterInsert(d: Disk, n: Inode, b: nat, child: u32, name: seq<byte>): (d': Disk)
    ensures SameShape(d, d')
  {
    if RoomIn(Blk(d, b), d.g.csum, name) && InRange(d, b) then
      WithBlk(d, b, NewDirBlock(Blk(d, b), d.g.csum, d.g.seed, n, child, name, 1))
    else d
  }

  predicate CanTouch(d: Disk, n: Inode) {
    SlotFits(d, n.ino) && InRange(d, SlotBlock(d.g, n.ino)) && |n.raw| == d.g.inodeSize
  }

  /** The disk after the directory's times are updated. */
  function AfterTouch(d: Disk, n: Inode, now: u32): (d': Disk)
    ensures SameShape(d, d')
  {
    if CanTouch(d, n) then
      WithSlot(d, n.ino, SealInode(d.g.csum, d.g.seed, n.ino, Touched(n.raw, now), d.g.inodeSize))
    else d
  }

  /** How an insertion that found room in the `at`-th block ended: complete, or stopped before either write, or
      complete and reported as failed. */
  ghost predicate Inserted(d: Disk, d': Disk, n: Inode, t: Tree, at: nat, child: u32, name: seq<byte>, now: u32,
                           ok: bool)
  {
    && at < |DataBlocks(t)| && RoomIn(Blk(d, DataBlocks(t)[at]), d.g.csum, name)
    && var d1 := AfterInsert(d, n, DataBlocks(t)[at], child, name);
       d' == AfterTouch(d1, n, now) || (!ok && (d' == d || d' == d1))
  }
}
