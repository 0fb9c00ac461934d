/** Renaming an entry in place, and what it means for every path. */
module Rename {
  import opened Bytes
  import opened Directory
  import opened Disk
  import opened Inode
  import opened Extents
  import opened Volume
  import opened Frames
  import opened Metadata
  import opened Descs
  import opened Publish
  import opened Staging
  import opened Overwrite
  import opened Handles

  // ---- listings ----

  lemma {:induction false} RenamedSame(es: seq<DirEntry>, name: seq<byte>)
    ensures Renamed(es, name, name) == es
  {
    if es != [] { RenamedSame(es[1..], name); }
  }

  lemma {:induction false} RenamedInodes(es: seq<DirEntry>, name: seq<byte>, name': seq<byte>, trees: Trees)
    requires InodesIn(es, trees)
    ensures InodesIn(Renamed(es, name, name'), trees)
  {
    if es != [] {
      assert forall e :: e in es[1..] ==> e in es;
      RenamedInodes(es[1..], name, name', trees);
      assert InodesIn([es[0]], trees) && InodesIn(es[1..], trees);
      InodesAppend([es[0].(name := name')], es[1..], trees);
      InodesAppend([es[0]], Renamed(es[1..], name, name'), trees);
    }
  }

  /** Renaming in the middle of a listing that does not mention the name before. */
  lemma RenamedMiddle(a: seq<DirEntry>, p: seq<DirEntry>, b: seq<DirEntry>, name: seq<byte>, name': seq<byte>)
    requires name == name' || (!HasName(a, name) && HasName(p, name))
    ensures Renamed(a + p + b, name, name') == a + Renamed(p, name, name') + b
  {
    hide Renamed, HasName;
    if name == name' {
      RenamedSame(a + p + b, name);
      RenamedSame(p, name);
    } else {
      assert a + p + b == a + (p + b);
      RenamedAppend(a, p + b, name, name');
      RenamedAppend(p, b, name, name');
    }
  }

  // ---- one block ----

  /** The block that renaming writes back. */
  function RenamedBlock(s: seq<byte>, csum: bool, seed: u32, n: Inode, q: nat, name': seq<byte>): (r: seq<byte>)
    requires q + 8 + |name'| <= |s| && 12 <= |s|
    ensures |r| == |s|
  {
    SealDir(csum, seed, n.ino, n.generation, Put(s, q + 8, name'))
  }

  lemma {:induction false} MatchFits(s: seq<byte>, p: nat, name: seq<byte>)
    ensures Match(s, p, name).Some? ==> Match(s, p, name).value + 8 + |name| <= |s|
    decreases |s| - p
  {
    hide Ino, RecLen, NameLen, FileType;
    if Header(s, p) && RecLen(s, p) != 0 && !Matches(s, p, name) { MatchFits(s, p + RecLen(s, p), name); }
  }

  /** Sealing a block of tiled records keeps what it lists. */
  lemma SealedLists(t: seq<byte>, csum: bool, seed: u32, n: Inode)
    requires 12 < |t| && Chain(t, 0, End(t, csum))
    ensures var r := SealDir(csum, seed, n.ino, n.generation, t);
            BlockOk(r, csum) && Parse(r, |t|) == ListTo(t, 0, End(t, csum))
  {
    hide Chain, ListTo, Parse, SealDir, Ino, RecLen;
    var r := SealDir(csum, seed, n.ino, n.generation, t);
    if csum {
      SealedBlockOk(t, t, seed, n.ino, n.generation);
    } else {
      UnsealedDir(seed, n.ino, n.generation, t);
    }
    BlockParse(r, csum);
  }

  /** Overwriting the name that the search found renames the first entry of that name. */
  lemma MatchRenamed(s: seq<byte>, csum: bool, name: seq<byte>, name': seq<byte>)
    requires BlockOk(s, csum) && |name'| == |name|
    ensures name != [] ==> (Match(s, 0, name).Some? <==> HasName(ListTo(s, 0, End(s, csum)), name))
    ensures Match(s, 0, name).Some? ==>
              && Match(s, 0, name).value + 8 + |name'| <= |s|
              && var t := Put(s, Match(s, 0, name).value + 8, name');
                 |t| == |s| && Chain(t, 0, End(t, csum))
                   && ListTo(t, 0, End(t, csum)) == Renamed(ListTo(s, 0, End(s, csum)), name, name')
  {
    hide Match, Chain, ListTo, Ino, RecLen, HasName, Renamed, Put;
    MatchFits(s, 0, name);
    if name != [] {
      RenameLists(s, 0, csum, name, name');
    } else {
      RenamedSame(ListTo(s, 0, End(s, csum)), name);
    }
    if Match(s, 0, name).Some? {
      PutLength(s, Match(s, 0, name).value + 8, name');
      if name == [] { NothingPut(s, Match(s, 0, name).value + 8); }
    }
  }

  lemma SealedRenamed(s: seq<byte>, t: seq<byte>, csum: bool, seed: u32, n: Inode, name: seq<byte>, name': seq<byte>)
    requires BlockOk(s, csum) && 12 < |s| == |t| && Chain(s, 0, End(s, csum)) && Chain(t, 0, End(t, csum))
    requires ListTo(t, 0, End(t, csum)) == Renamed(ListTo(s, 0, End(s, csum)), name, name')
    ensures var r := SealDir(csum, seed, n.ino, n.generation, t);
            BlockOk(r, csum) && Parse(r, |s|) == Renamed(Parse(s, |s|), name, name')
  {
    hide Chain, ListTo, Parse, SealDir, Renamed, BlockOk, End;
    BlockParse(s, csum);
    SealedLists(t, csum, seed, n);
  }

  /** A block is searched successfully exactly when it lists the name. */
  lemma MatchListed(s: seq<byte>, csum: bool, name: seq<byte>)
    requires BlockOk(s, csum)
    ensures Match(s, 0, name).Some? ==> Match(s, 0, name).value + 8 + |name| <= |s|
    ensures name != [] ==> (Match(s, 0, name).Some? <==> HasName(Parse(s, |s|), name))
  {
    hide Match, ListTo, Parse, HasName, BlockOk, End;
    BlockLong(s, csum);
    BlockParse(s, csum);
    MatchFits(s, 0, name);
    MatchRenamed(s, csum, name, name);
  }

  /** The block then lists the new name instead. */
  lemma BlockRenamed(s: seq<byte>, csum: bool, seed: u32, n: Inode, name: seq<byte>, name': seq<byte>, q: nat)
    requires BlockOk(s, csum) && |name'| == |name| && 12 <= |s| && q + 8 + |name'| <= |s|
             && Match(s, 0, name) == Some(q)
    ensures var r := RenamedBlock(s, csum, seed, n, q, name');
            BlockOk(r, csum) && Parse(r, |s|) == Renamed(Parse(s, |s|), name, name')
  {
    hide Match, Chain, ListTo, Parse, SealDir, Put, HasName, Renamed, BlockOk, End;
    BlockLong(s, csum);
    MatchRenamed(s, csum, name, name');
    SealedRenamed(s, Put(s, q + 8, name'), csum, seed, n, name, name');
  }

  lemma BlockLong(s: seq<byte>, csum: bool)
    requires BlockOk(s, csum)
    ensures 12 < |s| && Chain(s, 0, End(s, csum))
  {
    hide Chain, Ino, RecLen;
  }

  lemma NothingPut(s: seq<byte>, o: nat)
    requires o <= |s|
    ensures Put(s, o, []) == s
  {
  }

  lemma PutLength(s: seq<byte>, o: nat, d: seq<byte>)
    requires o + |d| <= |s|
    ensures |Put(s, o, d)| == |s|
  {
  }

  // ---- the directory ----

  /** Block `j` of the directory is the first in which the search succeeds, and `d'` is `d` with it rewritten. */
  ghost predicate RenamesAt(d: Disk, d': Disk, n: Inode, t: Tree, j: nat, name: seq<byte>, name': seq<byte>) {
    && j < |DataBlocks(t)| && |name'| == |name|
    && (forall m :: 0 <= m < j ==> Unlisted(d, t, m, name))
    && var b := DataBlocks(t)[j];
       var q := Match(Blk(d, b), 0, name);
       && q.Some? && q.value + 8 + |name'| <= |Blk(d, b)| && 12 <= |Blk(d, b)| == d.g.blockSize
       && SameBut(d, d', {b}) && Blk(d', b) == RenamedBlock(Blk(d, b), d.g.csum, d.g.seed, n, q.value, name')
  }

  ghost predicate Unlisted(d: Disk, t: Tree, m: nat, name: seq<byte>) {
    m < |DataBlocks(t)| ==> Match(Blk(d, DataBlocks(t)[m]), 0, name).None?
  }

  /** The directory lists the new name where it listed the old one first; everything else is as it was. */
  ghost predicate EntryRenamed(d: Disk, d': Disk, trees: Trees, parent: u32, name: seq<byte>, name': seq<byte>) {
    && parent in trees && SameShape(d, d')
    && Entries(d', trees[parent]) == Renamed(Entries(d, trees[parent]), name, name')
    && InodeAt(d', parent) == InodeAt(d, parent)
    && OthersSame(d, d', trees, parent) && RecordsSame(d, d')
  }

  lemma HasNameAppend(a: seq<DirEntry>, b: seq<DirEntry>, name: seq<byte>)
    ensures HasName(a + b, name) <==> HasName(a, name) || HasName(b, name)
  {
    assert forall k :: 0 <= k < |a + b| ==> (a + b)[k] == if k < |a| then a[k] else b[k - |a|];
    if HasName(b, name) {
      var k :| 0 <= k < |b| && b[k].name == name;
      assert (a + b)[|a| + k].name == name;
    }
    if HasName(a, name) {
      var k :| 0 <= k < |a| && a[k].name == name;
      assert (a + b)[k].name == name;
    }
  }

  /** What the blocks of a directory list together. */
  lemma {:induction false} ListedBefore(d: Disk, t: Tree, j: nat, name: seq<byte>)
    requires j <= |DataBlocks(t)| && name != []
    requires forall m :: 0 <= m < j ==> GoodBlock(d, DataBlocks(t)[m])
    ensures HasName(Listings(d, DataBlocks(t)[..j]), name) <==> exists m :: 0 <= m < j && !Unlisted(d, t, m, name)
  {
    hide Blk, DataBlocks, Parse, Match, HasName, BlockOk;
    var blocks := DataBlocks(t);
    if j == 0 {
      assert !HasName([], name) by { NothingListed(name); }
    } else {
      ListedBefore(d, t, j - 1, name);
      assert blocks[..j][..j - 1] == blocks[..j - 1];
      assert GoodBlock(d, blocks[j - 1]);
      HasNameAppend(Listings(d, blocks[..j - 1]), Parse(Blk(d, blocks[j - 1]), d.g.blockSize), name);
      MatchListed(Blk(d, blocks[j - 1]), d.g.csum, name);
      assert Unlisted(d, t, j - 1, name) <==> !HasName(Parse(Blk(d, blocks[j - 1]), d.g.blockSize), name);
    }
  }

  lemma NothingListed(name: seq<byte>)
    ensures !HasName([], name)
  {
  }

  ghost predicate GoodBlock(d: Disk, b: nat) { |Blk(d, b)| == d.g.blockSize && BlockOk(Blk(d, b), d.g.csum) }

  lemma DirBlocksGood(d: Disk, roles: Roles, trees: Trees, ino: u32)
    requires WellFormed(d, roles, trees) && ino in trees && InodeAt(d, ino).IsDirectory()
    ensures forall m :: 0 <= m < |DataBlocks(trees[ino])| ==> GoodBlock(d, DataBlocks(trees[ino])[m])
    ensures FileOk(d, roles, ino, InodeAt(d, ino), trees[ino]) && DirOk(d, trees, InodeAt(d, ino), trees[ino])
    ensures InodeUsed(d, ino)
  {
    hide Layout, Marked, Fits, FileOk, BlockOk, InodeAt, Listings, InodeUsed, DataBlocks, Blk, Dense, Flatten;
    assert Live(d, roles, trees, ino);
    forall m | 0 <= m < |DataBlocks(trees[ino])| ensures GoodBlock(d, DataBlocks(trees[ino])[m]) {
      BlockOfLive(d, roles, trees, ino, m);
      assert DataBlocks(trees[ino])[m] in DataBlocks(trees[ino]);
    }
  }

  /** The entries after the rewriting, and that they still lead to live inodes only. */
  lemma RenamedEntries(d: Disk, d': Disk, roles: Roles, trees: Trees, parent: u32, j: nat, name: seq<byte>,
                       name': seq<byte>)
    requires WellFormed(d, roles, trees) && parent in trees && InodeAt(d, parent).IsDirectory()
    requires RenamesAt(d, d', InodeAt(d, parent), trees[parent], j, name, name')
    ensures Entries(d', trees[parent]) == Renamed(Entries(d, trees[parent]), name, name')
    ensures InodesIn(Entries(d', trees[parent]), trees) && GoodBlock(d', DataBlocks(trees[parent])[j])
  {
    hide WellFormed, Blk, DataBlocks, InodeAt, FileOk, Match, Parse, BlockOk, Renamed, HasName, RenamedBlock, Listings,
      SameBut, Entries, Unlisted, Flatten, Dense;
    var t := trees[parent];
    var blocks := DataBlocks(t);
    var n, b := InodeAt(d, parent), blocks[j];
    DirBlocksGood(d, roles, trees, parent);
    ChangedEntries(d, d', roles, parent, n, t, j);
    var a, p, c := Listings(d, blocks[..j]), Parse(Blk(d, b), d.g.blockSize), Listings(d, blocks[j + 1..]);
    assert GoodBlock(d, b);
    BlockRenamed(Blk(d, b), d.g.csum, d.g.seed, n, name, name', Match(Blk(d, b), 0, name).value);
    if name == [] {
      assert name' == name;
    } else {
      ListedBefore(d, t, j, name);
      MatchListed(Blk(d, b), d.g.csum, name);
    }
    RenamedMiddle(a, p, c, name, name');
    DirInodes(d, trees, n, t);
    RenamedInodes(Entries(d, t), name, name', trees);
    SameButShape(d, d', {b});
  }

  lemma DirInodes(d: Disk, trees: Trees, n: Inode, t: Tree)
    requires DirOk(d, trees, n, t)
    ensures InodesIn(Entries(d, t), trees)
  {
    hide Listings, DataBlocks, BlockOk, Dense, Flatten, Blk;
  }

  /** The directory is live with its new contents. */
  lemma RenamedDirOk(d: Disk, d': Disk, trees: Trees, n: Inode, t: Tree, j: nat)
    requires DirOk(d, trees, n, t) && j < |DataBlocks(t)| && SameBut(d, d', {DataBlocks(t)[j]})
    requires InodesIn(Entries(d', t), trees) && GoodBlock(d', DataBlocks(t)[j])
    ensures DirOk(d', trees, n, t)
  {
    hide Listings, DataBlocks, BlockOk, Dense, Flatten, Blk;
  }

  /** Rewriting the block renames the entry, and nothing else on the disk means anything different. */
  lemma RenamedWellFormed(d: Disk, d': Disk, roles: Roles, trees: Trees, parent: u32, j: nat, name: seq<byte>,
                          name': seq<byte>)
    requires WellFormed(d, roles, trees) && parent in trees && InodeAt(d, parent).IsDirectory()
    requires RenamesAt(d, d', InodeAt(d, parent), trees[parent], j, name, name')
    ensures WellFormed(d', roles, trees) && EntryRenamed(d, d', trees, parent, name, name')
  {
    hide Blk, DataBlocks, InodeAt, Layout, Marked, FileOk, SameFile, IndexBlocks, Live, Fits, RecordsSame, MapsKept,
      Match, RenamedBlock, Entries, DirOk, InodeUsed, Unlisted, SameBut, GoodBlock, Renamed, InodesIn;
    var t := trees[parent];
    var b, k := DataBlocks(t)[j], |IndexBlocks(t)| + j;
    var n := InodeAt(d, parent);
    SameButShape(d, d', {b});
    FitsKept(d, d');
    DirBlocksGood(d, roles, trees, parent);
    RenamedEntries(d, d', roles, trees, parent, j, name, name');
    OwnedOnce(d, roles, parent, n, t, j);
    FileBlockApart(d, d', roles, b, parent, k);
    MarkedKept(d, d', roles);
    OffRecords(d, d', roles, b);
    ChangedFileOk(d, d', roles, roles, parent, n, t, j);
    RenamedDirOk(d, d', trees, n, t, j);
    InodeUsedKept(d, d', parent);
    LiveBound32(d, roles, trees, parent);
    IsLive(d', roles, trees, parent);
    forall i | i in trees && i != parent
      ensures Live(d', roles, trees, i) && (i < 0x1_0000_0000 ==> SameFile(d, d', i, trees[i]))
    {
      ForeignLive(d, d', roles, roles, trees, trees, i, b, parent, k);
    }
  }

  lemma LiveBound32(d: Disk, roles: Roles, trees: Trees, ino: nat)
    requires WellFormed(d, roles, trees) && ino in trees
    ensures ino < 0x1_0000_0000
  {
    hide Layout, Marked, Fits, FileOk, DirOk, InodeUsed, InodeAt;
    assert Live(d, roles, trees, ino);
  }

  lemma IsLive(d: Disk, roles: Roles, trees: Trees, ino: u32)
    requires ino in trees && InodeUsed(d, ino) && FileOk(d, roles, ino, InodeAt(d, ino), trees[ino])
    requires DirOk(d, trees, InodeAt(d, ino), trees[ino])
    ensures Live(d, roles, trees, ino)
  {
    hide InodeUsed, FileOk, DirOk, InodeAt;
  }

  /** The search through all blocks of a directory succeeds exactly when the directory lists the name. */
  lemma ListedIn(d: Disk, roles: Roles, trees: Trees, ino: u32, name: seq<byte>)
    requires WellFormed(d, roles, trees) && ino in trees && InodeAt(d, ino).IsDirectory()
    ensures name != [] ==>
              (HasName(Entries(d, trees[ino]), name) <==>
               exists m :: 0 <= m < |DataBlocks(trees[ino])| && !Unlisted(d, trees[ino], m, name))
  {
    hide WellFormed, InodeAt, DataBlocks, HasName, Unlisted, Blk, FileOk, DirOk, GoodBlock, InodeUsed;
    DirBlocksGood(d, roles, trees, ino);
    var t := trees[ino];
    assert DataBlocks(t)[..|DataBlocks(t)|] == DataBlocks(t);
    if name != [] { ListedBefore(d, t, |DataBlocks(t)|, name); }
  }

  lemma RenamedSeals(h: Handle, h': Handle, trees: Trees, parent: u32, name: seq<byte>, name': seq<byte>)
    requires EntryRenamed(h.d, h'.d, trees, parent, name, name') && h'.(d := h.d) == h && |h.d.g.places| == |h.gds|
    ensures (Sealed(h) ==> Sealed(h')) && (Coherent(h) ==> Coherent(h')) && (Kindred(h) ==> Kindred(h'))
    ensures h'.d.g == h.d.g
  {
    hide Sealed, Coherent, Kindred, RecordsSame, Entries, InodeAt, OthersSame, Renamed;
    SealedKept(h, h');
  }
}
