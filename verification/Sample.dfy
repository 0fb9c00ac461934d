/** A small file system that is well-formed: nothing proved of well-formed file systems is empty talk. */
module Sample {
  import opened Bytes
  import opened Bitmap
  import opened Directory
  import opened Disk
  import opened Inode
  import opened Extents
  import opened Volume
  import opened Metadata
  import opened Alloc
  import opened Publish
  import opened Paths
  import opened Descs
  import opened Handles
  import opened Opening
  import opened Accounting
  import opened Staging
  import opened CreateLaws
  import opened NewInode
  import opened Reads

  /** Sixteen blocks of 1 KiB: superblock, descriptors, the two bitmaps, two blocks of inodes, one directory block. */
  const G := Geo(0, 16, 1024, 16, 16, 128, 32, false, true, false, 0, [Places(3, 4, 5)])

  function SuperByte(o: nat): byte {
    if o == 0 || o == 4 || o == 32 || o == 40 then 16
    else if o == 12 then 8
    else if o == 16 then 5
    else if o == 56 then 0x53
    else if o == 57 then 0xEF
    else if o == 88 then 128
    else if o == 96 then 0x40
    else 0
  }

  function DescByte(o: nat): byte {
    if o == 0 then 3 else if o == 4 then 4 else if o == 8 then 5 else if o == 12 then 8 else if o == 14 then 5 else 0
  }

  /** The table of inodes: the root directory's, with `m` in the first byte of its root's magic. */
  function InodeByte(m: byte, o: nat): byte {
    if o == 129 then 0x40
    else if o == 133 then 0x04
    else if o == 162 then 0x08
    else if o == 168 then m
    else if o == 169 then 0xF3
    else if o == 170 then 0x01
    else if o == 172 then 0x04
    else if o == 184 then 0x01
    else if o == 188 then 0x07
    else 0
  }

  function SampleByte(m: byte, b: nat, o: nat): byte {
    if b == 1 then SuperByte(o)
    else if b == 2 then DescByte(o)
    else if b == 3 then (if o == 0 then 0x7F else if o == 1 then 0x80 else 0)
    else if b == 4 then (if o == 0 then 0xFF else if o == 1 then 0x07 else 0)
    else if b == 5 then InodeByte(m, o)
    else if b == 7 then (if o == 5 then 0x04 else 0)
    else 0
  }

  /** The byte that makes the magic right. */
  const SOUND: byte := 0x0A

  /** The card. With `SOUND` nothing about it is damaged; with any other byte the root directory's extent magic is. */
  function SampleDisk(m: byte): (d: Disk)
    ensures d.g == G && |d.card| == 16 * 1024
    ensures forall i :: 0 <= i < 16 * 1024 ==> d.card[i] == SampleByte(m, i / 1024, i % 1024)
  {
    Disk(G, seq(16 * 1024, i requires 0 <= i => SampleByte(m, i / 1024, i % 1024)))
  }

  const ROLES: Roles := map[
    1 := SuperRole, 2 := DescRole, 3 := BlockMapRole(0), 4 := InodeMapRole(0), 5 := TableRole(0, 0),
    6 := TableRole(0, 1), 7 := FileRole(2, 0)]

  const ROOT_TREE := Leaf([Extent(0, 1, 7)])
  const TREES: Trees := map[2 := ROOT_TREE]

  lemma SampleBlock(m: byte, b: nat)
    requires b < 16
    ensures InRange(SampleDisk(m), b) && |Blk(SampleDisk(m), b)| == 1024
    ensures forall o :: 0 <= o < 1024 ==> Blk(SampleDisk(m), b)[o] == SampleByte(m, b, o)
  {
    var d := SampleDisk(m);
    assert Base(G, b) == b * 1024;
    forall o | 0 <= o < 1024 ensures Blk(d, b)[o] == SampleByte(m, b, o) {
      assert (b * 1024 + o) / 1024 == b && (b * 1024 + o) % 1024 == o;
    }
  }

  /** The blocks from 1 to 7 are taken, and so is the place of the first block past the end. */
  lemma BlockBits(m: byte, k: nat)
    requires k < 16
    ensures Bit(Blk(SampleDisk(m), 3), k) <==> k < 7 || k == 15
  {
    SampleBlock(m, 3);
    assert Pow2(7) == 0x80;
    if k < 7 { Full(7, k); }
    assert On(0x80, 7) && !On(0x7F, 7);
    assert !On(0x80, 0) && !On(0x80, 1) && !On(0x80, 2) && !On(0x80, 3) && !On(0x80, 4) && !On(0x80, 5) && !On(0x80, 6);
  }

  /** The first eleven inodes are taken. */
  lemma InodeBits(m: byte, k: nat)
    requires k < 16
    ensures Bit(Blk(SampleDisk(m), 4), k) <==> k < 11
  {
    SampleBlock(m, 4);
    assert Pow2(8) == 0x100 && Pow2(3) == 8;
    if k < 8 { Full(8, k); } else if k < 11 { Full(3, k - 8); }
    assert !On(7, 3) && !On(7, 4) && !On(7, 5) && !On(7, 6) && !On(7, 7);
  }

  lemma SampleLayout()
    ensures Layout(G, ROLES)
  {
    forall ino | ValidIno(G, ino) ensures SlotPlaced(G, ROLES, ino) {
      assert (ino - 1) / 16 == 0;
    }
  }

  lemma SampleMarked(m: byte)
    ensures Marked(SampleDisk(m), ROLES)
  {
    hide Blk, Bit;
    var d := SampleDisk(m);
    forall b | b in ROLES ensures b < d.g.blockCount && BlockUsed(d, b) {
      assert 1 <= b <= 7;
      BlockBits(m, b - 1);
    }
    forall b: nat | Addressable(d.g, b) && !BlockUsed(d, b) ensures b < d.g.blockCount {
      assert (b - 1) / 16 < 1;
      if b == 16 { BlockBits(m, 15); }
    }
  }

  /** The root directory's inode. */
  lemma SampleRoot(m: byte)
    ensures var n := InodeAt(SampleDisk(m), 2);
            && n.IsDirectory() && n.HasExtents() && n.size == 1024 && n.generation == 0
            && forall i :: 0 <= i < 60 ==> n.iBlock[i] == SampleByte(m, 5, 168 + i)
  {
    hide Blk, SampleByte;
    var d := SampleDisk(m);
    SampleBlock(m, 5);
    var data := Slot(d, 2);
    assert SlotBlock(G, 2) == 5 && SlotOffset(G, 2) == 128;
    assert data == Blk(d, 5)[128..256];
    assert forall i :: 0 <= i < 128 ==> data[i] == SampleByte(m, 5, 128 + i);
    RootFields(m, data);
  }

  lemma RootFields(m: byte, data: seq<byte>)
    requires |data| == 128 && forall i :: 0 <= i < 128 ==> data[i] == SampleByte(m, 5, 128 + i)
    ensures Le16(data, 0) == 0x4000 && Le32(data, 4) == 1024 && Le32(data, 32) == 0x8_0000 && Le32(data, 100) == 0
  {
  }

  lemma SampleTree(m: byte, data: seq<byte>)
    requires |data| == 60 && forall i :: 0 <= i < 60 ==> data[i] == SampleByte(m, 5, 168 + i)
    ensures TreeAt(SampleDisk(m), data, true, ROOT_TREE)
  {
    assert Le16(data, 2) == 1 && Le16(data, 6) == 0;
    assert ExtentAt(data, 12) == Extent(0, 1, 7);
    hide Le16, Le32, ExtentAt, SampleDisk, Blk;
    assert NodeBody(data).extents == [Extent(0, 1, 7)];
  }

  /** The directory block holds one empty record over its whole length. */
  lemma SampleDirectory(m: byte)
    ensures BlockOk(Blk(SampleDisk(m), 7), false) && Parse(Blk(SampleDisk(m), 7), 1024) == []
  {
    hide Blk;
    SampleBlock(m, 7);
    EmptyBlock(m, Blk(SampleDisk(m), 7));
  }

  lemma EmptyBlock(m: byte, s: seq<byte>)
    requires |s| == 1024 && forall o :: 0 <= o < 1024 ==> s[o] == SampleByte(m, 7, o)
    ensures BlockOk(s, false) && Parse(s, 1024) == []
  {
    assert Le32(s, 0) == 0 && Le16(s, 4) == 1024;
    hide Le32, Le16, SampleByte;
    assert RecordOk(s, 0, 1024) && Chain(s, 1024, 1024);
    BlockParse(s, false);
  }

  lemma RootBlocks()
    ensures DataBlocks(ROOT_TREE) == [7] && AllBlocks(ROOT_TREE) == [7] && Dense(Flatten(ROOT_TREE))
  {
    var e := Extent(0, 1, 7);
    assert Run(e) == [7];
    assert [e][..0] == [] && Runs([e]) == Runs([]) + Run(e);
    assert Flatten(ROOT_TREE)[..0] == [];
  }

  /** The sample is well-formed. */
  lemma SampleWellFormed(m: byte)
    ensures WellFormed(SampleDisk(m), ROLES, TREES)
  {
    hide Blk, Bit, TreeAt, Layout, Marked, DataBlocks, AllBlocks, Dense, BlockOk, InodeAt, Parse, SampleDisk;
    var d := SampleDisk(m);
    SampleLayout();
    SampleMarked(m);
    SampleRoot(m);
    var n := InodeAt(d, 2);
    SampleTree(m, n.iBlock);
    RootBlocks();
    SampleDirectory(m);
    InodeBits(m, 1);
    RootEntries(d);
  }

  lemma RootEntries(d: Disk)
    requires DataBlocks(ROOT_TREE) == [7] && d.g.blockSize == 1024 && Parse(Blk(d, 7), 1024) == []
    ensures Entries(d, ROOT_TREE) == []
  {
    hide Blk, DataBlocks, Parse;
    assert [7][..0] == [];
    assert Listings(d, [7]) == Listings(d, []) + Parse(Blk(d, 7), 1024);
  }

  const SUPER := Superblock(16, 16, 8, 5, 1024, 16, 16, 128, 32, 1, false, true, false, false, 0)
  const DESC := GroupDesc(3, 4, 5, 8, 5)

  function SampleHandle(m: byte): Handle { Handle(SampleDisk(m), SUPER, [DESC]) }

  lemma EmptyHasRoom(m: byte, s: seq<byte>, name: seq<byte>)
    requires |s| == 1024 && forall o :: 0 <= o < 1024 ==> s[o] == SampleByte(m, 7, o)
    requires |name| <= 1016
    ensures RoomIn(s, false, name)
  {
    EmptyBlock(m, s);
    assert Le32(s, 0) == 0 && Le16(s, 4) == 1024;
    hide Le32, Le16, SampleByte;
    assert Last(s, 0, 1024) == 0;
  }

  // ---- opening it ----

  lemma SuperFields(s: seq<byte>)
    requires |s| == 1024 && forall o :: 0 <= o < 1024 ==> s[o] == SuperByte(o)
    ensures Le32(s, 0) == 16 && Le32(s, 4) == 16 && Le32(s, 12) == 8 && Le32(s, 16) == 5 && Le32(s, 24) == 0
    ensures Le32(s, 32) == 16 && Le32(s, 40) == 16 && Le16(s, 56) == 0xEF53 && Le16(s, 88) == 128
    ensures Le32(s, 92) == 0 && Le32(s, 96) == 0x40 && Le32(s, 100) == 0
  {
  }

  lemma SampleFlags()
    ensures !Flag(0x40, 7) && !Flag(0, 10) && Flag(0x40, 6) && !Flag(0, 2) && BlockSize(0) == 1024
  {
    assert Pow2(6) == 0x40 && Pow2(7) == 0x80;
  }

  lemma SampleSuper(s: seq<byte>)
    requires |s| == 1024 && forall o :: 0 <= o < 1024 ==> s[o] == SuperByte(o)
    ensures ParseSuper(s) == Ok(SUPER)
  {
    hide Le32, Le16, Flag, BlockSize, SuperByte, Crc, SuperChecksum, Num;
    SuperFields(s);
    SampleFlags();
  }

  lemma SampleDesc(gd: seq<byte>)
    requires |gd| == 32 && forall o :: 0 <= o < 32 ==> gd[o] == DescByte(o)
    ensures ParseDesc(gd, false) == DESC
  {
  }

  lemma SampleSectors(m: byte, first: nat, count: nat)
    requires 0 < count && first + count <= 32
    ensures var r := SectorsAt(SampleDisk(m).card, first, count);
            && r.Ok? && |r.value| == count * SECTOR
            && forall i :: 0 <= i < count * SECTOR ==>
                 r.value[i] == SampleByte(m, (first * SECTOR + i) / 1024, (first * SECTOR + i) % 1024)
  {
  }

  lemma SuperRead(m: byte)
    ensures var r := SectorsAt(SampleDisk(m).card, 2, 2); r.Ok? && |r.value| == 1024 && ParseSuper(r.value) == Ok(SUPER)
  {
    hide SampleDisk, ParseSuper, SuperByte, DescByte, SectorsAt;
    SampleSectors(m, 2, 2);
    SampleSuper(SectorsAt(SampleDisk(m).card, 2, 2).value);
  }

  lemma TableRead(m: byte)
    ensures var r := SectorsAt(SampleDisk(m).card, 4, 1);
            r.Ok? && |r.value| == 512 && ReadDescs(r.value, 32, false, 1) == [DESC]
  {
    hide SampleDisk, ParseDesc, SuperByte, DescByte, SectorsAt;
    SampleSectors(m, 4, 1);
    var table := SectorsAt(SampleDisk(m).card, 4, 1).value;
    SampleDesc(table[..32]);
    assert table[0..32] == table[..32];
    assert ReadDescs(table, 32, false, 0) == [];
  }

  /** Opening the card finds the superblock and the one descriptor. */
  lemma SampleOpens(m: byte)
    ensures OpenedOn(SampleDisk(m).card, 0) == Ok((SUPER, [DESC])) && GeoOf(0, SUPER, [DESC]) == G
  {
    hide SampleDisk, ParseSuper, ReadDescs, SectorsAt;
    SuperRead(m);
    TableRead(m);
    assert PlacesOf([DESC]) == [Places(3, 4, 5)];
  }

  /** The handle so gained agrees with the card, all checksums are in order, and all counts are exact. */
  lemma SampleSound(m: byte)
    ensures Coherent(SampleHandle(m)) && Sealed(SampleHandle(m)) && Conserved(SampleHandle(m))
  {
    hide SampleDisk, ParseSuper, ParseDesc, SuperByte, DescByte, SectorsAt, Blk, Clear;
    SuperRead(m);
    SampleBytes(m);
    SampleCounts(m);
    var h := SampleHandle(m);
    assert h.gds[..0] == [];
    assert SumInodes(h.gds) == 5 && SumBlocks(h.gds) == 8;
    assert GroupCounts(h, 0);
  }

  lemma SampleBytes(m: byte)
    ensures SuperBytes(SampleDisk(m)) == SectorsAt(SampleDisk(m).card, 2, 2).value
    ensures ParseDesc(DescBytes(SampleDisk(m), 0), false) == DESC
  {
    hide SampleDisk, ParseDesc, DescByte, SuperByte, Blk;
    SampleBlock(m, 2);
    assert DescBlock(G, 0) == 2 && DescOffset(G, 0) == 0;
    SampleDesc(Blk(SampleDisk(m), 2)[..32]);
    assert Blk(SampleDisk(m), 2)[0..32] == Blk(SampleDisk(m), 2)[..32];
  }

  lemma NoneBelow(m: seq<byte>)
    ensures Clear(m, 0) == 0
  {
  }

  lemma {:induction false} ClearRun(m: seq<byte>, lo: nat, hi: nat, on: bool)
    requires lo <= hi && forall j :: lo <= j < hi ==> (Bit(m, j) <==> on)
    ensures Clear(m, hi) == Clear(m, lo) + if on then 0 else hi - lo
    decreases hi
  {
    hide Bit;
    if lo < hi { ClearRun(m, lo, hi - 1, on); }
  }

  /** Counting the clear bits of the two bitmaps. */
  lemma SampleCounts(m: byte)
    ensures Clear(BlockMap(SampleDisk(m), 0), 16) == 8 && Clear(InodeMap(SampleDisk(m), 0), 16) == 5
  {
    hide SampleDisk, Blk, Bit, Clear;
    forall k | 0 <= k < 16 ensures Bit(Blk(SampleDisk(m), 3), k) <==> k < 7 || k == 15 { BlockBits(m, k); }
    forall k | 0 <= k < 16 ensures Bit(Blk(SampleDisk(m), 4), k) <==> k < 11 { InodeBits(m, k); }
    NoneBelow(Blk(SampleDisk(m), 3));
    NoneBelow(Blk(SampleDisk(m), 4));
    ClearRun(Blk(SampleDisk(m), 3), 0, 7, true);
    ClearRun(Blk(SampleDisk(m), 3), 7, 15, false);
    ClearRun(Blk(SampleDisk(m), 3), 15, 16, true);
    ClearRun(Blk(SampleDisk(m), 4), 0, 11, true);
    ClearRun(Blk(SampleDisk(m), 4), 11, 16, false);
  }

  // ---- creating in it ----

  /** In its root, files can be created, of up to a block, with names of any length that a block has room for. */
  lemma SampleCanCreate(m: byte, name: seq<byte>, size: nat)
    requires |name| <= 1016 && size <= 1024
    ensures CanCreate(SampleHandle(m), TREES, [], name, size)
  {
    hide Blk, Bit, SampleDisk, InodeAt, DataBlocks, RoomIn, Parse;
    var h := SampleHandle(m);
    SampleRoot(m);
    RootBlocks();
    SampleDirectory(m);
    RootEntries(h.d);
    SampleBlock(m, 7);
    EmptyHasRoom(m, Blk(h.d, 7), name);
    assert RoomIn(Blk(h.d, DataBlocks(ROOT_TREE)[0]), false, name);
    SampleBlock(m, 4);
    InodeBits(m, 11);
    assert !NoInodeIn(h, 0);
    SampleBlock(m, 3);
    BlockBits(m, 7);
    assert !NoBlockIn(h, 0);
  }

  lemma GrownFromNothing(es: seq<DirEntry>, added: seq<DirEntry>, part: seq<byte>)
    requires ListingGrew([], es, added)
    ensures Find(es, part) == Find(added, part)
  {
    hide Find;
    assert Links([]) == [] && [] + added + [] == added;
    FindLinks(es, part);
  }

  /** Creating a file with a name of 257 bytes in the sample succeeds, and leaves no such file: the name that it
      was given is not listed, and another one is. */
  lemma SampleLongName(m: byte, d': Disk, roles': Roles, trees': Trees, child: u32, now: u32)
    requires WellFormed(d', roles', trees')
    requires CreatedAt(SampleDisk(m), d', TREES, trees', [], child, LongName(), [], now)
    ensures CanCreate(SampleHandle(m), TREES, [], LongName(), 0)
    ensures Resolve(d', trees', [LongName()]) == Missing && Resolve(d', trees', [[0x61]]) == At(child)
  {
    hide SampleDisk, WellFormed, InodeAt, Find, ListingGrew, NewFile, NewLinks, Listings, DataBlocks, Parse, LongName;
    LongNameLength();
    SampleCanCreate(m, LongName(), 0);
    SampleDirectory(m);
    RootBlocks();
    RootEntries(SampleDisk(m));
    CreatedName(SampleDisk(m), d', roles', TREES, trees', [], child, LongName(), [], now);
    ChildIn(SampleDisk(m), d', TREES, trees', 2, child, LongName());
    ChildNonZero(d', roles', trees', child);
    GrownFromNothing(Entries(d', trees'[2]), NewLinks(child, LongName(), 1), LongName());
    GrownFromNothing(Entries(d', trees'[2]), NewLinks(child, LongName(), 1), [0x61]);
    LongNameLost(child);
    assert [LongName()][1..] == [] && [[0x61 as byte]][1..] == [];
  }

  lemma LongNameLength()
    ensures |LongName()| == 257
  {
  }

  // ---- a file that reads as a directory ----

  /** Twelve bytes that are a directory record over a block of 1 KiB: inode 2, under the name `x`. */
  function Trick(): (s: seq<byte>)
    ensures |s| == 12
  {
    [2, 0, 0, 0, 0, 4, 1, 2, 0x78, 0, 0, 0]
  }

  lemma TrickParsed(s: seq<byte>)
    requires |s| == 1024 && s[..12] == Trick()
    ensures Find(Parse(s, 1024), [0x78]) == Some(2)
  {
    assert forall i :: 0 <= i < 12 ==> s[i] == s[..12][i];
    assert Le32(s, 0) == 2 && Le16(s, 4) == 1024 && s[8..9] == [0x78];
    hide Le32, Le16, Find;
    assert Listing(s, 0) == [EntryAt(s, 0)] && EntryAt(s, 0).name == [0x78];
    assert Parse(s, 1024) == [EntryAt(s, 0)] + ParseFrom(s, 1024, 1024);
    FindFirst(EntryAt(s, 0), ParseFrom(s, 1024, 1024));
  }

  lemma FindFirst(e: DirEntry, rest: seq<DirEntry>)
    ensures Find([e] + rest, e.name) == Some(e.inode)
  {
  }

  /** A file that holds them lists that name, for the driver. */
  lemma TrickListed(d: Disk, roles: Roles, trees: Trees, ino: u32)
    requires WellFormed(d, roles, trees) && ino in trees && d.g.blockSize == 1024
    requires FileData(d, 12, trees[ino]) == Trick()
    ensures Find(Entries(d, trees[ino]), [0x78]) == Some(2)
  {
    hide WellFormed, Blk, Find, Parse, InodeAt, DataBlocks, Concat, Listings, Trick;
    var blocks := DataBlocks(trees[ino]);
    LiveBlocksIn(d, roles, trees, ino);
    ConcatNothing(d);
    assert blocks != [];
    var b, rest := blocks[0], blocks[1..];
    assert blocks == [b] + rest;
    ConcatAppend(d, [b], rest);
    ListingsAppend(d, [b], rest);
    OneBlock(d, b);
    TrickStart(Blk(d, b), Concat(d, rest));
    TrickParsed(Blk(d, b));
    FindAppend(Parse(Blk(d, b), 1024), Listings(d, rest), [0x78]);
  }

  lemma TrickStart(s: seq<byte>, more: seq<byte>)
    requires |s| == 1024 && Take(s + more, 12) == Trick()
    ensures s[..12] == Trick()
  {
    assert (s + more)[..12] == s[..12];
  }

  lemma ConcatNothing(d: Disk)
    ensures |Take(Concat(d, []), 12)| == 0
  {
  }

  lemma OneBlock(d: Disk, b: nat)
    ensures Concat(d, [b]) == Blk(d, b) && Listings(d, [b]) == Parse(Blk(d, b), d.g.blockSize)
  {
    hide Blk, Parse;
    assert [b][..0] == [];
    assert [] + Blk(d, b) == Blk(d, b);
  }

  lemma LiveBlocksIn(d: Disk, roles: Roles, trees: Trees, ino: u32)
    requires WellFormed(d, roles, trees) && ino in trees
    ensures forall b :: b in DataBlocks(trees[ino]) ==> |Blk(d, b)| == d.g.blockSize
  {
    hide Blk, InodeAt, DataBlocks, Layout, Marked, Live;
    assert Live(d, roles, trees, ino);
    LiveTree(d, roles, trees, ino);
    forall b | b in DataBlocks(trees[ino]) ensures |Blk(d, b)| == d.g.blockSize {
      LbaExact(d, b);
      BlkLength(d, b);
    }
  }

  /** The sample can hold such a file. Then a path below that file leads nowhere, but the driver follows it, to the root
      directory. */
  lemma SampleAstray(m: byte, d': Disk, roles': Roles, trees': Trees, child: u32, now: u32)
    requires WellFormed(d', roles', trees') && d'.g == G
    requires CreatedAt(SampleDisk(m), d', TREES, trees', [], child, [0x66], Trick(), now)
    ensures CanCreate(SampleHandle(m), TREES, [], [0x66], |Trick()|)
    ensures Resolve(d', trees', [[0x66], [0x78]]) == OffTree
    ensures Follow(d', trees', [[0x66], [0x78]]) == At(ROOT)
  {
    hide SampleDisk, WellFormed, InodeAt, Find, ListingGrew, NewLinks, Entries, Parse, Trick, FileData, IsNew,
      CanCreate, OneMoreFile, FileTree;
    SampleCanCreate(m, [0x66], 12);
    SampleNames(m, d', roles', trees', child, now);
    ChildIn(SampleDisk(m), d', TREES, trees', 2, child, [0x66]);
    TrickHeld(m, d', trees', child, now);
    TrickListed(d', roles', trees', child);
    assert [[0x66 as byte], [0x78]][1..] == [[0x78]] && [[0x78 as byte]][1..] == [];
    DirectoryExtents(d', roles', trees', 2);
  }

  lemma TrickHeld(m: byte, d': Disk, trees': Trees, child: u32, now: u32)
    requires d'.g == G && CreatedAt(SampleDisk(m), d', TREES, trees', [], child, [0x66], Trick(), now)
    ensures child in trees' && FileData(d', 12, trees'[child]) == Trick()
    ensures !InodeAt(d', child).IsDirectory() && InodeAt(d', child).HasExtents()
  {
    hide SampleDisk, InodeAt, Find, OneMoreFile, Entries, Trick, FileData, IsNew, FileTree;
  }

  lemma SampleNames(m: byte, d': Disk, roles': Roles, trees': Trees, child: u32, now: u32)
    requires WellFormed(d', roles', trees')
    requires CreatedAt(SampleDisk(m), d', TREES, trees', [], child, [0x66], Trick(), now)
    ensures 2 in trees' && InodeAt(d', 2).IsDirectory() && Find(Entries(d', trees'[2]), [0x66]) == Some(child)
  {
    hide SampleDisk, WellFormed, InodeAt, Find, ListingGrew, NewFile, Entries, Trick;
    CreatedName(SampleDisk(m), d', roles', TREES, trees', [], child, [0x66], Trick(), now);
  }

  // ---- a root that has to be read again ----

  lemma SampleRooted(m: byte)
    ensures Rooted(InodeAt(SampleDisk(m), 2)) <==> m == SOUND
  {
    hide SampleDisk, InodeAt;
    SampleRoot(m);
    var data := InodeAt(SampleDisk(m), 2).iBlock;
    assert data[0] == m && data[1] == 0xF3 && data[2] == 1 && data[3] == 0 && data[6] == 0 && data[7] == 0;
    assert Le16(data, 2) == 1 && Le16(data, 6) == 0;
    assert Le16(data, 0) == m + 0xF300;
    hide Le16, ExtentAt;
    assert Count(data) == 1;
  }

  lemma SampleUnmarked(m: byte, k: nat)
    requires FIRST_INODE_BIT <= k < 16 && InRange(SampleDisk(m), 4) && |Blk(SampleDisk(m), 7)| == 1024
    ensures var d := SampleDisk(m); forall roles :: !WellFormed(WithBlk(d, 4, SetBit(Blk(d, 7), k)), roles, TREES)
  {
    hide SampleDisk, Blk, WithBlk, SetBit, Bit, Layout, Marked, Fits;
    var d := SampleDisk(m);
    var bitmap := SetBit(Blk(d, 7), k);
    SampleBlock(m, 7);
    WithBlkFrame(d, 4, bitmap);
    SetBitBits(Blk(d, 7), k, 1);
    NoBit(Blk(d, 7));
    var d' := WithBlk(d, 4, bitmap);
    assert Blk(d', 4) == bitmap && d'.g == G;
    assert Group(G, 2) == 0 && Index(G, 2) == 1;
    assert !InodeUsed(d', 2);
    forall roles ensures !WellFormed(d', roles, TREES) {
      if WellFormed(d', roles, TREES) { RootUsed(d', roles); }
    }
  }

  lemma RootUsed(d: Disk, roles: Roles)
    requires WellFormed(d, roles, TREES)
    ensures InodeUsed(d, 2)
  {
    hide Blk, Bit, Layout, Marked, Fits, InodeAt, FileOk, DirOk, InodeUsed;
    assert Live(d, roles, TREES, 2);
  }

  lemma NoBit(s: seq<byte>)
    requires |s| == 1024 && s[0] == 0
    ensures !Bit(s, 1)
  {
  }
}
