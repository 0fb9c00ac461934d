/** Overwriting a file in place: block by block, then the size in its slot. */
module Overwrite {
  import opened Bytes
  import opened Disk
  import opened Inode
  import opened Extents
  import opened Volume
  import opened Frames
  import opened Slots
  import opened Metadata
  import opened Descs
  import opened Files
  import opened Publish
  import opened Staging
  import opened Handles

  /** Every live file but `ino` reads the same. */
  ghost predicate OthersSame(d: Disk, d': Disk, trees: Trees, ino: u32) {
    forall i :: i in trees && i < 0x1_0000_0000 && i != ino ==> SameFile(d, d', i, trees[i])
  }

  lemma OthersSameTrans(d: Disk, d': Disk, d'': Disk, trees: Trees, ino: u32)
    requires OthersSame(d, d', trees, ino) && OthersSame(d', d'', trees, ino)
    ensures OthersSame(d, d'', trees, ino)
  {
    hide SameFile;
    forall i | i in trees && i < 0x1_0000_0000 && i != ino ensures SameFile(d, d'', i, trees[i]) {
      SameFileTrans(d, d', d'', i, trees[i]);
    }
  }

  lemma OthersSameRefl(d: Disk, trees: Trees, ino: u32)
    ensures OthersSame(d, d, trees, ino)
  {
    hide InodeAt, Concat, Entries, DataBlocks;
  }

  /** Nothing but the listed blocks differs. */
  ghost predicate OnlyBlocks(d: Disk, d': Disk, blocks: seq<nat>) {
    SameShape(d, d') && forall c: nat :: c !in blocks ==> Blk(d', c) == Blk(d, c)
  }

  /** No other slot of the inode table differs. */
  ghost predicate SlotsSame(d: Disk, d': Disk, ino: u32) {
    forall i: u32 :: i != ino ==> InodeAt(d', i) == InodeAt(d, i)
  }

  /** Nothing but the file's own data blocks changed. */
  ghost predicate OwnDataOnly(d: Disk, d': Disk, trees: Trees, ino: u32) {
    && ino in trees && OnlyBlocks(d, d', DataBlocks(trees[ino]))
    && OthersSame(d, d', trees, ino) && SlotsSame(d, d', ino) && InodeAt(d', ino) == InodeAt(d, ino)
    && RecordsSame(d, d')
  }

  lemma OwnDataOnlyTrans(d: Disk, d': Disk, d'': Disk, trees: Trees, ino: u32)
    requires OwnDataOnly(d, d', trees, ino) && OwnDataOnly(d', d'', trees, ino)
    ensures OwnDataOnly(d, d'', trees, ino)
  {
    hide InodeAt, OthersSame, DataBlocks, RecordsSame, Blk;
    OthersSameTrans(d, d', d'', trees, ino);
    RecordsSameTrans(d, d', d'');
  }

  lemma OwnDataOnlyRefl(d: Disk, trees: Trees, ino: u32)
    requires ino in trees
    ensures OwnDataOnly(d, d, trees, ino)
  {
    hide InodeAt, OthersSame, DataBlocks, RecordsSame, Blk;
    OthersSameRefl(d, trees, ino);
    RecordsSameRefl(d);
  }

  lemma OwnDataOnlyFacts(d: Disk, d': Disk, trees: Trees, ino: u32)
    requires OwnDataOnly(d, d', trees, ino)
    ensures ino in trees && d'.g == d.g && InodeAt(d', ino) == InodeAt(d, ino) && OthersSame(d, d', trees, ino)
  {
    hide InodeAt, DataBlocks, RecordsSame, Blk, OthersSame;
  }

  lemma OwnDataOnlyParts(h: Handle, h': Handle, trees: Trees, ino: u32)
    requires OwnDataOnly(h.d, h'.d, trees, ino) && h'.(d := h.d) == h && |h.d.g.places| == |h.gds|
    ensures OthersSame(h.d, h'.d, trees, ino) && h'.d.g == h.d.g && InodeAt(h'.d, ino) == InodeAt(h.d, ino)
    ensures (Sealed(h) ==> Sealed(h')) && (Coherent(h) ==> Coherent(h')) && (Kindred(h) ==> Kindred(h'))
  {
    hide InodeAt, DataBlocks, RecordsSame, Blk, OthersSame, Sealed, Coherent, Kindred;
    SealedKept(h, h');
  }

  // ---- one block ----

  /** The file's own liveness does not depend on what is in its data blocks. */
  lemma OwnerLive(d: Disk, d': Disk, roles: Roles, trees: Trees, ino: u32, j: nat)
    requires ino in trees && Live(d, roles, trees, ino) && Layout(d.g, roles) && !InodeAt(d, ino).IsDirectory()
    requires j < |DataBlocks(trees[ino])| && SameBut(d, d', {DataBlocks(trees[ino])[j]})
    ensures Live(d', roles, trees, ino) && InodeAt(d', ino) == InodeAt(d, ino)
  {
    hide Blk, FileOk, DirOk, DataBlocks, IndexBlocks, InodeAt, Layout, MapsKept, InodeUsed;
    var n, t := InodeAt(d, ino), trees[ino];
    OwnedOnce(d, roles, ino, n, t, j);
    FileBlockApart(d, d', roles, DataBlocks(t)[j], ino, |IndexBlocks(t)| + j);
    ChangedFileOk(d, d', roles, roles, ino, n, t, j);
    InodeUsedKept(d, d', ino);
  }

  /** Writing one data block of a file that is no directory: the file system stays well-formed, and nobody else
      sees it. */
  lemma OwnBlockWritten(d: Disk, d': Disk, roles: Roles, trees: Trees, ino: u32, j: nat)
    requires WellFormed(d, roles, trees) && ino in trees && !InodeAt(d, ino).IsDirectory()
    requires j < |DataBlocks(trees[ino])| && SameBut(d, d', {DataBlocks(trees[ino])[j]})
    ensures WellFormed(d', roles, trees) && OwnDataOnly(d, d', trees, ino)
  {
    hide Blk, DataBlocks, InodeAt, Layout, Marked, FileOk, SameFile, IndexBlocks, Live, SameInode, Fits, RecordsSame,
      MapsKept;
    var t := trees[ino];
    var b, k := DataBlocks(t)[j], |IndexBlocks(t)| + j;
    SameButShape(d, d', {b});
    FitsKept(d, d');
    LiveUsed(d, roles, trees, ino);
    OwnedOnce(d, roles, ino, InodeAt(d, ino), t, j);
    FileBlockApart(d, d', roles, b, ino, k);
    MarkedKept(d, d', roles);
    OwnerLive(d, d', roles, trees, ino, j);
    OffRecords(d, d', roles, b);
    forall i | i in trees && i != ino
      ensures Live(d', roles, trees, i) && (i < 0x1_0000_0000 ==> SameFile(d, d', i, trees[i]))
    {
      ForeignLive(d, d', roles, roles, trees, trees, i, b, ino, k);
    }
  }

  // ---- the contents ----

  /** Block `j` of the new contents, filled up with zeros. */
  function Piece(data: seq<byte>, bs: nat, j: nat): (p: seq<byte>)
    ensures |p| == bs
  {
    if j * bs >= |data| then Zeros(bs)
    else
      var end := Min(j * bs + bs, |data|);
      data[j * bs..end] + Zeros(bs - (end - j * bs))
  }

  /** The first `m` blocks of the file hold the new contents. */
  ghost predicate Rewritten(d: Disk, t: Tree, data: seq<byte>, m: nat) {
    m <= |DataBlocks(t)| && forall j :: 0 <= j < m ==> Blk(d, DataBlocks(t)[j]) == Piece(data, d.g.blockSize, j)
  }

  lemma AllRuns(t: Tree)
    ensures Runs(Flatten(t)) == DataBlocks(t)
  {
  }

  lemma RewrittenNone(d: Disk, t: Tree, data: seq<byte>)
    ensures Rewritten(d, t, data, 0)
  {
  }

  lemma RewrittenNext(d: Disk, d': Disk, roles: Roles, ino: nat, n: Inode, t: Tree, data: seq<byte>, m: nat)
    requires Rewritten(d, t, data, m) && m < |DataBlocks(t)| && FileOk(d, roles, ino, n, t)
    requires SameBut(d, d', {DataBlocks(t)[m]}) && Blk(d', DataBlocks(t)[m]) == Piece(data, d.g.blockSize, m)
    ensures Rewritten(d', t, data, m + 1)
  {
    hide Blk, DataBlocks, FileOk, Piece, IndexBlocks;
    OwnedOnce(d, roles, ino, n, t, m);
  }

  /** The piece and the progress as the loop computes them. */
  lemma PieceFrom(data: seq<byte>, bs: nat, j: nat, written: nat)
    requires written == Min(j * bs, |data|) && 0 < bs
    ensures Min((j + 1) * bs, |data|) == (if written >= |data| then written else Min(written + bs, |data|))
    ensures written >= |data| ==> Piece(data, bs, j) == Zeros(bs)
    ensures written < |data| ==>
              var end := Min(written + bs, |data|); Piece(data, bs, j) == Put(Zeros(bs), 0, data[written..end])
  {
    assert (j + 1) * bs == j * bs + bs;
    if written < |data| {
      var end := Min(written + bs, |data|);
      var p, q := Piece(data, bs, j), Put(Zeros(bs), 0, data[written..end]);
      assert forall i :: 0 <= i < bs ==> p[i] == q[i];
    }
  }

  /** One turn of the loop over the file's blocks. */
  lemma OwnBlockStep(d: Disk, d1: Disk, d': Disk, roles: Roles, trees: Trees, ino: u32, data: seq<byte>, m: nat, b: nat)
    requires WellFormed(d1, roles, trees) && OwnDataOnly(d, d1, trees, ino) && !InodeAt(d, ino).IsDirectory()
    requires Rewritten(d1, trees[ino], data, m) && m < |DataBlocks(trees[ino])| && b == DataBlocks(trees[ino])[m]
    requires InRange(d1, b) && d' == WithBlk(d1, b, Piece(data, d1.g.blockSize, m))
    ensures WellFormed(d', roles, trees) && OwnDataOnly(d, d', trees, ino) && Rewritten(d', trees[ino], data, m + 1)
  {
    hide WellFormed, InodeAt, DataBlocks, OwnDataOnly, Blk, WithBlk, InRange, SameBut, Rewritten, FileOk, Piece;
    OwnDataOnlyFacts(d, d1, trees, ino);
    var x := Piece(data, d1.g.blockSize, m);
    WithBlkFrame(d1, b, x);
    OwnBlockWritten(d1, d', roles, trees, ino, m);
    OwnDataOnlyTrans(d, d1, d', trees, ino);
    LiveOf(d1, roles, trees, ino);
    RewrittenNext(d1, d', roles, ino, InodeAt(d1, ino), trees[ino], data, m);
  }

  lemma OwnBlockReady(d: Disk, roles: Roles, trees: Trees, ino: u32, m: nat, b: nat)
    requires WellFormed(d, roles, trees) && ino in trees && m < |DataBlocks(trees[ino])|
             && b == DataBlocks(trees[ino])[m]
    ensures Fits(d) && b < d.g.blockCount
  {
    hide WellFormed, InRange, Blk, DataBlocks, Fits;
    BlockOfLive(d, roles, trees, ino, m);
    WellFormedParts(d, roles, trees);
  }

  /** The contents, filled up with zeros to the whole allocation. */
  function PaddedTo(data: seq<byte>, size: nat): (s: seq<byte>)
    ensures |s| == size
  {
    if size <= |data| then data[..size] else data + Zeros(size - |data|)
  }

  lemma PieceNext(data: seq<byte>, bs: nat, m: nat)
    ensures PaddedTo(data, (m + 1) * bs) == PaddedTo(data, m * bs) + Piece(data, bs, m)
  {
    hide PaddedTo, Piece;
    assert (m + 1) * bs == m * bs + bs;
    PieceFollows(data, bs, m * bs, m);
  }

  lemma PieceFollows(data: seq<byte>, bs: nat, at: nat, m: nat)
    requires at == m * bs
    ensures PaddedTo(data, at + bs) == PaddedTo(data, at) + Piece(data, bs, m)
  {
    var l, r := PaddedTo(data, at + bs), PaddedTo(data, at) + Piece(data, bs, m);
    if at + bs <= |data| {
      assert l == data[..at] + data[at..at + bs];
    } else if at < |data| {
      assert data == data[..at] + data[at..];
      assert l == data[..at] + (data[at..] + Zeros(at + bs - |data|));
    } else {
      assert Zeros(at + bs - |data|) == Zeros(at - |data|) + Zeros(bs);
      assert |data| == at ==> data + Zeros(0) == data && data[..at] == data;
    }
  }

  lemma {:induction false} Pieces(d: Disk, t: Tree, data: seq<byte>, m: nat)
    requires Rewritten(d, t, data, m)
    ensures Concat(d, DataBlocks(t)[..m]) == PaddedTo(data, m * d.g.blockSize)
  {
    hide Blk, DataBlocks, Piece, PaddedTo;
    var blocks := DataBlocks(t);
    if m == 0 {
      assert 0 * d.g.blockSize == 0;
    } else {
      Pieces(d, t, data, m - 1);
      assert blocks[..m][..m - 1] == blocks[..m - 1];
      PieceNext(data, d.g.blockSize, m - 1);
    }
  }

  /** What the file's allocation holds afterwards: the new data, then zeros to its end. */
  ghost predicate Holds(d: Disk, t: Tree, data: seq<byte>) {
    && |data| <= |DataBlocks(t)| * d.g.blockSize
    && Concat(d, DataBlocks(t)) == data + Zeros(|DataBlocks(t)| * d.g.blockSize - |data|)
    && FileData(d, |data|, t) == data
  }

  /** Rewriting all blocks makes the allocation exactly the data followed by zeros. */
  lemma AllRewritten(d: Disk, t: Tree, data: seq<byte>)
    requires Rewritten(d, t, data, |DataBlocks(t)|) && |data| <= |DataBlocks(t)| * d.g.blockSize
    ensures Holds(d, t, data)
  {
    hide Blk, DataBlocks, Piece, Concat, Rewritten;
    Pieces(d, t, data, |DataBlocks(t)|);
    assert DataBlocks(t)[..|DataBlocks(t)|] == DataBlocks(t);
    if |DataBlocks(t)| * d.g.blockSize == |data| { assert data + Zeros(0) == data == data[..|data|]; }
  }

  // ---- the size ----

  /** The slot with a new size. */
  function Resized(raw: seq<byte>, regular: bool, size: u64): (r: seq<byte>)
    requires 128 <= |raw|
    ensures |r| == |raw|
  {
    var low := Put(raw, 4, Enc32(size % 0x1_0000_0000));
    if regular then Put(low, 108, Enc32(size / 0x1_0000_0000)) else low
  }

  predicate Resize(n: Inode, n': Inode, size: u64) { SameInode(n', n.(size := size)) }

  lemma SameWords(s: seq<byte>, t: seq<byte>, o: nat)
    requires o + 4 <= |s| == |t| && s[o..o + 4] == t[o..o + 4]
    ensures Le16(s, o) == Le16(t, o) && Le32(s, o) == Le32(t, o)
  {
    var a, b := s[o..o + 4], t[o..o + 4];
    assert s[o] == a[0] && s[o + 1] == a[1] && s[o + 2] == a[2] && s[o + 3] == a[3];
    assert t[o] == b[0] && t[o + 1] == b[1] && t[o + 2] == b[2] && t[o + 3] == b[3];
  }

  lemma ResizedParse(ino: u32, raw: seq<byte>, size: u64)
    requires 128 <= |raw| && ParseInode(raw, ino).IsRegular()
    ensures Resize(ParseInode(raw, ino), ParseInode(Resized(raw, true, size), ino), size)
    ensures var r := Resized(raw, true, size); r[..4] == raw[..4] && r[8..108] == raw[8..108] && r[112..] == raw[112..]
  {
    hide Enc32, Le32, Le16;
    var lo, hi := Enc32(size % 0x1_0000_0000), Enc32(size / 0x1_0000_0000);
    var low := Put(raw, 4, lo);
    var r := Resized(raw, true, size);
    PutInside(raw, 4, lo);
    PutInside(low, 108, hi);
    PutOutside(low, 108, hi, 4, 8);
    Enc32Reads(r, 4, size % 0x1_0000_0000);
    Enc32Reads(r, 108, size / 0x1_0000_0000);
    SameWords(r, raw, 0);
    SameWords(r, raw, 28);
    SameWords(r, raw, 32);
    SameWords(r, raw, 100);
    assert r[40..100] == raw[40..100];
  }

  /** A file that is no directory stays live when only its size changes. */
  lemma ResizedLive(d: Disk, d': Disk, roles: Roles, trees: Trees, ino: u32, size: u64)
    requires Layout(d.g, roles) && ino in trees && Live(d, roles, trees, ino) && !InodeAt(d, ino).IsDirectory()
    requires ValidIno(d.g, ino) && SameBut(d, d', {SlotBlock(d.g, ino)}) && MapsKept(d, d')
    requires Resize(InodeAt(d, ino), InodeAt(d', ino), size)
    ensures Live(d', roles, trees, ino)
    ensures Concat(d', DataBlocks(trees[ino])) == Concat(d, DataBlocks(trees[ino]))
  {
    hide Blk, FileOk, DirOk, InodeAt, Layout, Listings, Concat, DataBlocks, AllBlocks, SlotBlock, MapsKept, InodeUsed,
      IndexBlocks;
    var n, n', t := InodeAt(d, ino), InodeAt(d', ino), trees[ino];
    SlotInFree(d, roles, ino, ino, n, t);
    InodeUsedKept(d, d', ino);
    InAllBlocks(d, d', t);
    FileResized(d, roles, ino, n, n.(size := size), t);
    FileKept(d, d', roles, roles, ino, n.(size := size), n', t);
    ConcatFrame(d, d', DataBlocks(t));
  }

  lemma FileResized(d: Disk, roles: Roles, ino: nat, n: Inode, n': Inode, t: Tree)
    requires FileOk(d, roles, ino, n, t) && n'.flags == n.flags && n'.iBlock == n.iBlock
    ensures FileOk(d, roles, ino, n', t)
  {
    hide Blk, TreeAt, AllBlocks;
  }

  lemma OtherInodes(d: Disk, d': Disk, ino: u32)
    requires SameShape(d, d') && forall j :: ValidIno(d.g, j) && j != ino ==> Slot(d', j) == Slot(d, j)
    ensures SlotsSame(d, d', ino)
  {
    hide ParseInode, Blk, SlotBlock, SlotOffset, Group;
    forall i: u32 | i != ino ensures InodeAt(d', i) == InodeAt(d, i) {
      if !ValidIno(d.g, i) { assert Slot(d', i) == Slot(d, i); }
    }
  }

  lemma SlotReads(d: Disk, ino: u32, raw: seq<byte>)
    requires 128 <= |raw| && Slot(d, ino) == raw
    ensures InodeAt(d, ino) == ParseInode(raw, ino)
  {
    hide ParseInode, Slot;
  }

  /** Writing a live file's slot with another size is visible in that file's size alone. */
  lemma SlotResized(d: Disk, roles: Roles, trees: Trees, ino: u32, raw: seq<byte>, size: u64)
    requires WellFormed(d, roles, trees) && SlotFits(d, ino) && InRange(d, SlotBlock(d.g, ino))
             && |raw| == d.g.inodeSize
    requires ino in trees && !InodeAt(d, ino).IsDirectory() && Resize(InodeAt(d, ino), ParseInode(raw, ino), size)
    ensures var d' := WithSlot(d, ino, raw);
            && WellFormed(d', roles, trees) && OthersSame(d, d', trees, ino) && SlotsSame(d, d', ino)
            && RecordsSame(d, d')
            && Resize(InodeAt(d, ino), InodeAt(d', ino), size)
            && Concat(d', DataBlocks(trees[ino])) == Concat(d, DataBlocks(trees[ino]))
            && SameBut(d, d', {SlotBlock(d.g, ino)})
  {
    hide Layout, Marked, Live, SameFile, SlotBlock, ParseInode, Blk, InRange, WithSlot, SameBut, Resize, SlotFits,
      Concat, DataBlocks, RecordsSame, SameInode, MapsKept, InodeAt, SlotsSame, Slot;
    var d' := WithSlot(d, ino, raw);
    SlotPutGet(d, roles, ino, raw);
    SlotReads(d', ino, raw);
    OtherInodes(d, d', ino);
    SlotValid(d, ino);
    SlotMaps(d, d', roles, ino);
    SlotKeepsRecords(d, d', roles, trees, ino);
    FitsKept(d, d');
    MarkedKept(d, d', roles);
    ResizedLive(d, d', roles, trees, ino, size);
    forall i | i in trees && i != ino
      ensures Live(d', roles, trees, i) && (i < 0x1_0000_0000 ==> SameFile(d, d', i, trees[i]))
    {
      LiveBound(d, roles, trees, i);
      SameSlotInode(d, d', i);
      SlotLive(d, d', roles, trees, ino, i);
    }
  }

  /** The slot that `update_inode_size` writes. */
  function SizedSlot(d: Disk, n: Inode, size: u64): seq<byte>
    requires 128 <= |n.raw|
  {
    SealInode(d.g.csum, d.g.seed, n.ino, Resized(n.raw, n.IsRegular(), size), d.g.inodeSize)
  }

  /** The seal as `update_inode_size` computes it, from the generation it was handed. */
  function SealedWith(csum: bool, seed: u32, ino: u32, generation: u32, raw: seq<byte>, inodeSize: nat): (r: seq<byte>)
    requires 132 <= |raw| || (128 <= |raw| && inodeSize <= 128)
  {
    if !csum then raw
    else
      var c := InodeChecksum(seed, ino, generation, raw, inodeSize);
      var low := Put(raw, 124, Enc16(Lo16(c)));
      if inodeSize > 128 then Put(low, 130, Enc16(Hi16(c))) else low
  }

  lemma SizedIs(d: Disk, n: Inode, m: Inode, size: u64)
    requires |n.raw| == d.g.inodeSize && (128 == d.g.inodeSize || 132 < d.g.inodeSize)
    requires ParseInode(n.raw, n.ino) == n && SameInode(m, n)
    ensures SealedWith(d.g.csum, d.g.seed, m.ino, m.generation, Resized(n.raw, m.IsRegular(), size), d.g.inodeSize)
            == SizedSlot(d, n, size)
  {
    hide InodeChecksum, Enc32, Enc16, Le32, Le16, Lo16, Hi16, Put;
    var low := Put(n.raw, 4, Enc32(size % 0x1_0000_0000));
    var r := Resized(n.raw, n.IsRegular(), size);
    SameWords(r, n.raw, 100);
  }

  lemma SizedLength(d: Disk, n: Inode, size: u64)
    requires 128 <= |n.raw|
    ensures |SizedSlot(d, n, size)| == |n.raw|
  {
  }

  lemma SizedParse(d: Disk, n: Inode, size: u64)
    requires 128 <= |n.raw| == d.g.inodeSize && ParseInode(n.raw, n.ino) == n && n.IsRegular()
    ensures |SizedSlot(d, n, size)| == d.g.inodeSize
    ensures Resize(n, ParseInode(SizedSlot(d, n, size), n.ino), size)
  {
    hide ParseInode, SealInode, Resized;
    ResizedParse(n.ino, n.raw, size);
    SealedParse(d.g.csum, d.g.seed, n.ino, Resized(n.raw, true, size), d.g.inodeSize);
  }

  /** Recording the new size of a regular file. */
  lemma SizeWritten(d: Disk, roles: Roles, trees: Trees, ino: u32, size: u64)
    requires WellFormed(d, roles, trees) && ino in trees && InodeAt(d, ino).IsRegular()
    requires SlotFits(d, ino) && InRange(d, SlotBlock(d.g, ino)) && |InodeAt(d, ino).raw| == d.g.inodeSize
    ensures 128 <= |InodeAt(d, ino).raw| && |SizedSlot(d, InodeAt(d, ino), size)| == d.g.inodeSize
    ensures var d' := WithSlot(d, ino, SizedSlot(d, InodeAt(d, ino), size));
            && WellFormed(d', roles, trees) && OthersSame(d, d', trees, ino) && SlotsSame(d, d', ino)
            && RecordsSame(d, d')
            && Resize(InodeAt(d, ino), InodeAt(d', ino), size)
            && Concat(d', DataBlocks(trees[ino])) == Concat(d, DataBlocks(trees[ino]))
            && SameBut(d, d', {SlotBlock(d.g, ino)})
  {
    hide WellFormed, InodeAt, ParseInode, SealInode, Resized, SlotFits, SlotBlock, InRange, SizedSlot, WithSlot,
      SameBut, Concat, DataBlocks, RecordsSame;
    RawParse(d, ino);
    SizedParse(d, InodeAt(d, ino), size);
    SlotResized(d, roles, trees, ino, SizedSlot(d, InodeAt(d, ino), size), size);
  }

  // ---- the whole operation ----

  /** File `ino` now holds exactly `data`; its size and its data blocks changed, and nothing else on the disk. */
  ghost predicate Overwritten(d: Disk, d': Disk, trees: Trees, ino: u32, data: seq<byte>) {
    && ino in trees && ValidIno(d.g, ino) && |data| < 0x1_0000_0000_0000_0000
    && Holds(d', trees[ino], data) && Resize(InodeAt(d, ino), InodeAt(d', ino), |data|)
    && OthersSame(d, d', trees, ino) && SlotsSame(d, d', ino) && RecordsSame(d, d')
    && OnlyBlocks(d, d', DataBlocks(trees[ino]) + [SlotBlock(d.g, ino)])
  }

  lemma OverwrittenOthers(d: Disk, d': Disk, trees: Trees, ino: u32, data: seq<byte>)
    requires Overwritten(d, d', trees, ino, data)
    ensures OthersSame(d, d', trees, ino) && d'.g == d.g
  {
    hide InodeAt, OthersSame, DataBlocks, RecordsSame, Blk, SlotBlock, Concat, Holds;
  }

  lemma ThenSealed(h: Handle, h1: Handle, h': Handle)
    requires (Sealed(h) ==> Sealed(h1)) && (Coherent(h) ==> Coherent(h1)) && (Kindred(h) ==> Kindred(h1))
    requires RecordsSame(h1.d, h'.d) && h'.(d := h1.d) == h1 && |h1.d.g.places| == |h1.gds| && h'.d.g == h1.d.g
    ensures (Sealed(h) ==> Sealed(h')) && (Coherent(h) ==> Coherent(h')) && (Kindred(h) ==> Kindred(h'))
  {
    hide Sealed, RecordsSame, Coherent, Kindred;
    SealedKept(h1, h');
  }

  /** The blocks first, then the size. */
  lemma ThenResized(d: Disk, d': Disk, d'': Disk, trees: Trees, ino: u32, data: seq<byte>)
    requires OwnDataOnly(d, d', trees, ino) && Holds(d', trees[ino], data) && ValidIno(d.g, ino)
             && |data| < 0x1_0000_0000_0000_0000
    requires (d'' == d' && InodeAt(d, ino).size == |data|)
          || (OthersSame(d', d'', trees, ino) && SlotsSame(d', d'', ino) && RecordsSame(d', d'')
              && Resize(InodeAt(d', ino), InodeAt(d'', ino), |data|) && SameBut(d', d'', {SlotBlock(d.g, ino)})
              && Concat(d'', DataBlocks(trees[ino])) == Concat(d', DataBlocks(trees[ino])))
    ensures Overwritten(d, d'', trees, ino, data)
  {
    hide InodeAt, OthersSame, DataBlocks, RecordsSame, Blk, SlotBlock, Concat;
    if d'' != d' || InodeAt(d, ino).size != |data| {
      OthersSameTrans(d, d', d'', trees, ino);
      RecordsSameTrans(d, d', d'');
    }
  }
}
