/** Inodes and extent nodes as they are decoded from bytes. */
module Inode {
  import opened Bytes

  datatype Inode = Inode(
    ino: u32, mode: u16, size: u64, blocks: u32, flags: u32, generation: u32, iBlock: seq<byte>, raw: seq<byte>)
  {
    predicate IsRegular() { mode / 0x1000 == 0x8 }
    predicate IsDirectory() { mode / 0x1000 == 0x4 }
    predicate HasExtents() { flags / 0x8_0000 % 2 == 1 }
  }

  /** Decodes an inode slot. Shorter slots than 128 bytes do not occur: the inode size is at least that. */
  function ParseInode(data: seq<byte>, ino: u32): (n: Inode)
    requires 128 <= |data|
    ensures |n.iBlock| == 60 && n.raw == data && n.ino == ino
  {
    var mode := Le16(data, 0);
    var lo := Le32(data, 4);
    var size: u64 := if mode / 0x1000 == 0x8 then lo + 0x1_0000_0000 * Le32(data, 108) else lo;
    Inode(ino, mode, size, Le32(data, 28), Le32(data, 32), Le32(data, 100), data[40..100], data)
  }

  // ---- extent nodes ----

  const EXTENT_MAGIC: u16 := 0xF30A

  datatype Extent = Extent(logical: u32, length: u16, physical: nat)
  datatype ExtentIdx = ExtentIdx(logical: u32, child: nat)
  datatype Node = Leaves(extents: seq<Extent>) | Indices(indices: seq<ExtentIdx>) | Empty

  function EntryOffset(i: nat): nat { 12 + 12 * i }

  /** The entries a node of this size can hold, at most the stored count. */
  function Count(data: seq<byte>): nat
    requires 12 <= |data|
  {
    Min(Le16(data, 2), (|data| - 12) / 12)
  }

  function ExtentAt(data: seq<byte>, o: nat): Extent
    requires o + 12 <= |data|
  {
    Extent(Le32(data, o), Le16(data, o + 4), Le32(data, o + 8) + 0x1_0000_0000 * Le16(data, o + 6))
  }

  function IdxAt(data: seq<byte>, o: nat): ExtentIdx
    requires o + 12 <= |data|
  {
    ExtentIdx(Le32(data, o), Le32(data, o + 4) + 0x1_0000_0000 * Le16(data, o + 8))
  }

  predicate Magic(data: seq<byte>) { 2 <= |data| && Le16(data, 0) == EXTENT_MAGIC }

  /** What a node holds, magic or not. */
  function NodeBody(data: seq<byte>): (n: Node)
    requires 12 <= |data|
    ensures !n.Empty?
  {
    var count := Count(data);
    if Le16(data, 6) == 0 then Leaves(seq(count, i requires 0 <= i < count => ExtentAt(data, EntryOffset(i))))
    else Indices(seq(count, i requires 0 <= i < count => IdxAt(data, EntryOffset(i))))
  }

  function ParseNode(data: seq<byte>, force: bool): Result<Node> {
    if |data| < 12 then Err
    else if !Magic(data) && !force then Ok(Empty)
    else Ok(NodeBody(data))
  }

  /** The root parses, and is not empty: what the driver asks for before it reads an inode once more. */
  predicate Rooted(n: Inode) {
    n.HasExtents() ==>
      match ParseNode(n.iBlock, false)
      case Ok(Leaves(extents)) => extents != []
      case Ok(Indices(_)) => true
      case _ => false
  }

  method ParseExtentNode(data: seq<byte>, force: bool) returns (r: Result<Node>)
    ensures r == ParseNode(data, force)
  {
    hide Le32, ExtentAt, IdxAt;
    if |data| < 12 { return Err; }
    var magic := Le16(data, 0);
    if magic != EXTENT_MAGIC && !force { return Ok(Empty); }
    var entries := Le16(data, 2);
    var depth := Le16(data, 6);
    if depth == 0 {
      var extents := ReadExtents(data, entries);
      assert extents == NodeBody(data).extents;
      r := Ok(Leaves(extents));
    } else {
      var indices := ReadIndices(data, entries);
      assert indices == NodeBody(data).indices;
      r := Ok(Indices(indices));
    }
  }

  method ReadExtents(data: seq<byte>, entries: u16) returns (extents: seq<Extent>)
    requires 12 <= |data| && entries == Le16(data, 2)
    ensures |extents| == Count(data)
    ensures forall i :: 0 <= i < |extents| ==> extents[i] == ExtentAt(data, EntryOffset(i))
  {
    hide ExtentAt, Le32, Le16;
    extents := [];
    var i := 0;
    while i < entries
      invariant |extents| == i <= Count(data)
      invariant forall k :: 0 <= k < i ==> extents[k] == ExtentAt(data, EntryOffset(k))
    {
      var offset := 12 + i * 12;
      if offset + 12 > |data| { break; }
      extents := extents + [ExtentAt(data, offset)];
      i := i + 1;
    }
  }

  method ReadIndices(data: seq<byte>, entries: u16) returns (indices: seq<ExtentIdx>)
    requires 12 <= |data| && entries == Le16(data, 2)
    ensures |indices| == Count(data)
    ensures forall i :: 0 <= i < |indices| ==> indices[i] == IdxAt(data, EntryOffset(i))
  {
    hide IdxAt, Le32, Le16;
    indices := [];
    var i := 0;
    while i < entries
      invariant |indices| == i <= Count(data)
      invariant forall k :: 0 <= k < i ==> indices[k] == IdxAt(data, EntryOffset(k))
    {
      var offset := 12 + i * 12;
      if offset + 12 > |data| { break; }
      indices := indices + [IdxAt(data, offset)];
      i := i + 1;
    }
  }

  /** Nothing a node holds depends on its two magic bytes. */
  lemma BodyIgnoresMagic(data: seq<byte>, data': seq<byte>)
    requires 12 <= |data| == |data'| && data[2..] == data'[2..]
    ensures NodeBody(data) == NodeBody(data')
  {
    assert forall i :: 2 <= i < |data| ==> data[i] == data[2..][i - 2] == data'[2..][i - 2] == data'[i];
    assert Count(data) == Count(data');
    forall o | 12 <= o && o + 12 <= |data|
      ensures ExtentAt(data, o) == ExtentAt(data', o) && IdxAt(data, o) == IdxAt(data', o)
    {
    }
    hide ExtentAt, IdxAt, Le16, Le32;
  }

  // ---- nodes as they are stored ----

  function NodeHead(entries: u16, max: u16, depth: u16): (s: seq<byte>)
    ensures |s| == 12
  {
    Enc16(0xF30A) + Enc16(entries) + Enc16(max) + Enc16(depth) + Zeros(4)
  }

  /** First block, length, high and low half of the first physical block. */
  function StoredExtent(e: Extent): (s: seq<byte>)
    requires e.physical < 0x1_0000_0000_0000
    ensures |s| == 12
  {
    Enc32(e.logical) + Enc16(e.length) + Enc16(e.physical / 0x1_0000_0000) + Enc32(e.physical % 0x1_0000_0000)
  }

  /** First block, low and high half of the child, and two bytes that are not used. */
  function StoredIdx(x: ExtentIdx): (s: seq<byte>)
    requires x.child < 0x1_0000_0000_0000
    ensures |s| == 12
  {
    Enc32(x.logical) + Enc32(x.child % 0x1_0000_0000) + Enc16(x.child / 0x1_0000_0000) + Zeros(2)
  }

  function Join(parts: seq<seq<byte>>): seq<byte> { if parts == [] then [] else parts[0] + Join(parts[1..]) }

  lemma {:induction false} JoinAt(parts: seq<seq<byte>>)
    requires forall p :: p in parts ==> |p| == 12
    ensures |Join(parts)| == 12 * |parts|
    ensures forall i :: 0 <= i < |parts| ==> Join(parts)[12 * i..12 * i + 12] == parts[i]
  {
    if parts != [] {
      JoinAt(parts[1..]);
      forall i | 0 <= i < |parts| ensures Join(parts)[12 * i..12 * i + 12] == parts[i] {
        if i > 0 {
          assert Join(parts[1..])[12 * (i - 1)..12 * (i - 1) + 12] == parts[1..][i - 1];
          SliceOfSlice(Join(parts), 12, |Join(parts)|, 12 * (i - 1), 12 * (i - 1) + 12);
          assert Join(parts)[12..|Join(parts)|] == Join(parts[1..]);
        }
      }
    }
  }

  lemma ExtentReads(s: seq<byte>, o: nat, e: Extent)
    requires o + 12 <= |s| && e.physical < 0x1_0000_0000_0000 && s[o..o + 12] == StoredExtent(e)
    ensures ExtentAt(s, o) == e
  {
    hide Enc16, Enc32, Le16, Le32;
    var t := s[o..o + 12];
    assert t[0..4] == Enc32(e.logical) && t[4..6] == Enc16(e.length);
    assert t[6..8] == Enc16(e.physical / 0x1_0000_0000) && t[8..12] == Enc32(e.physical % 0x1_0000_0000);
    SliceOfSlice(s, o, o + 12, 0, 4);
    SliceOfSlice(s, o, o + 12, 4, 6);
    SliceOfSlice(s, o, o + 12, 6, 8);
    SliceOfSlice(s, o, o + 12, 8, 12);
    Enc32Reads(s, o, e.logical);
    Enc16Reads(s, o + 4, e.length);
    Enc16Reads(s, o + 6, e.physical / 0x1_0000_0000);
    Enc32Reads(s, o + 8, e.physical % 0x1_0000_0000);
  }

  lemma IdxReads(s: seq<byte>, o: nat, x: ExtentIdx)
    requires o + 12 <= |s| && x.child < 0x1_0000_0000_0000 && s[o..o + 12] == StoredIdx(x)
    ensures IdxAt(s, o) == x
  {
    hide Enc16, Enc32, Le16, Le32;
    var t := s[o..o + 12];
    assert t[0..4] == Enc32(x.logical) && t[4..8] == Enc32(x.child % 0x1_0000_0000);
    assert t[8..10] == Enc16(x.child / 0x1_0000_0000);
    SliceOfSlice(s, o, o + 12, 0, 4);
    SliceOfSlice(s, o, o + 12, 4, 8);
    SliceOfSlice(s, o, o + 12, 8, 10);
    Enc32Reads(s, o, x.logical);
    Enc32Reads(s, o + 4, x.child % 0x1_0000_0000);
    Enc16Reads(s, o + 8, x.child / 0x1_0000_0000);
  }

  lemma HeadReads(entries: u16, max: u16, depth: u16, parts: seq<seq<byte>>, rest: seq<byte>)
    requires |parts| == entries && forall p :: p in parts ==> |p| == 12
    ensures var s := NodeHead(entries, max, depth) + Join(parts) + rest;
            && 12 + 12 * |parts| <= |s|
            && Magic(s) && Le16(s, 2) == entries && Le16(s, 6) == depth && Count(s) == entries
            && forall i :: 0 <= i < |parts| ==> s[EntryOffset(i)..EntryOffset(i) + 12] == parts[i]
  {
    hide Enc16, Enc32, Le16;
    var h := NodeHead(entries, max, depth);
    var s := h + Join(parts) + rest;
    JoinAt(parts);
    assert h[0..2] == Enc16(0xF30A) && h[2..4] == Enc16(entries) && h[6..8] == Enc16(depth);
    assert s[0..2] == h[0..2] && s[2..4] == h[2..4] && s[6..8] == h[6..8];
    Enc16Reads(s, 0, 0xF30A);
    Enc16Reads(s, 2, entries);
    Enc16Reads(s, 6, depth);
    assert s[12..12 + 12 * |parts|] == Join(parts);
    forall i | 0 <= i < |parts| ensures s[EntryOffset(i)..EntryOffset(i) + 12] == parts[i] {
      SliceOfSlice(s, 12, 12 + 12 * |parts|, 12 * i, 12 * i + 12);
    }
  }

  function StoredLeaf(es: seq<Extent>, max: u16): (s: seq<byte>)
    requires |es| < 0x1_0000 && forall e :: e in es ==> e.physical < 0x1_0000_0000_0000
    ensures 12 <= |s|
  {
    NodeHead(|es|, max, 0) + Join(seq(|es|, i requires 0 <= i < |es| => StoredExtent(es[i])))
  }

  function StoredInner(xs: seq<ExtentIdx>, max: u16, depth: u16): (s: seq<byte>)
    requires |xs| < 0x1_0000 && forall x :: x in xs ==> x.child < 0x1_0000_0000_0000
    ensures 12 <= |s|
  {
    NodeHead(|xs|, max, depth) + Join(seq(|xs|, i requires 0 <= i < |xs| => StoredIdx(xs[i])))
  }

  /** A node decodes to exactly the extents that are stored in it, whatever follows them. */
  lemma LeavesDecoded(es: seq<Extent>, max: u16, rest: seq<byte>)
    requires |es| < 0x1_0000 && forall e :: e in es ==> e.physical < 0x1_0000_0000_0000
    ensures ParseNode(StoredLeaf(es, max) + rest, false) == Ok(Leaves(es))
  {
    hide NodeHead, StoredExtent, ExtentAt, IdxAt, Le16, Join, Count, Magic;
    var parts := seq(|es|, i requires 0 <= i < |es| => StoredExtent(es[i]));
    var s := StoredLeaf(es, max) + rest;
    HeadReads(|es|, max, 0, parts, rest);
    forall i | 0 <= i < |es| ensures ExtentAt(s, EntryOffset(i)) == es[i] {
      assert s[EntryOffset(i)..EntryOffset(i) + 12] == parts[i];
      ExtentReads(s, EntryOffset(i), es[i]);
    }
    assert NodeBody(s).extents == es;
  }

  /** And to exactly the children, below a depth. */
  lemma IndicesDecoded(xs: seq<ExtentIdx>, max: u16, depth: u16, rest: seq<byte>)
    requires |xs| < 0x1_0000 && depth > 0 && forall x :: x in xs ==> x.child < 0x1_0000_0000_0000
    ensures ParseNode(StoredInner(xs, max, depth) + rest, false) == Ok(Indices(xs))
  {
    hide NodeHead, StoredIdx, ExtentAt, IdxAt, Le16, Join, Count, Magic;
    var parts := seq(|xs|, i requires 0 <= i < |xs| => StoredIdx(xs[i]));
    var s := StoredInner(xs, max, depth) + rest;
    HeadReads(|xs|, max, depth, parts, rest);
    forall i | 0 <= i < |xs| ensures IdxAt(s, EntryOffset(i)) == xs[i] {
      assert s[EntryOffset(i)..EntryOffset(i) + 12] == parts[i];
      IdxReads(s, EntryOffset(i), xs[i]);
    }
    assert NodeBody(s).indices == xs;
  }
}
