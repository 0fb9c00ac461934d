/** Directory blocks: the tolerant parser, and the chains of records it is meant for. */
module Directory {
  import opened Bytes

  datatype DirEntry = DirEntry(inode: u32, name: seq<byte>, fileType: byte, recLen: u16)

  function Align4(n: nat): (r: nat)
    ensures n <= r < n + 4 && r % 4 == 0
  {
    (n + 3) / 4 * 4
  }

  // ---- the fields of the record at `p` ----

  predicate Header(s: seq<byte>, p: nat) { p + 8 <= |s| }

  function Ino(s: seq<byte>, p: nat): u32 requires Header(s, p) { Le32(s, p) }
  function RecLen(s: seq<byte>, p: nat): u16 requires Header(s, p) { Le16(s, p + 4) }
  function NameLen(s: seq<byte>, p: nat): (n: nat)
    requires Header(s, p)
    ensures n < 0x100
  {
    s[p + 6]
  }

  function FileType(s: seq<byte>, p: nat): byte requires Header(s, p) { s[p + 7] }

  /** The least record length that can hold the record's name. */
  function Needed(s: seq<byte>, p: nat): nat requires Header(s, p) { Align4(8 + NameLen(s, p)) }

  predicate Named(s: seq<byte>, p: nat) requires Header(s, p) {
    Ino(s, p) != 0 && NameLen(s, p) > 0
  }

  /** The stride the parser uses: a stored length too short for the name is replaced by the least one. */
  function Stride(s: seq<byte>, p: nat): (n: nat)
    requires Header(s, p)
    ensures n < 0x1_0000
  {
    if Named(s, p) && RecLen(s, p) < Needed(s, p) then Needed(s, p) else RecLen(s, p)
  }

  predicate Listed(s: seq<byte>, p: nat) requires Header(s, p) {
    Named(s, p) && p + 8 + NameLen(s, p) <= |s| && FileType(s, p) != 0xDE
  }

  function EntryAt(s: seq<byte>, p: nat): DirEntry
    requires Header(s, p) && p + 8 + NameLen(s, p) <= |s|
  {
    DirEntry(Ino(s, p), s[p + 8..p + 8 + NameLen(s, p)], FileType(s, p), Stride(s, p))
  }

  predicate Stops(s: seq<byte>, p: nat, limit: nat) {
    !Header(s, p) || p >= limit || RecLen(s, p) == 0 || p + Stride(s, p) > limit
  }

  /** What the record at `p` contributes to the listing. */
  function Listing(s: seq<byte>, p: nat): seq<DirEntry>
    requires Header(s, p)
  {
    if Listed(s, p) then [EntryAt(s, p)] else []
  }

  /** The listing of the records from `p` on. */
  function ParseFrom(s: seq<byte>, p: nat, limit: nat): seq<DirEntry>
    decreases limit - p
  {
    if Stops(s, p, limit) then []
    else Listing(s, p) + ParseFrom(s, p + Stride(s, p), limit)
  }

  /** What the parser returns for a block. */
  function Parse(s: seq<byte>, limit: nat): seq<DirEntry> { ParseFrom(s, 0, limit) }

  method ParseDirEntries(data: seq<byte>, blockSize: nat) returns (entries: seq<DirEntry>)
    ensures entries == Parse(data, blockSize)
  {
    hide Ino, RecLen, NameLen, FileType, Align4, Listed, EntryAt;
    entries := [];
    var offset := 0;
    while offset + 8 <= |data| && offset < blockSize
      invariant Parse(data, blockSize) == entries + ParseFrom(data, offset, blockSize)
      decreases blockSize - offset
    {
      var inode := Ino(data, offset);
      var recLen := RecLen(data, offset);
      var nameLen := NameLen(data, offset);
      if recLen == 0 { break; }
      var minRecLen := Align4(8 + nameLen);
      var effective := if inode != 0 && nameLen > 0 && recLen < minRecLen then minRecLen else recLen;
      if offset + effective > blockSize { break; }
      var found := ReadEntry(data, offset, effective);
      assert (entries + found) + ParseFrom(data, offset + effective, blockSize)
          == entries + (found + ParseFrom(data, offset + effective, blockSize));
      entries := entries + found;
      offset := offset + effective;
    }
  }

  /** The body of the loop's second test: the record is listed unless it is dead, cut off or the checksum tail. */
  method ReadEntry(data: seq<byte>, offset: nat, effective: nat) returns (found: seq<DirEntry>)
    requires Header(data, offset) && effective == Stride(data, offset) < 0x1_0000
    ensures found == Listing(data, offset)
  {
    hide Le32, Le16, Stride;
    var inode := Ino(data, offset);
    var nameLen := NameLen(data, offset);
    var fileType := FileType(data, offset);
    found := [];
    if inode != 0 && nameLen > 0 && offset + 8 + nameLen <= |data| {
      var name := data[offset + 8..offset + 8 + nameLen];
      if fileType != 0xDE {
        found := [DirEntry(inode, name, fileType, effective)];
      }
    }
  }

  // ---- blocks written out from their records ----

  /** The record has room for its name. */
  predicate Roomy(e: DirEntry) { |e.name| < 0x100 && Align4(8 + |e.name|) <= e.recLen }

  function StoredRecord(e: DirEntry): (s: seq<byte>)
    requires Roomy(e)
    ensures |s| == e.recLen
  {
    Enc32(e.inode) + Enc16(e.recLen) + [|e.name|, e.fileType] + e.name + Zeros(e.recLen - 8 - |e.name|)
  }

  function StoredRecords(es: seq<DirEntry>): seq<byte>
    requires forall e :: e in es ==> Roomy(e)
  {
    if es == [] then [] else StoredRecord(es[0]) + StoredRecords(es[1..])
  }

  /** The records that are listed: those with an inode and a name, and not of the checksum tail's type. */
  function Shown(es: seq<DirEntry>): seq<DirEntry> {
    if es == [] then []
    else (if es[0].inode != 0 && es[0].name != [] && es[0].fileType != 0xDE then [es[0]] else []) + Shown(es[1..])
  }

  lemma RecordReads(s: seq<byte>, p: nat, e: DirEntry)
    requires Roomy(e) && p + e.recLen <= |s| && s[p..p + e.recLen] == StoredRecord(e)
    ensures Header(s, p) && Ino(s, p) == e.inode && RecLen(s, p) == e.recLen && NameLen(s, p) == |e.name|
    ensures FileType(s, p) == e.fileType && s[p + 8..p + 8 + |e.name|] == e.name
  {
    hide Enc32, Enc16, Align4, Le32, Le16;
    var t := s[p..p + e.recLen];
    SliceOfSlice(s, p, p + e.recLen, 0, 4);
    SliceOfSlice(s, p, p + e.recLen, 4, 6);
    SliceOfSlice(s, p, p + e.recLen, 8, 8 + |e.name|);
    assert t[0..4] == Enc32(e.inode) && t[4..6] == Enc16(e.recLen) && t[8..8 + |e.name|] == e.name;
    assert s[p + 6] == t[6] && s[p + 7] == t[7];
    Enc32Reads(s, p, e.inode);
    Enc16Reads(s, p + 4, e.recLen);
  }

  lemma RecordListed(s: seq<byte>, p: nat, e: DirEntry, limit: nat)
    requires Roomy(e) && p + e.recLen <= |s| && s[p..p + e.recLen] == StoredRecord(e) && p + e.recLen <= limit
    ensures Header(s, p) && !Stops(s, p, limit) && Stride(s, p) == e.recLen
    ensures Listing(s, p) == if e.inode != 0 && e.name != [] && e.fileType != 0xDE then [e] else []
  {
    hide StoredRecord, Ino, RecLen, NameLen, FileType;
    RecordReads(s, p, e);
  }

  /** Any records, written one after the other, are listed as they are, but for those that are not in use. */
  lemma {:induction false} RecordsDecoded(before: seq<byte>, es: seq<DirEntry>)
    requires forall e :: e in es ==> Roomy(e)
    ensures var s := before + StoredRecords(es); ParseFrom(s, |before|, |s|) == Shown(es)
    decreases |es|
  {
    hide StoredRecord, Stops, Stride, Listing, Roomy;
    var s, p := before + StoredRecords(es), |before|;
    if es == [] {
      NoRecord(s, p);
    } else {
      var head := StoredRecord(es[0]);
      assert s == before + head + StoredRecords(es[1..]);
      assert s[p..p + |head|] == head;
      RecordListed(s, p, es[0], |s|);
      RecordsDecoded(before + head, es[1..]);
    }
  }

  lemma NoRecord(s: seq<byte>, p: nat)
    requires p >= |s|
    ensures Stops(s, p, |s|)
  {
  }

  // ---- arbitrary bytes: where the listed names lie ----

  /** The offsets of the records that the parser lists, from `p` on. */
  function Offsets(s: seq<byte>, p: nat, limit: nat): (r: seq<nat>)
    ensures forall k :: 0 <= k < |r| ==> Header(s, r[k])
    decreases limit - p
  {
    if Stops(s, p, limit) then []
    else (if Listed(s, p) then [p] else []) + Offsets(s, p + Stride(s, p), limit)
  }

  /** On any bytes at all, entry `k` is read at `Offsets[k]`, and the bytes that the entries
      are read from are disjoint, ascending and inside the block. */
  lemma {:induction false} NamesDisjoint(s: seq<byte>, p: nat, limit: nat)
    ensures var at, es := Offsets(s, p, limit), ParseFrom(s, p, limit);
            && |at| == |es|
            && (forall k :: 0 <= k < |at| ==>
                  && p <= at[k] && at[k] + 8 + NameLen(s, at[k]) <= Min(|s|, limit)
                  && es[k] == EntryAt(s, at[k]))
            && (forall j, k :: 0 <= j < k < |at| ==> at[j] + 8 + NameLen(s, at[j]) <= at[k])
    decreases limit - p
  {
    hide Ino, RecLen, NameLen, FileType, Align4, EntryAt;
    if !Stops(s, p, limit) {
      NamesDisjoint(s, p + Stride(s, p), limit);
    }
  }

  // ---- well-formed blocks: records that tile ----

  predicate RecordOk(s: seq<byte>, p: nat, end: nat) {
    && Header(s, p) && 8 <= RecLen(s, p) && p + RecLen(s, p) <= end
    && (Ino(s, p) != 0 ==> Needed(s, p) <= RecLen(s, p))
  }

  /** Records tile the bytes from `p` to `end` exactly. */
  predicate Chain(s: seq<byte>, p: nat, end: nat)
    decreases end - p
  {
    p == end || (p < end <= |s| && RecordOk(s, p, end) && Chain(s, p + RecLen(s, p), end))
  }

  /** The listing of the chained records in `[p, end)`. */
  function ListTo(s: seq<byte>, p: nat, end: nat): seq<DirEntry>
    requires Chain(s, p, end)
    decreases end - p
  {
    if p == end then [] else Listing(s, p) + ListTo(s, p + RecLen(s, p), end)
  }

  function Last(s: seq<byte>, p: nat, end: nat): (q: nat)
    requires Chain(s, p, end) && p < end
    ensures p <= q < end && RecordOk(s, q, end)
    decreases end - p
  {
    if p + RecLen(s, p) == end then p else Last(s, p + RecLen(s, p), end)
  }

  lemma ChainStride(s: seq<byte>, p: nat, end: nat)
    requires RecordOk(s, p, end)
    ensures Stride(s, p) == RecLen(s, p)
  {
    hide Ino, RecLen, NameLen, Align4;
  }

  lemma {:induction false} ParseChain(s: seq<byte>, p: nat, end: nat, limit: nat)
    requires Chain(s, p, end) && end <= limit
    ensures ParseFrom(s, p, limit) == ListTo(s, p, end) + ParseFrom(s, end, limit)
    decreases end - p
  {
    hide Ino, RecLen, NameLen, Listing, Stride;
    if p < end {
      ChainStride(s, p, end);
      ParseChain(s, p + RecLen(s, p), end, limit);
    }
  }

  lemma {:induction false} LastSplits(s: seq<byte>, p: nat, end: nat)
    requires Chain(s, p, end) && p < end
    ensures var q := Last(s, p, end);
            && Chain(s, p, q) && q + RecLen(s, q) == end
            && ListTo(s, p, end) == ListTo(s, p, q) + Listing(s, q)
    decreases end - p
  {
    hide Ino, RecLen, NameLen, Listing, Needed;
    if p + RecLen(s, p) < end {
      LastSplits(s, p + RecLen(s, p), end);
    }
  }

  lemma {:induction false} ChainJoins(s: seq<byte>, p: nat, m: nat, end: nat)
    requires Chain(s, p, m) && Chain(s, m, end) && m <= end
    ensures Chain(s, p, end)
    ensures ListTo(s, p, end) == ListTo(s, p, m) + ListTo(s, m, end)
    decreases m - p
  {
    hide Ino, RecLen, NameLen, Listing, Needed;
    if p < m {
      ChainJoins(s, p + RecLen(s, p), m, end);
    }
  }

  /** Two blocks that agree from `p` to `end` have the same chain there. */
  lemma {:induction false} ChainAgrees(s: seq<byte>, t: seq<byte>, p: nat, end: nat)
    requires Chain(s, p, end) && p <= end <= |s| == |t|
    requires s[p..end] == t[p..end]
    ensures Chain(t, p, end) && ListTo(t, p, end) == ListTo(s, p, end)
    decreases end - p
  {
    hide Ino, RecLen, NameLen, Needed, Listing;
    if p < end {
      RecordAgrees(s, t, p, end);
      SuffixAgrees(s, t, p, p + RecLen(s, p), end);
      ChainAgrees(s, t, p + RecLen(s, p), end);
    }
  }

  lemma RecordAgrees(s: seq<byte>, t: seq<byte>, p: nat, end: nat)
    requires RecordOk(s, p, end) && end <= |s| == |t|
    requires s[p..end] == t[p..end]
    ensures RecordOk(t, p, end) && RecLen(t, p) == RecLen(s, p) && Listing(t, p) == Listing(s, p)
  {
    assert forall i :: p <= i < end ==> s[i] == s[p..end][i - p] == t[p..end][i - p] == t[i];
    SameHeader(s, t, p);
    hide Ino, RecLen, FileType;
    if Listed(s, p) {
      SliceOfSlice(s, p, end, 8, 8 + NameLen(s, p));
      SliceOfSlice(t, p, end, 8, 8 + NameLen(s, p));
    }
  }

  lemma SameHeader(s: seq<byte>, t: seq<byte>, p: nat)
    requires Header(s, p) && |t| == |s| && forall i :: p <= i < p + 8 ==> s[i] == t[i]
    ensures Ino(t, p) == Ino(s, p) && RecLen(t, p) == RecLen(s, p)
    ensures NameLen(t, p) == NameLen(s, p) && FileType(t, p) == FileType(s, p)
  {
  }

  // ---- insertion ----

  /** An entry without the record length, which insertion and recovery are free to change. */
  function Link(e: DirEntry): DirEntry { e.(recLen := 0) }

  function Links(es: seq<DirEntry>): (r: seq<DirEntry>)
    ensures |r| == |es|
  {
    seq(|es|, k requires 0 <= k < |es| => Link(es[k]))
  }

  lemma LinksAppend(a: seq<DirEntry>, b: seq<DirEntry>)
    ensures Links(a + b) == Links(a) + Links(b)
  {
  }

  function RecordHead(ino: u32, recLen: u16, name: seq<byte>, fileType: byte): (h: seq<byte>)
    ensures |h| == 8
  {
    Enc32(ino) + Enc16(recLen) + [|name| % 0x100, fileType]
  }

  /** The bytes of the record at `q` that are in use. */
  function InUse(s: seq<byte>, q: nat): nat requires Header(s, q) {
    if Ino(s, q) != 0 then Needed(s, q) else 0
  }

  predicate HasRoom(s: seq<byte>, q: nat, end: nat, name: seq<byte>) {
    RecordOk(s, q, end) && Align4(8 + |name|) <= RecLen(s, q) - InUse(s, q)
  }

  /** The block with a new record in the slack of the record at `q`, or in its place if that is empty. */
  function AddRecord(s: seq<byte>, q: nat, end: nat, ino: u32, name: seq<byte>, fileType: byte): (t: seq<byte>)
    requires end <= |s| && HasRoom(s, q, end, name)
    ensures |t| == |s|
  {
    if Ino(s, q) != 0 then
      var actual := Needed(s, q);
      Put(Put(s, q + 4, Enc16(actual)), q + actual, RecordHead(ino, RecLen(s, q) - actual, name, fileType) + name)
    else
      Put(s, q, RecordHead(ino, RecLen(s, q), name, fileType) + name)
  }

  /** What a record with this name is listed as: the length byte keeps only the low eight bits. */
  function NewLinks(ino: u32, name: seq<byte>, fileType: byte): seq<DirEntry> {
    var n := |name| % 0x100;
    if ino != 0 && n > 0 && fileType != 0xDE then [DirEntry(ino, name[..n], fileType, 0)] else []
  }

  /** A record whose header and name were just written at `n`. */
  lemma WrittenRecord(t: seq<byte>, n: nat, end: nat, ino: u32, recLen: u16, name: seq<byte>, fileType: byte)
    requires end <= |t| && n + recLen <= end && Align4(8 + |name|) <= recLen
    requires t[n..n + 8 + |name|] == RecordHead(ino, recLen, name, fileType) + name
    ensures RecordOk(t, n, end) && RecLen(t, n) == recLen
    ensures Links(Listing(t, n)) == NewLinks(ino, name, fileType)
  {
    var h := RecordHead(ino, recLen, name, fileType);
    var k := |name| % 0x100;
    SliceOfSlice(t, n, n + 8 + |name|, 0, 8);
    assert (h + name)[0..8] == h;
    SliceOfSlice(t, n, n + 8 + |name|, 8, 8 + k);
    assert (h + name)[8..8 + k] == name[..k];
    WrittenHead(t, n, ino, recLen, name, fileType);
    hide Ino, RecLen, NameLen, FileType, RecordHead;
  }

  lemma WrittenHead(t: seq<byte>, n: nat, ino: u32, recLen: u16, name: seq<byte>, fileType: byte)
    requires n + 8 <= |t| && t[n..n + 8] == RecordHead(ino, recLen, name, fileType)
    ensures Ino(t, n) == ino && RecLen(t, n) == recLen && NameLen(t, n) == |name| % 0x100 && FileType(t, n) == fileType
  {
    var h := RecordHead(ino, recLen, name, fileType);
    SliceOfSlice(t, n, n + 8, 0, 4);
    assert h[0..4] == Enc32(ino);
    SliceOfSlice(t, n, n + 8, 4, 6);
    assert h[4..6] == Enc16(recLen);
    assert t[n + 6] == t[n..n + 8][6] && t[n + 7] == t[n..n + 8][7];
    Enc32Reads(t, n, ino);
    Enc16Reads(t, n + 4, recLen);
  }

  /** The bytes of the block after an insertion into the slack of a live record. */
  lemma SplitBytes(s: seq<byte>, q: nat, end: nat, ino: u32, name: seq<byte>, fileType: byte, t: seq<byte>)
    requires end <= |s| && HasRoom(s, q, end, name) && Ino(s, q) != 0
    requires t == AddRecord(s, q, end, ino, name, fileType)
    ensures t[..q] == s[..q] && t[end..] == s[end..]
    ensures t[q + 4..q + 6] == Enc16(Needed(s, q))
    ensures t[q..q + 4] == s[q..q + 4] && t[q + 6..q + 8 + NameLen(s, q)] == s[q + 6..q + 8 + NameLen(s, q)]
    ensures var n := q + Needed(s, q);
            t[n..n + 8 + |name|] == RecordHead(ino, RecLen(s, q) - Needed(s, q), name, fileType) + name
  {
    hide RecordHead, Enc16, Ino, RecLen, NameLen, Put;
    var actual := Needed(s, q);
    var n := q + actual;
    var u := Put(s, q + 4, Enc16(actual));
    var d := RecordHead(ino, RecLen(s, q) - actual, name, fileType) + name;
    assert t == Put(u, n, d);
    PutInside(u, n, d);
    PutInside(s, q + 4, Enc16(actual));
    PutOutside(u, n, d, q + 4, q + 6);
    PutOutside(u, n, d, q, q + 4);
    PutOutside(u, n, d, q + 6, q + 8 + NameLen(s, q));
  }

  /** The records of the block after an insertion into the slack of a live record. */
  lemma SplitRecord(s: seq<byte>, q: nat, end: nat, ino: u32, name: seq<byte>, fileType: byte, t: seq<byte>)
    requires end <= |s| && HasRoom(s, q, end, name) && Ino(s, q) != 0
    requires t == AddRecord(s, q, end, ino, name, fileType)
    ensures RecordOk(t, q, end) && RecLen(t, q) == Needed(s, q) && Links(Listing(t, q)) == Links(Listing(s, q))
    ensures var n := q + Needed(s, q);
            RecordOk(t, n, end) && n + RecLen(t, n) == q + RecLen(s, q)
              && Links(Listing(t, n)) == NewLinks(ino, name, fileType)
  {
    hide AddRecord, RecordHead, NewLinks, Enc16;
    SplitBytes(s, q, end, ino, name, fileType, t);
    Enc16Reads(t, q + 4, Needed(s, q));
    KeptRecord(s, t, q);
    hide Ino, NameLen, FileType, Listing, Links, Needed;
    var n := q + Needed(s, q);
    WrittenRecord(t, n, end, ino, RecLen(s, q) - Needed(s, q), name, fileType);
  }

  /** A record of which only the length field changed. */
  lemma KeptRecord(s: seq<byte>, t: seq<byte>, q: nat)
    requires |t| == |s| && Header(s, q) && q + 8 + NameLen(s, q) <= |s|
    requires t[q..q + 4] == s[q..q + 4] && t[q + 6..q + 8 + NameLen(s, q)] == s[q + 6..q + 8 + NameLen(s, q)]
    ensures Ino(t, q) == Ino(s, q) && NameLen(t, q) == NameLen(s, q) && FileType(t, q) == FileType(s, q)
    ensures Links(Listing(t, q)) == Links(Listing(s, q))
  {
    var k := q + 8 + NameLen(s, q);
    SameLe32(s, t, q);
    assert t[q + 6] == t[q + 6..k][0] && s[q + 6] == s[q + 6..k][0];
    assert t[q + 7] == t[q + 6..k][1] && s[q + 7] == s[q + 6..k][1];
    SliceOfSlice(t, q + 6, k, 2, 2 + NameLen(s, q));
    SliceOfSlice(s, q + 6, k, 2, 2 + NameLen(s, q));
    hide Le32, Stride;
  }

  lemma SameLe32(s: seq<byte>, t: seq<byte>, p: nat)
    requires p + 4 <= |s| == |t| && t[p..p + 4] == s[p..p + 4]
    ensures Le32(t, p) == Le32(s, p)
  {
    var a, b := t[p..p + 4], s[p..p + 4];
    assert a[0] == b[0] && a[1] == b[1] && a[2] == b[2] && a[3] == b[3];
  }

  lemma ReuseRecord(s: seq<byte>, q: nat, end: nat, ino: u32, name: seq<byte>, fileType: byte, t: seq<byte>)
    requires end <= |s| && HasRoom(s, q, end, name) && Ino(s, q) == 0
    requires t == AddRecord(s, q, end, ino, name, fileType)
    ensures t[..q] == s[..q] && t[end..] == s[end..]
    ensures RecordOk(t, q, end) && RecLen(t, q) == RecLen(s, q)
    ensures Listing(s, q) == [] && Links(Listing(t, q)) == NewLinks(ino, name, fileType)
  {
    hide Ino, RecLen, NameLen, FileType, RecordHead, NewLinks, Needed;
    PutInside(s, q, RecordHead(ino, RecLen(s, q), name, fileType) + name);
    WrittenRecord(t, q, end, ino, RecLen(s, q), name, fileType);
  }

  /** Inserting at the last record keeps the tiling and lists exactly one more entry, at the end. */
  lemma InsertLists(s: seq<byte>, end: nat, ino: u32, name: seq<byte>, fileType: byte)
    requires 0 < end <= |s| && Chain(s, 0, end) && HasRoom(s, Last(s, 0, end), end, name)
    ensures var t := AddRecord(s, Last(s, 0, end), end, ino, name, fileType);
            && Chain(t, 0, end) && t[end..] == s[end..]
            && Links(ListTo(t, 0, end)) == Links(ListTo(s, 0, end)) + NewLinks(ino, name, fileType)
  {
    var q := Last(s, 0, end);
    var t := AddRecord(s, q, end, ino, name, fileType);
    LastSplits(s, 0, end);
    var live := Ino(s, q) != 0;
    var n := if live then q + Needed(s, q) else q;
    if live {
      SplitBytes(s, q, end, ino, name, fileType, t);
      SplitRecord(s, q, end, ino, name, fileType, t);
    } else {
      ReuseRecord(s, q, end, ino, name, fileType, t);
    }
    hide AddRecord, Ino, NameLen, Needed, RecordOk, NewLinks, Listing, HasRoom, Links;
    assert s[0..q] == t[0..q];
    ChainAgrees(s, t, 0, q);
    TwoRecords(t, q, n, end);
    ChainJoins(t, 0, q, end);
    assert |Links(Listing(s, q))| == |Listing(s, q)|;
    LinkSums(ListTo(s, 0, q), Listing(s, q), if live then Listing(t, q) else [], Listing(t, n));
  }

  lemma LinkSums(before: seq<DirEntry>, was: seq<DirEntry>, kept: seq<DirEntry>, added: seq<DirEntry>)
    requires Links(kept) == Links(was)
    ensures Links(before + (kept + added)) == Links(before + was) + Links(added)
  {
    LinksAppend(before, kept + added);
    LinksAppend(kept, added);
    LinksAppend(before, was);
  }

  /** One or two records that reach `end`. */
  lemma TwoRecords(t: seq<byte>, q: nat, n: nat, end: nat)
    requires q <= n < end <= |t| && RecordOk(t, n, end) && n + RecLen(t, n) == end
    requires n == q || (RecordOk(t, q, end) && q + RecLen(t, q) == n)
    ensures Chain(t, q, end)
    ensures ListTo(t, q, end) == (if n == q then [] else Listing(t, q)) + Listing(t, n)
  {
    hide Ino, RecLen, NameLen, Needed, Listing;
    assert Chain(t, end, end) && ListTo(t, end, end) == [];
    assert Chain(t, n, end) && ListTo(t, n, end) == Listing(t, n);
  }

  // ---- whole blocks ----

  function End(s: seq<byte>, csum: bool): int { if csum then |s| - 12 else |s| }

  /** A directory block as the file system keeps it: tiled records, then the checksum tail if there is one. */
  predicate BlockOk(s: seq<byte>, csum: bool) {
    && 12 < |s| && Chain(s, 0, End(s, csum))
    && (csum ==> Ino(s, |s| - 12) == 0 && RecLen(s, |s| - 12) == 12)
  }

  lemma BlockParse(s: seq<byte>, csum: bool)
    requires BlockOk(s, csum)
    ensures Parse(s, |s|) == ListTo(s, 0, End(s, csum))
  {
    hide Ino, RecLen, NameLen, Align4, Chain, ListTo;
    ParseChain(s, 0, End(s, csum), |s|);
    assert Stops(s, |s|, |s|);
    if csum {
      var p := |s| - 12;
      assert !Listed(s, p) by { assert !Named(s, p); }
      assert Stride(s, p) == 12;
      assert ParseFrom(s, p, |s|) == Listing(s, p) + ParseFrom(s, p + 12, |s|);
    }
  }

  // ---- recovery ----

  /** `t` is `s` with the record lengths of some tightly packed live records made smaller, but not zero. */
  predicate Shrunk(s: seq<byte>, t: seq<byte>, p: nat, end: nat)
    requires |t| == |s| && end <= |s| && Chain(s, p, end)
    decreases end - p
  {
    p == end || (
      && t[p..p + 4] == s[p..p + 4] && t[p + 6..p + RecLen(s, p)] == s[p + 6..p + RecLen(s, p)]
      && (RecLen(t, p) == RecLen(s, p)
          || (Named(s, p) && RecLen(s, p) == Needed(s, p) && 0 < RecLen(t, p) < RecLen(s, p)))
      && Shrunk(s, t, p + RecLen(s, p), end))
  }

  lemma ShrunkRecord(s: seq<byte>, t: seq<byte>, p: nat, end: nat)
    requires |t| == |s| && end <= |s| && RecordOk(s, p, end)
    requires t[p..p + 4] == s[p..p + 4] && t[p + 6..p + RecLen(s, p)] == s[p + 6..p + RecLen(s, p)]
    requires RecLen(t, p) == RecLen(s, p)
          || (Named(s, p) && RecLen(s, p) == Needed(s, p) && 0 < RecLen(t, p) < RecLen(s, p))
    ensures Stride(t, p) == RecLen(s, p) && Listing(t, p) == Listing(s, p)
  {
    var k := p + RecLen(s, p);
    SameLe32(s, t, p);
    assert t[p + 6] == t[p + 6..k][0] && s[p + 6] == s[p + 6..k][0];
    assert t[p + 7] == t[p + 6..k][1] && s[p + 7] == s[p + 6..k][1];
    hide Le32, Align4;
    if Listed(s, p) {
      SliceOfSlice(t, p + 6, k, 2, 2 + NameLen(s, p));
      SliceOfSlice(s, p + 6, k, 2, 2 + NameLen(s, p));
    }
  }

  /** The parser reads a block the same after any such damage. */
  lemma {:induction false} Recovers(s: seq<byte>, t: seq<byte>, p: nat, end: nat, limit: nat)
    requires |t| == |s| && end <= |s| && end <= limit && Chain(s, p, end) && Shrunk(s, t, p, end)
    requires t[end..] == s[end..]
    ensures ParseFrom(t, p, limit) == ParseFrom(s, p, limit)
    decreases end - p
  {
    hide Align4, Ino, NameLen, FileType, Listing;
    if p == end {
      SameTail(s, t, p, limit);
    } else {
      ShrunkRecord(s, t, p, end);
      ChainStride(s, p, end);
      Recovers(s, t, p + RecLen(s, p), end, limit);
    }
  }

  lemma SameRecord(s: seq<byte>, t: seq<byte>, p: nat, limit: nat)
    requires |t| == |s| && Header(s, p) && t[p..] == s[p..]
    ensures Stops(t, p, limit) == Stops(s, p, limit) && Stride(t, p) == Stride(s, p)
    ensures Listing(t, p) == Listing(s, p)
  {
    assert forall i :: p <= i < |s| ==> s[i] == s[p..][i - p] == t[p..][i - p] == t[i];
    SameHeader(s, t, p);
    hide Ino, RecLen, FileType, Align4;
    if Listed(s, p) {
      assert s[p..] == s[p..|s|] && t[p..] == t[p..|s|];
      SliceOfSlice(s, p, |s|, 8, 8 + NameLen(s, p));
      SliceOfSlice(t, p, |s|, 8, 8 + NameLen(s, p));
    }
  }

  lemma {:induction false} SameTail(s: seq<byte>, t: seq<byte>, p: nat, limit: nat)
    requires |t| == |s| && p <= |s| && t[p..] == s[p..]
    ensures ParseFrom(t, p, limit) == ParseFrom(s, p, limit)
    decreases limit - p
  {
    hide Listing, Listed, RecLen, Ino, NameLen;
    if Header(s, p) {
      SameRecord(s, t, p, limit);
      var n := p + Stride(s, p);
      if !Stops(s, p, limit) {
        if n <= |s| {
          SuffixAgrees(s, t, p, n, |s|);
          SameTail(s, t, n, limit);
        }
      }
    }
  }

  // ---- renaming in place ----

  /** The record that renaming looks for, in the order in which it looks. */
  predicate Matches(s: seq<byte>, p: nat, name: seq<byte>) requires Header(s, p) {
    && Ino(s, p) != 0 && NameLen(s, p) == |name| && FileType(s, p) != 0xDE
    && p + 8 + |name| <= |s| && s[p + 8..p + 8 + |name|] == name
  }

  function Match(s: seq<byte>, p: nat, name: seq<byte>): (q: Option<nat>)
    ensures q.Some? ==> p <= q.value && Header(s, q.value) && Matches(s, q.value, name)
    decreases |s| - p
  {
    if !Header(s, p) || RecLen(s, p) == 0 then None
    else if Matches(s, p, name) then Some(p)
    else Match(s, p + RecLen(s, p), name)
  }

  method FindRecord(block: seq<byte>, name: seq<byte>) returns (q: Option<nat>)
    ensures q == Match(block, 0, name)
  {
    hide Ino, RecLen, NameLen, FileType;
    var pos := 0;
    while pos + 8 <= |block|
      invariant Match(block, 0, name) == Match(block, pos, name)
      decreases |block| - pos
    {
      var recLen := RecLen(block, pos);
      if recLen == 0 { break; }
      if Ino(block, pos) != 0 && NameLen(block, pos) == |name| && FileType(block, pos) != 0xDE
         && pos + 8 + NameLen(block, pos) <= |block|
      {
        if block[pos + 8..pos + 8 + NameLen(block, pos)] == name { return Some(pos); }
      }
      pos := pos + recLen;
    }
    return None;
  }

  /** The listing with the first entry of that name renamed. */
  function Renamed(es: seq<DirEntry>, name: seq<byte>, name': seq<byte>): seq<DirEntry> {
    if es == [] then []
    else if es[0].name == name then [es[0].(name := name')] + es[1..]
    else [es[0]] + Renamed(es[1..], name, name')
  }

  predicate HasName(es: seq<DirEntry>, name: seq<byte>) { exists k :: 0 <= k < |es| && es[k].name == name }

  lemma {:induction false} RenamedAppend(a: seq<DirEntry>, b: seq<DirEntry>, name: seq<byte>, name': seq<byte>)
    ensures Renamed(a + b, name, name')
            == if HasName(a, name) then Renamed(a, name, name') + b else a + Renamed(b, name, name')
  {
    if a == [] {
      assert a + b == b;
    } else {
      assert (a + b)[1..] == a[1..] + b;
      if a[0].name != name {
        RenamedAppend(a[1..], b, name, name');
        assert HasName(a, name) == HasName(a[1..], name) by {
          if HasName(a, name) { var k :| 0 <= k < |a| && a[k].name == name; assert a[1..][k - 1].name == name; }
          if HasName(a[1..], name) {
            var k :| 0 <= k < |a[1..]| && a[1..][k].name == name;
            assert a[k + 1].name == name;
          }
        }
      }
    }
  }

  /** A well-formed block has no match beyond its records. */
  lemma NoMatchAfter(s: seq<byte>, csum: bool, name: seq<byte>)
    requires BlockOk(s, csum)
    ensures Match(s, End(s, csum), name) == None
  {
    hide Ino, RecLen, NameLen, FileType, Chain;
    assert Match(s, |s|, name) == None;
    if csum {
      assert Match(s, |s| - 12, name) == Match(s, |s| - 12 + 12, name);
    }
  }

  /** Overwriting the name of a listed record. */
  lemma RenameRecord(s: seq<byte>, q: nat, end: nat, name: seq<byte>, name': seq<byte>)
    requires RecordOk(s, q, end) && end <= |s| && Matches(s, q, name) && |name'| == |name| > 0
    ensures var t := Put(s, q + 8, name');
            && RecordOk(t, q, end) && RecLen(t, q) == RecLen(s, q)
            && Listing(s, q) == [EntryAt(s, q)] && EntryAt(s, q).name == name
            && Listing(t, q) == [EntryAt(s, q).(name := name')]
  {
    var t := Put(s, q + 8, name');
    SameHeader(s, t, q);
    PutInside(s, q + 8, name');
    hide Ino, RecLen, FileType, Put, Align4;
  }

  /** From `p` on, the scan finds a record exactly when the name is listed, and overwriting what it
      finds renames the first entry of that name. */
  ghost predicate RenameHolds(s: seq<byte>, p: nat, end: nat, name: seq<byte>, name': seq<byte>)
    requires Chain(s, p, end) && |name'| == |name|
  {
    var q, es := Match(s, p, name), ListTo(s, p, end);
    && q.Some? == HasName(es, name)
    && (q.Some? ==>
          && q.value + 8 + |name| <= end
          && var t := Put(s, q.value + 8, name');
             Chain(t, p, end) && ListTo(t, p, end) == Renamed(es, name, name'))
  }

  /** Renaming finds a record exactly when the name is listed, and then renames its first entry only. */
  lemma {:induction false} RenameLists(s: seq<byte>, p: nat, csum: bool, name: seq<byte>, name': seq<byte>)
    requires BlockOk(s, csum) && p <= End(s, csum) && Chain(s, p, End(s, csum)) && |name'| == |name| > 0
    ensures RenameHolds(s, p, End(s, csum), name, name')
    decreases End(s, csum) - p
  {
    var end := End(s, csum);
    hide BlockOk, Ino, RecLen, NameLen, FileType, Align4, EntryAt;
    if p == end {
      NoMatchAfter(s, csum, name);
    } else if Matches(s, p, name) {
      RenameHere(s, p, end, name, name');
    } else {
      RenameLists(s, p + RecLen(s, p), csum, name, name');
      RenameLater(s, p, end, name, name');
    }
  }

  lemma RenameHere(s: seq<byte>, p: nat, end: nat, name: seq<byte>, name': seq<byte>)
    requires end <= |s| && Chain(s, p, end) && p < end && Matches(s, p, name) && |name'| == |name| > 0
    ensures RenameHolds(s, p, end, name, name')
  {
    hide *;
    ChainCons(s, p, end);
    MatchHere(s, p, end, name);
    var t, n := Put(s, p + 8, name'), p + RecLen(s, p);
    RecordWithin(s, p, end);
    RenameRecord(s, p, end, name, name');
    PutOutside(s, p + 8, name', n, end);
    ChainAgrees(s, t, n, end);
    ConsChain(t, p, end);
    HeadRenamed(EntryAt(s, p), ListTo(s, n, end), name, name');
    HoldsAt(s, p, end, name, name', p);
  }

  lemma HoldsAt(s: seq<byte>, p: nat, end: nat, name: seq<byte>, name': seq<byte>, q: nat)
    requires Chain(s, p, end) && |name'| == |name| && Match(s, p, name) == Some(q) && q + 8 + |name| <= end <= |s|
    requires HasName(ListTo(s, p, end), name)
    requires Chain(Put(s, q + 8, name'), p, end)
    requires ListTo(Put(s, q + 8, name'), p, end) == Renamed(ListTo(s, p, end), name, name')
    ensures RenameHolds(s, p, end, name, name')
  {
    hide Match, Put, Chain, ListTo, Renamed, HasName;
  }

  lemma MatchHere(s: seq<byte>, p: nat, end: nat, name: seq<byte>)
    requires RecordOk(s, p, end) && end <= |s| && Matches(s, p, name) && |name| > 0
    ensures Match(s, p, name) == Some(p) && p + 8 + |name| <= p + RecLen(s, p)
    ensures p + 8 + NameLen(s, p) <= |s| && p + 8 + |name| <= |s|
  {
    hide Ino, RecLen, NameLen, FileType, Align4;
  }

  lemma MatchSkips(s: seq<byte>, p: nat, end: nat, name: seq<byte>)
    requires RecordOk(s, p, end) && end <= |s| && !Matches(s, p, name) && |name| > 0
    ensures Match(s, p, name) == Match(s, p + RecLen(s, p), name)
    ensures forall k :: 0 <= k < |Listing(s, p)| ==> Listing(s, p)[k].name != name
  {
    hide Ino, RecLen, NameLen, FileType, Align4, Stride;
  }

  lemma HeadRenamed(e: DirEntry, rest: seq<DirEntry>, name: seq<byte>, name': seq<byte>)
    requires e.name == name
    ensures HasName([e] + rest, name) && Renamed([e] + rest, name, name') == [e.(name := name')] + rest
  {
    var es := [e] + rest;
    assert es[0] == e && es[1..] == rest;
  }

  lemma ChainCons(s: seq<byte>, p: nat, end: nat)
    requires Chain(s, p, end) && p < end
    ensures end <= |s| && Header(s, p) && RecordOk(s, p, end) && Chain(s, p + RecLen(s, p), end)
    ensures ListTo(s, p, end) == Listing(s, p) + ListTo(s, p + RecLen(s, p), end)
  {
    hide Ino, RecLen, NameLen, Needed, Listing;
  }

  lemma ConsChain(s: seq<byte>, p: nat, end: nat)
    requires end <= |s| && RecordOk(s, p, end) && Chain(s, p + RecLen(s, p), end)
    ensures Chain(s, p, end)
    ensures ListTo(s, p, end) == Listing(s, p) + ListTo(s, p + RecLen(s, p), end)
  {
    hide Ino, RecLen, NameLen, Needed, Listing;
  }

  lemma RenameLater(s: seq<byte>, p: nat, end: nat, name: seq<byte>, name': seq<byte>)
    requires end <= |s| && Chain(s, p, end) && p < end && !Matches(s, p, name) && |name'| == |name| > 0
    requires RenameHolds(s, p + RecLen(s, p), end, name, name')
    ensures RenameHolds(s, p, end, name, name')
  {
    hide Ino, NameLen, RecLen, FileType, Matches, Match, Chain, ListTo, Listing, RecordOk, Put, Renamed, HasName;
    ChainCons(s, p, end);
    var n := p + RecLen(s, p);
    var q := Match(s, n, name);
    MatchSkips(s, p, end, name);
    NameInTail(Listing(s, p), ListTo(s, n, end), name);
    RenamedAppend(Listing(s, p), ListTo(s, n, end), name, name');
    if q.Some? {
      PutLater(s, p, end, q.value + 8, name');
      HoldsAt(s, p, end, name, name', q.value);
    }
  }

  /** Overwriting bytes of later records leaves the first record alone. */
  lemma PutLater(s: seq<byte>, p: nat, end: nat, o: nat, d: seq<byte>)
    requires end <= |s| && RecordOk(s, p, end) && p + RecLen(s, p) <= o && o + |d| <= end
    requires var n, t := p + RecLen(s, p), Put(s, o, d); Chain(t, n, end)
    ensures var n, t := p + RecLen(s, p), Put(s, o, d);
            Chain(t, p, end) && ListTo(t, p, end) == Listing(s, p) + ListTo(t, n, end)
  {
    hide Chain, ListTo, Listing, Put, Ino, RecLen, NameLen;
    PutOutside(s, o, d, p, p + RecLen(s, p));
    RecordStays(s, Put(s, o, d), p, p + RecLen(s, p), end);
  }

  /** A record whose bytes are the same, before records that are still chained. */
  lemma RecordStays(s: seq<byte>, t: seq<byte>, p: nat, n: nat, end: nat)
    requires end <= |s| == |t| && RecordOk(s, p, end) && n == p + RecLen(s, p) <= |s| && s[p..n] == t[p..n]
             && Chain(t, n, end)
    ensures Chain(t, p, end) && ListTo(t, p, end) == Listing(s, p) + ListTo(t, n, end)
  {
    hide *;
    RecordWithin(s, p, end);
    RecordAgrees(s, t, p, n);
    RecordWithin(t, p, n);
    RecordOkWider(t, p, n, end);
    ConsChain(t, p, end);
  }

  lemma RecordWithin(s: seq<byte>, p: nat, end: nat)
    requires RecordOk(s, p, end)
    ensures RecordOk(s, p, p + RecLen(s, p)) && p + RecLen(s, p) <= end
  {
    hide Ino, RecLen, NameLen, Needed;
  }

  lemma RecordOkWider(s: seq<byte>, p: nat, end: nat, end': nat)
    requires RecordOk(s, p, end) && end <= end'
    ensures RecordOk(s, p, end')
  {
    hide Ino, RecLen, NameLen, Needed;
  }

  lemma NameInTail(a: seq<DirEntry>, b: seq<DirEntry>, name: seq<byte>)
    requires forall k :: 0 <= k < |a| ==> a[k].name != name
    ensures HasName(a + b, name) == HasName(b, name) && !HasName(a, name)
  {
    if HasName(b, name) {
      var k :| 0 <= k < |b| && b[k].name == name;
      assert (a + b)[|a| + k].name == name;
    }
  }

  // ---- the insertion code ----

  /** The scan for the last record of a block. */
  method FindLast(data: seq<byte>, end: nat) returns (last: nat)
    requires 0 < end <= |data| && Chain(data, 0, end)
    ensures last == Last(data, 0, end)
  {
    hide Ino, NameLen, Needed, RecLen;
    var pos := 0;
    last := 0;
    while pos < end
      invariant 0 <= pos < end && Chain(data, pos, end) && Last(data, pos, end) == Last(data, 0, end)
      decreases end - pos
    {
      last := pos;
      var next := pos + RecLen(data, pos);
      if next >= end { break; }
      pos := next;
    }
  }

  /** Writes the new record into the block: shrink the last record and append, or reuse it if it is empty. */
  method PatchRecord(block: seq<byte>, q: nat, end: nat, ino: u32, name: seq<byte>, fileType: byte)
    returns (t: seq<byte>)
    requires end <= |block| && HasRoom(block, q, end, name)
    ensures t == AddRecord(block, q, end, ino, name, fileType)
  {
    hide Ino, RecLen, NameLen, Needed, Put, Enc16, Enc32;
    var lastRecLen := RecLen(block, q);
    if Ino(block, q) != 0 {
      var lastActual := Needed(block, q);
      t := Put(block, q + 4, Enc16(lastActual));
      var n := q + lastActual;
      t := Put(t, n, Enc32(ino) + Enc16(lastRecLen - lastActual) + [|name| % 0x100, fileType] + name);
    } else {
      t := Put(block, q, Enc32(ino));
      t := Put(t, q + 6, [|name| % 0x100, fileType]);
      t := Put(t, q + 8, name);
      ReusePatched(block, q, ino, name, fileType);
    }
  }

  lemma Enc16Reread(s: seq<byte>, o: nat)
    requires o + 2 <= |s|
    ensures Enc16(Le16(s, o)) == s[o..o + 2]
  {
  }

  lemma ReusePatched(s: seq<byte>, q: nat, ino: u32, name: seq<byte>, fileType: byte)
    requires q + 8 + |name| <= |s|
    ensures Put(Put(Put(s, q, Enc32(ino)), q + 6, [|name| % 0x100, fileType]), q + 8, name)
         == Put(s, q, RecordHead(ino, RecLen(s, q), name, fileType) + name)
  {
    hide Enc32, Enc16, Le16;
    Enc16Reread(s, q + 4);
    var h := RecordHead(ino, RecLen(s, q), name, fileType);
    assert h[4] == s[q + 4..q + 6][0] && h[5] == s[q + 4..q + 6][1];
  }
}
