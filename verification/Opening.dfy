/** Opening a file system: what a handle knows is what the card says. */
module Opening {
  import opened Bytes
  import opened Disk
  import opened Volume
  import opened Metadata
  import opened Descs
  import opened Handles

  // ---- opening ----

  /** Where the descriptor of a group starts on the card. */
  function DescBase(g: Geo, group: nat): nat { Base(g, DescStart(g)) + group * g.descSize }

  /** The descriptor table is contiguous. */
  lemma DescAt(d: Disk, group: nat)
    requires DescFits(d, group) && InRange(d, DescBlock(d.g, group))
    ensures DescBase(d.g, group) + d.g.descSize <= |d.card|
    ensures DescBytes(d, group) == d.card[DescBase(d.g, group)..DescBase(d.g, group) + d.g.descSize]
  {
    var x, bs := group * d.g.descSize, d.g.blockSize;
    var b, o := DescBlock(d.g, group), DescOffset(d.g, group);
    assert x == x / bs * bs + x % bs;
    assert Base(d.g, b) + o == DescBase(d.g, group) by {
      assert (DescStart(d.g) + x / bs) * bs == DescStart(d.g) * bs + x / bs * bs;
    }
    SliceOfSlice(d.card, Base(d.g, b), Base(d.g, b) + bs, o, o + d.g.descSize);
  }

  /** The descriptors of a partition as opening reads them: as many as the sectors read hold. */
  function ReadDescs(data: seq<byte>, descSize: nat, is64bit: bool, n: nat): (gds: seq<GroupDesc>)
    requires 32 <= descSize
    ensures |gds| <= n
    ensures forall j :: 0 <= j < |gds| ==> j * descSize + descSize <= |data|
  {
    if n == 0 then []
    else
      var most := ReadDescs(data, descSize, is64bit, n - 1);
      if |most| < n - 1 || (n - 1) * descSize + descSize > |data| then most
      else most + [ParseDesc(data[(n - 1) * descSize..(n - 1) * descSize + descSize], is64bit)]
  }

  lemma {:induction false} ReadDescsAt(data: seq<byte>, descSize: nat, is64bit: bool, n: nat, j: nat)
    requires 32 <= descSize && j < |ReadDescs(data, descSize, is64bit, n)|
    ensures ReadDescs(data, descSize, is64bit, n)[j] == ParseDesc(data[j * descSize..j * descSize + descSize], is64bit)
  {
    hide ParseDesc;
    if n > 0 && j < |ReadDescs(data, descSize, is64bit, n - 1)| { ReadDescsAt(data, descSize, is64bit, n - 1, j); }
  }

  lemma {:induction false} ReadDescsAll(data: seq<byte>, descSize: nat, is64bit: bool, n: nat)
    requires 32 <= descSize && n * descSize <= |data|
    ensures |ReadDescs(data, descSize, is64bit, n)| == n
  {
    hide ParseDesc;
    if n > 0 {
      assert (n - 1) * descSize + descSize == n * descSize;
      ReadDescsAll(data, descSize, is64bit, n - 1);
    }
  }

  /** The descriptor table is where the driver looks for it, and not longer than it reads. */
  ghost predicate TableReadable(d: Disk, sb: Superblock) {
    && 32 <= d.g.descSize && DescStart(d.g) < d.g.blockCount && d.g.blockSize % d.g.descSize == 0
    && sb.numGroups * d.g.descSize <= 0xFFFF * SECTOR
    && forall group :: 0 <= group < sb.numGroups ==> DescFits(d, group) && InRange(d, DescBlock(d.g, group))
  }

  /** What opening reads is what the handle's own view of the card holds. */
  lemma Opened(h: Handle, super: seq<byte>, table: seq<byte>, count: nat)
    requires Fits(h.d) && TableReadable(h.d, h.sb) && h.sb.numGroups * h.d.g.descSize <= count * SECTOR
    requires h.d.g.descSize == h.sb.descSize && |h.d.g.places| == |h.gds|
    requires Base(h.d.g, DescStart(h.d.g)) + count * SECTOR <= |h.d.card|
    requires SuperBytes(h.d) == super && ParseSuper(super) == Ok(h.sb)
    requires table == h.d.card[Base(h.d.g, DescStart(h.d.g))..Base(h.d.g, DescStart(h.d.g)) + count * SECTOR]
    requires h.gds == ReadDescs(table, h.sb.descSize, h.sb.is64bit, h.sb.numGroups)
    ensures Coherent(h) && |h.gds| == h.sb.numGroups
  {
    hide ParseSuper, ParseDesc, DescFits, Base, SuperBytes, InRange, Fits, ReadDescs, DescBytes;
    var n, size := h.sb.numGroups, h.sb.descSize;
    ReadDescsAll(table, size, h.sb.is64bit, n);
    forall j | 0 <= j < n ensures ParseDesc(DescBytes(h.d, j), h.sb.is64bit) == h.gds[j] {
      ReadDescsAt(table, size, h.sb.is64bit, n, j);
      DescAt(h.d, j);
      var b := Base(h.d.g, DescStart(h.d.g));
      MulNext(j, n, size);
      SliceOfSlice(h.d.card, b, b + count * SECTOR, j * size, j * size + size);
    }
  }

  /** The loop over the descriptors. */
  method ReadDescTable(data: seq<byte>, descSize: nat, is64bit: bool, n: nat) returns (gds: seq<GroupDesc>)
    requires 32 <= descSize
    ensures gds == ReadDescs(data, descSize, is64bit, n)
  {
    hide ParseDesc;
    gds := [];
    var i := 0;
    while i < n
      invariant 0 <= i <= n && |gds| == i && gds == ReadDescs(data, descSize, is64bit, i)
    {
      var offset := i * descSize;
      if offset + descSize > |data| {
        ReadDescsStop(data, descSize, is64bit, i, n);
        break;
      }
      gds := gds + [ParseDesc(data[offset..offset + descSize], is64bit)];
      i := i + 1;
    }
  }

  lemma {:induction false} ReadDescsStop(data: seq<byte>, descSize: nat, is64bit: bool, i: nat, n: nat)
    requires 32 <= descSize && i < n && i * descSize + descSize > |data|
    requires |ReadDescs(data, descSize, is64bit, i)| == i
    ensures ReadDescs(data, descSize, is64bit, n) == ReadDescs(data, descSize, is64bit, i)
  {
    hide ParseDesc;
    if n > i + 1 { ReadDescsStop(data, descSize, is64bit, i, n - 1); }
  }

  function SuperLba(partition: nat): nat { (partition % 0x1_0000_0000 + 2) % 0x1_0000_0000 }

  function TableSectors(sb: Superblock): nat { (sb.numGroups * sb.descSize + SECTOR - 1) / SECTOR }

  lemma TableSmall(d: Disk, sb: Superblock)
    requires TableReadable(d, sb) && d.g.descSize == sb.descSize
    ensures DescStart(d.g) < d.g.blockCount && TableSectors(sb) % 0x1_0000 == TableSectors(sb)
            && sb.numGroups * d.g.descSize <= TableSectors(sb) * SECTOR
  {
    hide DescFits, InRange, DescBlock, DescStart;
  }

  lemma SuperLbaIs(d: Disk)
    requires Fits(d)
    ensures SuperLba(d.g.start) * SECTOR == SuperBase(d.g)
  {
    SuperRoom(d);
  }

  /** What reading sectors of a card gives. */
  function SectorsAt(card: seq<byte>, lba: nat, count: nat): Result<seq<byte>> {
    if count == 0 then Ok([])
    else if (lba + count) * SECTOR > |card| then Err
    else Ok(card[lba * SECTOR..(lba + count) * SECTOR])
  }

  /** Where the driver looks for the descriptor table, in its 32-bit arithmetic. */
  function TableLba(partition: nat, blockSize: nat): nat {
    var gdBlock := if blockSize == 1024 then 2 else 1;
    (partition % 0x1_0000_0000 + gdBlock * blockSize / SECTOR % 0x1_0000_0000) % 0x1_0000_0000
  }

  /** What opening a partition finds, if anything. */
  function OpenedOn(card: seq<byte>, partition: nat): Result<(Superblock, seq<GroupDesc>)> {
    var super :- SectorsAt(card, SuperLba(partition), 2);
    var sb :- ParseSuper(super);
    if sb.descSize < 32 then Err
    else
      var table :- SectorsAt(card, TableLba(partition, sb.blockSize), TableSectors(sb) % 0x1_0000);
      Ok((sb, ReadDescs(table, sb.descSize, sb.is64bit, sb.numGroups)))
  }

  /** If the geometry that opening finds fits the card, the two reads, in the driver's 32-bit and 16-bit arithmetic,
      are of the right places, and the handle knows exactly what the card says. */
  lemma OpenedAt(h: Handle)
    requires OpenedOn(h.d.card, h.d.g.start) == Ok((h.sb, h.gds)) && h.d.g == GeoOf(h.d.g.start, h.sb, h.gds)
    ensures Fits(h.d) && TableReadable(h.d, h.sb) ==> Coherent(h) && |h.gds| == h.sb.numGroups
  {
    hide ParseSuper, Base, ReadDescs, Lba, Coherent, Fits, TableReadable, SuperLba, TableSectors, DescStart, TableLba,
        PlacesOf;
    if Fits(h.d) && TableReadable(h.d, h.sb) {
      SuperRoom(h.d);
      TableSmall(h.d, h.sb);
      LbaExact(h.d, DescStart(h.d.g));
      TableLbaIs(h.d.g);
      SuperLbaIs(h.d);
      var super := SectorsAt(h.d.card, SuperLba(h.d.g.start), 2).value;
      var table := SectorsAt(h.d.card, TableLba(h.d.g.start, h.sb.blockSize), TableSectors(h.sb)).value;
      NoSectors(h.d, TableSectors(h.sb));
      Opened(h, super, table, TableSectors(h.sb));
    }
  }

  lemma TableLbaIs(g: Geo)
    ensures TableLba(g.start, g.blockSize) == Lba(g, DescStart(g))
  {
  }

  lemma NoSectors(d: Disk, count: nat)
    requires Fits(d) && DescStart(d.g) < d.g.blockCount
    ensures Base(d.g, DescStart(d.g)) <= |d.card|
    ensures count == 0 ==>
              d.card[Base(d.g, DescStart(d.g))..Base(d.g, DescStart(d.g)) + count * SECTOR] == []
  {
    LbaExact(d, DescStart(d.g));
  }

  // ---- opening again ----

  lemma RoundUp(x: nat, whole: nat)
    requires x <= whole && whole % SECTOR == 0
    ensures (x + SECTOR - 1) / SECTOR * SECTOR <= whole
  {
  }

  /** The block in which the last entry of a table starts covers the table's end, if no entry straddles blocks. */
  lemma LastCovers(last: nat, size: nat, bs: nat)
    requires 0 < bs && last % bs + size <= bs
    ensures last + size <= (last / bs + 1) * bs
  {
    assert last == last / bs * bs + last % bs;
    assert (last / bs + 1) * bs == last / bs * bs + bs;
  }

  lemma BaseAfter(g: Geo, b: nat, k: nat)
    ensures Base(g, b + k) + g.blockSize == Base(g, b) + (k + 1) * g.blockSize
  {
    assert (b + k) * g.blockSize == b * g.blockSize + k * g.blockSize;
    assert (k + 1) * g.blockSize == k * g.blockSize + g.blockSize;
  }

  lemma EntryFits(d: Disk, sb: Superblock, group: nat)
    requires TableReadable(d, sb) && group < sb.numGroups
    ensures 0 < d.g.blockSize && group * d.g.descSize % d.g.blockSize + d.g.descSize <= d.g.blockSize
    ensures Base(d.g, DescStart(d.g) + group * d.g.descSize / d.g.blockSize) + d.g.blockSize <= |d.card|
  {
    hide Blk, Base, DescStart;
    assert DescFits(d, group) && InRange(d, DescBlock(d.g, group));
    BlkLength(d, DescBlock(d.g, group));
  }

  /** The table ends within a block of the card, `k` blocks behind its start. */
  lemma LastDesc(d: Disk, sb: Superblock) returns (k: nat)
    requires TableReadable(d, sb) && 1 <= sb.numGroups
    ensures sb.numGroups * d.g.descSize <= (k + 1) * d.g.blockSize
    ensures Base(d.g, DescStart(d.g) + k) + d.g.blockSize <= |d.card|
  {
    hide Base, DescStart, TableReadable;
    var group: nat := sb.numGroups - 1;
    var last: nat := group * d.g.descSize;
    assert (group + 1) * d.g.descSize == last + d.g.descSize;
    EntryFits(d, sb, group);
    k := last / d.g.blockSize;
    LastCovers(last, d.g.descSize, d.g.blockSize);
  }

  /** The sectors of the descriptor table are on the card. */
  lemma TableOnCard(d: Disk, sb: Superblock)
    requires Fits(d) && TableReadable(d, sb) && d.g.descSize == sb.descSize
    ensures Base(d.g, DescStart(d.g)) + TableSectors(sb) * SECTOR <= |d.card|
  {
    hide Base, DescStart, TableReadable;
    if sb.numGroups == 0 {
      TableSmall(d, sb);
      NoSectors(d, 0);
    } else {
      var k := LastDesc(d, sb);
      BaseAfter(d.g, DescStart(d.g), k);
      WholeSectors(k + 1, d.g.blockSize);
      RoundUp(sb.numGroups * d.g.descSize, (k + 1) * d.g.blockSize);
    }
  }

  lemma BlkLength(d: Disk, b: nat)
    requires InRange(d, b)
    ensures |Blk(d, b)| == d.g.blockSize
  {
  }

  /** Where the handle agrees with the card up to the counts, opening again succeeds and finds the same superblock,
      descriptors and geometry up to the counts; where it agrees altogether, it finds exactly what the handle has. */
  lemma OpensAgain(h: Handle)
    requires Fits(h.d) && TableReadable(h.d, h.sb) && |h.gds| == h.sb.numGroups && Kindred(h)
    requires h.d.g == GeoOf(h.d.g.start, h.sb, h.gds)
    ensures var o := OpenedOn(h.d.card, h.d.g.start);
            && o.Ok? && BareSuper(o.value.0) == BareSuper(h.sb) && |o.value.1| == |h.gds|
            && (forall j :: 0 <= j < |h.gds| ==> BareDesc(o.value.1[j]) == BareDesc(h.gds[j]))
            && GeoOf(h.d.g.start, o.value.0, o.value.1) == h.d.g
            && (Coherent(h) ==> o == Ok((h.sb, h.gds)))
  {
    hide ParseSuper, ParseDesc, Base, ReadDescs, Lba, Fits, SuperLba, TableSectors, DescStart, TableLba, DescFits,
      InRange, DescBlock, SuperBytes, DescBytes;
    var g, sb := h.d.g, h.sb;
    SuperRoom(h.d);
    SuperLbaIs(h.d);
    SuperIs(h.d);
    var found := ParseSuper(SuperBytes(h.d)).value;
    assert TableSectors(found) == TableSectors(sb) by { SameTable(found, sb); }
    TableSmall(h.d, sb);
    TableOnCard(h.d, sb);
    LbaExact(h.d, DescStart(g));
    TableLbaIs(g);
    NoSectors(h.d, TableSectors(sb));
    var b, count := Base(g, DescStart(g)), TableSectors(sb);
    var table := h.d.card[b..b + count * SECTOR];
    assert SectorsAt(h.d.card, TableLba(g.start, found.blockSize), count) == Ok(table);
    ReadDescsAll(table, sb.descSize, sb.is64bit, sb.numGroups);
    var gds := ReadDescs(table, sb.descSize, sb.is64bit, sb.numGroups);
    assert OpenedOn(h.d.card, g.start) == Ok((found, gds));
    forall j | 0 <= j < |gds| ensures gds[j] == ParseDesc(DescBytes(h.d, j), sb.is64bit) {
      EntryHeld(h, table, count, j);
    }
    assert PlacesOf(gds) == PlacesOf(h.gds);
    if Coherent(h) { assert gds == h.gds; }
  }

  /** Each entry of the table that opening reads is the descriptor that the handle's geometry finds. */
  lemma EntryHeld(h: Handle, table: seq<byte>, count: nat, j: nat)
    requires TableReadable(h.d, h.sb) && h.d.g.descSize == h.sb.descSize && j < h.sb.numGroups
    requires h.sb.numGroups * h.d.g.descSize <= count * SECTOR
    requires Base(h.d.g, DescStart(h.d.g)) + count * SECTOR <= |h.d.card|
    requires table == h.d.card[Base(h.d.g, DescStart(h.d.g))..Base(h.d.g, DescStart(h.d.g)) + count * SECTOR]
    requires j < |ReadDescs(table, h.sb.descSize, h.sb.is64bit, h.sb.numGroups)|
    ensures ReadDescs(table, h.sb.descSize, h.sb.is64bit, h.sb.numGroups)[j]
            == ParseDesc(DescBytes(h.d, j), h.sb.is64bit)
  {
    hide ParseDesc, Base, ReadDescs, DescStart, DescFits, InRange, DescBytes;
    var b, size := Base(h.d.g, DescStart(h.d.g)), h.sb.descSize;
    ReadDescsAt(table, size, h.sb.is64bit, h.sb.numGroups, j);
    DescAt(h.d, j);
    MulNext(j, h.sb.numGroups, size);
    SliceOfSlice(h.d.card, b, b + count * SECTOR, j * size, j * size + size);
  }

  lemma SameTable(a: Superblock, b: Superblock)
    requires BareSuper(a) == BareSuper(b)
    ensures TableSectors(a) == TableSectors(b)
  {
  }

  lemma SuperIs(d: Disk)
    requires SuperBase(d.g) + 1024 <= |d.card| && SuperLba(d.g.start) * SECTOR == SuperBase(d.g)
    ensures SectorsAt(d.card, SuperLba(d.g.start), 2) == Ok(SuperBytes(d))
  {
  }
}
