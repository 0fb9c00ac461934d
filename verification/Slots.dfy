/** The inode table: slots are disjoint, and writing one is invisible to the others. */
module Slots {
  import opened Bytes
  import opened Disk
  import opened Volume
  import opened Frames

  lemma Multiple(k: nat, unit: nat, bs: nat)
    requires 0 < unit && 0 < bs && bs % unit == 0
    ensures k * unit % bs + unit <= bs
  {
    var m := bs / unit;
    var q := k * unit / bs;
    assert bs == m * unit;
    assert k * unit % bs == k * unit - q * bs == (k - q * m) * unit by {
      assert q * bs == q * m * unit;
    }
    var r := k - q * m;
    assert 0 <= r * unit < m * unit;
    Below(r, m, unit);
  }

  lemma Below(r: int, m: nat, unit: nat)
    requires 0 < unit && 0 <= r * unit < m * unit
    ensures 0 <= r && r * unit + unit <= m * unit
  {
    assert r < m by {
      assert r >= m ==> r * unit >= m * unit;
    }
    assert (r + 1) * unit <= m * unit;
  }

  lemma SameQuotient(a: nat, b: nat, bs: nat)
    requires 0 < bs && a / bs == b / bs
    ensures b % bs - a % bs == b - a
  {
    assert a == a / bs * bs + a % bs && b == b / bs * bs + b % bs;
  }

  lemma Successor(i: nat, j: nat, unit: nat)
    requires i < j
    ensures i * unit + unit <= j * unit
  {
    assert (i + 1) * unit <= j * unit;
  }

  /** Two different units that start in the same block do not overlap. */
  lemma UnitsApart(i: nat, j: nat, unit: nat, bs: nat)
    requires 0 < unit && 0 < bs && i < j && i * unit / bs == j * unit / bs
    ensures i * unit % bs + unit <= j * unit % bs
  {
    Successor(i, j, unit);
    SameQuotient(i * unit, j * unit, bs);
  }

  lemma SlotRoom(d: Disk, roles: Roles, ino: nat)
    requires Fits(d) && Layout(d.g, roles) && ValidIno(d.g, ino)
    requires forall b :: b in roles ==> b < d.g.blockCount
    ensures InRange(d, SlotBlock(d.g, ino)) && SlotFits(d, ino)
  {
    hide Blk, SlotBlock, TableIndex, GroupPlaced, Index;
    assert SlotPlaced(d.g, roles, ino);
    LbaExact(d, SlotBlock(d.g, ino));
    Multiple(Index(d.g, ino), d.g.inodeSize, d.g.blockSize);
  }

  lemma SameIno(g: Geo, i: nat, j: nat)
    requires ValidIno(g, i) && ValidIno(g, j) && Group(g, i) == Group(g, j) && Index(g, i) == Index(g, j)
    ensures i == j
  {
    var n := g.inodesPerGroup;
    assert i - 1 == (i - 1) / n * n + (i - 1) % n;
    assert j - 1 == (j - 1) / n * n + (j - 1) % n;
  }

  lemma SlotsApart(g: Geo, roles: Roles, i: nat, j: nat)
    requires Layout(g, roles) && ValidIno(g, i) && ValidIno(g, j) && i != j
    requires SlotBlock(g, i) == SlotBlock(g, j)
    ensures SlotOffset(g, i) + g.inodeSize <= SlotOffset(g, j) || SlotOffset(g, j) + g.inodeSize <= SlotOffset(g, i)
  {
    hide GroupPlaced, Index, Group;
    assert SlotPlaced(g, roles, i) && SlotPlaced(g, roles, j);
    if Index(g, i) == Index(g, j) { SameIno(g, i, j); }
    if Index(g, i) < Index(g, j) {
      UnitsApart(Index(g, i), Index(g, j), g.inodeSize, g.blockSize);
    } else {
      UnitsApart(Index(g, j), Index(g, i), g.inodeSize, g.blockSize);
    }
  }

  /** The disk with the slot of `ino` replaced. */
  function WithSlot(d: Disk, ino: nat, raw: seq<byte>): (d': Disk)
    requires SlotFits(d, ino) && InRange(d, SlotBlock(d.g, ino)) && |raw| == d.g.inodeSize
    ensures SameShape(d, d')
  {
    var b := SlotBlock(d.g, ino);
    WithBlk(d, b, Put(Blk(d, b), SlotOffset(d.g, ino), raw))
  }

  /** Reading back a slot just written, and every other slot in the same block or another. */
  lemma SlotPutGet(d: Disk, roles: Roles, ino: nat, raw: seq<byte>)
    requires Layout(d.g, roles) && SlotFits(d, ino) && InRange(d, SlotBlock(d.g, ino)) && |raw| == d.g.inodeSize
    ensures var d' := WithSlot(d, ino, raw);
            && SlotFits(d', ino) && Slot(d', ino) == raw
            && SameBut(d, d', {SlotBlock(d.g, ino)})
            && forall j :: ValidIno(d.g, j) && j != ino ==> Slot(d', j) == Slot(d, j)
  {
    hide Blk, SlotBlock, SlotOffset, InRange, Layout, Group, WithBlk, Put;
    var b := SlotBlock(d.g, ino);
    var x := Put(Blk(d, b), SlotOffset(d.g, ino), raw);
    var d' := WithSlot(d, ino, raw);
    WithBlkFrame(d, b, x);
    PutInside(Blk(d, b), SlotOffset(d.g, ino), raw);
    forall j | ValidIno(d.g, j) && j != ino ensures Slot(d', j) == Slot(d, j) {
      OtherSlot(d, roles, ino, raw, j);
    }
  }

  lemma OtherSlot(d: Disk, roles: Roles, ino: nat, raw: seq<byte>, j: nat)
    requires Layout(d.g, roles) && SlotFits(d, ino) && InRange(d, SlotBlock(d.g, ino)) && |raw| == d.g.inodeSize
    requires ValidIno(d.g, j) && j != ino
    ensures Slot(WithSlot(d, ino, raw), j) == Slot(d, j)
  {
    hide Blk, SlotBlock, SlotOffset, InRange, Layout, Group, WithBlk, Put;
    var b, c := SlotBlock(d.g, ino), SlotBlock(d.g, j);
    var x := Put(Blk(d, b), SlotOffset(d.g, ino), raw);
    WithBlkFrame(d, b, x);
    if c == b {
      SlotsApart(d.g, roles, ino, j);
      if SlotFits(d, j) {
        PutOutside(Blk(d, b), SlotOffset(d.g, ino), raw, SlotOffset(d.g, j), SlotOffset(d.g, j) + d.g.inodeSize);
      }
    }
  }
}
