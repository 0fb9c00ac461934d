/** What a link out of step can do to the driver: a run that ends with a file system that is not well-formed. */
module Misled {
  import opened Bytes
  import opened Bitmap
  import opened Disk
  import opened Inode
  import opened Volume
  import opened Handles
  import opened Sample
  import Device
  import HostLink

  /** A controller that refuses the first read and nothing else. */
  function RefusesOne(card: seq<byte>): Device.Dev {
    Device.Dev(card, [], [Device.Refuse(Device.STATUS_ERR_EMMC, 0)])
  }

  /** What the driver reads while it creates a file in the root directory whose magic is damaged, when the controller
      refuses the first of the three times that it reads the root's inode again: that inode's block thrice, the
      directory block, the bitmap of inodes. The second time fails, the third is right, and then come the inodes for
      the directory and the directory for the bitmap. With any free bit of that set, and written back as the bitmap,
      the root's inode is free. */
  lemma SampleMisled(m: byte, k: nat)
    requires m != SOUND && FIRST_INODE_BIT <= k < 16
    ensures WellFormed(SampleDisk(m), ROLES, TREES) && CanCreate(SampleHandle(m), TREES, [], [0x66], 0)
    ensures !Rooted(InodeAt(SampleDisk(m), 2)) && Lba(G, 5) == 10 && Lba(G, 7) == 14 && Lba(G, 4) == 8
    ensures var d := SampleDisk(m);
            var rs := HostLink.ReadsInTurn(RefusesOne(d.card), [], [10, 10, 10, 14, 8], 2);
            rs == [Err, Err, Ok(Blk(d, 5)), Ok(Blk(d, 5)), Ok(Blk(d, 7))]
    ensures var d := SampleDisk(m);
            && InRange(d, 4) && |Blk(d, 7)| == 1024
            && forall roles :: !WellFormed(WithBlk(d, 4, SetBit(Blk(d, 7), k)), roles, TREES)
  {
    hide SampleDisk, WellFormed, CanCreate, InodeAt, Blk, HostLink.ReadsInTurn, Rooted;
    SampleWellFormed(m);
    SampleCanCreate(m, [0x66], 0);
    SampleRooted(m);
    SampleBlock(m, 4);
    SampleBlock(m, 7);
    SampleReads(m);
    SampleUnmarked(m, k);
  }

  lemma SampleReads(m: byte)
    ensures var d := SampleDisk(m);
            var rs := HostLink.ReadsInTurn(RefusesOne(d.card), [], [10, 10, 10, 14, 8], 2);
            rs == [Err, Err, Ok(Blk(d, 5)), Ok(Blk(d, 5)), Ok(Blk(d, 7))]
  {
    hide SampleDisk, HostLink.ReadsInTurn, SampleByte;
    var d, lbas := SampleDisk(m), [10 as u32, 10, 10, 14, 8];
    var dev := RefusesOne(d.card);
    assert forall l :: l in lbas ==> l <= 14;
    HostLink.OneBehind(dev, lbas, 2);
    var rs := HostLink.ReadsInTurn(dev, [], lbas, 2);
    assert lbas[2..] == [10, 14, 8];
    assert Device.Sectors(dev, 10, 2) == Blk(d, 5) && Device.Sectors(dev, 14, 2) == Blk(d, 7);
    assert rs[2..][0] == rs[2] && rs[2..][1] == rs[3] && rs[2..][2] == rs[4];
  }
}
