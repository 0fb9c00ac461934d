/** The ext4 driver: an open handle over the sectors of a card. */
module Ext4 {
  import opened Bytes
  import opened Bitmap
  import opened Directory
  import opened Disk
  import opened Inode
  import opened Extents
  import opened Volume
  import opened Frames
  import opened Slots
  import opened Metadata
  import opened Reads
  import opened Paths
  import opened Descs
  import opened Alloc
  import opened NewInode
  import opened Publish
  import opened Staging
  import opened Handles
  import opened Overwrite
  import opened Rename
  import opened Checksums
  import opened Opening
  import opened Accounting

  /** The fate of one transfer: done, lost on the way, or done and reported as failed. */
  datatype Fate = Fine | Lost | Unheard

  /** The link: in step; after a failed transfer, which may have left a part of its reply; or used after that. What a
      transfer gives then may be the reply to an earlier one, and a run is followed no further: the transfer fails. */
  datatype Link = InStep | Failed | Strayed

  function Worse(l: Link): Link { if l.InStep? then Failed else Strayed }

  /** Nothing was transferred after a failed transfer, which is the end of the operation. */
  predicate Orderly(before: Link, after: Link, ok: bool) { after == before || (!ok && after == Worse(before)) }

  class Ext4Fs {
    /** The sectors of the card behind the connection. */
    var card: seq<byte>
    /** What becomes of the coming transfers; when the script is empty none fails. */
    var faults: seq<Fate>
    var link: Link
    var start: nat
    var sb: Superblock
    var gds: seq<GroupDesc>
    /** The owner of every block in use. */
    ghost var roles: Roles
    /** The extent tree of every live inode. */
    ghost var trees: Trees

    function D(): Disk
      reads this`card, this`start, this`sb, this`gds
    {
      Disk(GeoOf(start, sb, gds), card)
    }

    function H(): Handle
      reads this`card, this`start, this`sb, this`gds
    {
      Handle(D(), sb, gds)
    }

    /** Descriptors and superblock pass their readers' tests. */
    ghost predicate MetaSealed()
      reads this`card, this`start, this`sb, this`gds
    {
      Sealed(H())
    }

    /** A later open would come to the same counts and the same places. */
    ghost predicate Reopens()
      reads this`card, this`start, this`sb, this`gds
    {
      Coherent(H())
    }

    /** The descriptors are narrow, and a later open would come to the same places, whatever the counts. */
    ghost predicate Refinds()
      reads this`card, this`start, this`sb, this`gds
    {
      !sb.is64bit && Kindred(H())
    }

    /** All counts are those of the bitmaps. */
    ghost predicate Exact()
      reads this`card, this`start, this`sb, this`gds
    {
      Conserved(H())
    }

    /** The descriptors carry the checksums of the bitmaps. */
    ghost predicate Summed()
      reads this`card, this`start, this`sb, this`gds
    {
      MapsSummed(H())
    }

    /** Live inodes and directory blocks pass their readers' tests. */
    ghost predicate Stamped()
      reads this`card, this`start, this`sb, this`gds, this`trees
    {
      Stamps(D(), trees)
    }

    /** The handle's geometry fits the card: all that reading and writing blocks takes. */
    ghost predicate Ready()
      reads this`card, this`start, this`sb, this`gds, this`roles
    {
      Fits(D()) && Layout(D().g, roles) && forall b :: b in roles ==> b < sb.blockCount
    }

    ghost predicate Valid()
      reads this`card, this`start, this`sb, this`gds, this`roles, this`trees
    {
      WellFormed(D(), roles, trees)
    }

    // ---- transfers ----

    /** No transfer fails. */
    ghost predicate Calm()
      reads this`faults, this`link
    {
      faults == [] && link.InStep?
    }

    /** The next transfer fails, or the one after it, and no other. */
    ghost predicate OneLost()
      reads this`faults, this`link
    {
      faults == [Lost] && link.InStep?
    }

    ghost predicate SecondLost()
      reads this`faults, this`link
    {
      faults == [Fine, Lost] && link.InStep?
    }

    /** The fourth transfer fails, and no other. */
    ghost predicate FourthLost()
      reads this`faults, this`link
    {
      faults == [Fine, Fine, Fine, Lost] && link.InStep?
    }

    method Transfer() returns (f: Fate)
      modifies this`faults, this`link
      ensures old(link).InStep? ==> f == if old(faults) == [] then Fine else old(faults)[0]
      ensures old(link).InStep? ==> faults == if old(faults) == [] then [] else old(faults)[1..]
      ensures !old(link).InStep? ==> f == Lost
      ensures link == if f.Fine? then old(link) else Worse(old(link))
    {
      if !link.InStep? {
        link := Strayed;
        return Lost;
      }
      if faults == [] { return Fine; }
      f := faults[0];
      faults := faults[1..];
      if !f.Fine? { link := Failed; }
    }

    method ReadSectors(lba: nat, count: nat) returns (r: Result<seq<byte>>)
      modifies this`faults, this`link
      ensures r.Ok? ==> r == SectorsAt(card, lba, count) && (count == 0 || old(link).InStep?)
      ensures old(Calm()) ==> faults == [] && r == SectorsAt(card, lba, count)
      ensures link == if r.Ok? then old(link) else Worse(old(link))
      ensures count > 0 && old(link).InStep? && old(faults) != [] ==>
                && faults == old(faults)[1..]
                && (r.Ok? <==> old(faults)[0].Fine? && SectorsAt(card, lba, count).Ok?)
    {
      if count == 0 { return Ok([]); }
      var f := Transfer();
      if !f.Fine? { return Err; }
      if (lba + count) * SECTOR > |card| {
        link := Failed;
        return Err;
      }
      return Ok(card[lba * SECTOR..(lba + count) * SECTOR]);
    }

    /** A write that is reported as failed has landed or not. */
    method WriteSectors(lba: nat, data: seq<byte>) returns (r: Result<()>)
      modifies this`card, this`faults, this`link
      ensures r.Ok? ==> lba * SECTOR + |data| <= |old(card)| && card == Put(old(card), lba * SECTOR, data)
      ensures r.Err? ==> card == old(card)
                         || (lba * SECTOR + |data| <= |old(card)| && card == Put(old(card), lba * SECTOR, data))
      ensures old(Calm()) ==> faults == [] && (r.Ok? <==> lba * SECTOR + |data| <= |card|)
      ensures link == if r.Ok? then old(link) else Worse(old(link))
    {
      var f := Transfer();
      if f.Lost? { return Err; }
      if lba * SECTOR + |data| > |card| {
        link := Failed;
        return Err;
      }
      card := Put(card, lba * SECTOR, data);
      if f.Unheard? { return Err; }
      return Ok(());
    }

    method ReadBlock(b: nat) returns (r: Result<seq<byte>>)
      requires Fits(D()) && b < sb.blockCount
      modifies this`faults, this`link
      ensures r.Ok? ==> r.value == Blk(D(), b) && |r.value| == sb.blockSize && old(link).InStep?
      ensures old(Calm()) ==> Calm() && r.Ok?
      ensures link == if r.Ok? then old(link) else Worse(old(link))
      ensures old(link).InStep? && old(faults) != [] ==>
                faults == old(faults)[1..] && (r.Ok? <==> old(faults)[0].Fine?)
    {
      hide Lba, Base, Fits, PlacesOf;
      LbaExact(D(), b);
      BlockLength(D());
      r := ReadSectors(Lba(D().g, b), sb.blockSize / SECTOR);
    }

    method WriteBlock(b: nat, x: seq<byte>) returns (r: Result<()>)
      requires Fits(D()) && b < sb.blockCount && |x| == sb.blockSize
      modifies this`card, this`faults, this`link
      ensures InRange(old(D()), b)
      ensures r.Ok? ==> D() == WithBlk(old(D()), b, x)
      ensures r.Err? ==> D() == old(D()) || D() == WithBlk(old(D()), b, x)
      ensures old(Calm()) ==> Calm() && r.Ok?
      ensures link == if r.Ok? then old(link) else Worse(old(link))
    {
      hide Lba, Base, Layout, PlacesOf, Put;
      LbaExact(D(), b);
      r := WriteSectors(Lba(D().g, b), x);
    }

    // ---- opening ----

    /** Reads the superblock and the descriptors. If the geometry so found fits the card, the handle then knows
        exactly what the card says. A descriptor size below 32, on which the program stops, is an error here. */
    method Open(partition: nat) returns (r: Result<()>)
      modifies this`start, this`sb, this`gds, this`faults, this`link
      ensures r.Ok? ==> start == partition && OpenedOn(card, partition) == Ok((sb, gds))
      ensures r.Ok? && Fits(D()) && TableReadable(D(), sb) ==> Coherent(H()) && |gds| == sb.numGroups
      ensures old(Calm()) ==> faults == [] && (r.Ok? <==> OpenedOn(card, partition).Ok?)
      ensures Orderly(old(link), link, r.Ok?)
    {
      hide PlacesOf, ParseSuper, Base, ReadDescs, TableReadable, Fits, Coherent, SectorsAt;
      var lba := (partition % 0x1_0000_0000 + 2) % 0x1_0000_0000;
      var data :- ReadSectors(lba, 2);
      var parsed :- ParseSuper(data);
      if parsed.descSize < 32 { return Err; }
      var gdBlock := if parsed.blockSize == 1024 then 2 else 1;
      var gdLba := (partition % 0x1_0000_0000 + gdBlock * parsed.blockSize / SECTOR % 0x1_0000_0000) % 0x1_0000_0000;
      var gdSectors := (parsed.numGroups * parsed.descSize + SECTOR - 1) / SECTOR;
      var table :- ReadSectors(gdLba, gdSectors % 0x1_0000);
      var descs := ReadDescTable(table, parsed.descSize, parsed.is64bit, parsed.numGroups);
      start, sb, gds := partition, parsed, descs;
      OpenedAt(H());
      r := Ok(());
    }

    // ---- inodes ----

    /** The address arithmetic of an inode's slot. */
    method Locate(ino: u32) returns (block: nat, offset: nat)
      requires ValidIno(D().g, ino)
      ensures block == SlotBlock(D().g, ino) && offset == SlotOffset(D().g, ino)
    {
      hide D, ValidIno, SlotBlock, SlotOffset;
      DiskGeometry();
      SlotAt(D().g, ino);
      PlaceAt((ino - 1) / sb.inodesPerGroup);
      var group := (ino - 1) / sb.inodesPerGroup;
      var index: nat := (ino - 1) % sb.inodesPerGroup;
      var inodeOffset := index * sb.inodeSize;
      block, offset := gds[group].inodeTable + inodeOffset / sb.blockSize, inodeOffset % sb.blockSize;
    }

    lemma SlotAt(g: Geo, ino: nat)
      requires ValidIno(g, ino)
      ensures 0 < g.inodesPerGroup && 0 < g.blockSize && 0 <= (ino - 1) / g.inodesPerGroup < |g.places|
      ensures 0 <= (ino - 1) % g.inodesPerGroup * g.inodeSize
      ensures var x := (ino - 1) % g.inodesPerGroup * g.inodeSize;
              && SlotBlock(g, ino) == g.places[(ino - 1) / g.inodesPerGroup].inodeTable + x / g.blockSize
              && SlotOffset(g, ino) == x % g.blockSize
    {
    }

    method ReadInode(ino: u32) returns (r: Result<Inode>)
      requires Ready() && 1 <= ino
      modifies this`faults, this`link
      ensures r.Ok? ==> ValidIno(D().g, ino) && r.value == InodeAt(D(), ino) && old(link).InStep?
      ensures old(Calm()) ==> Calm() && (r.Ok? <==> ValidIno(D().g, ino))
      ensures link == if r.Ok? || !ValidIno(D().g, ino) then old(link) else Worse(old(link))
      ensures old(link).InStep? && old(faults) != [] && ValidIno(D().g, ino) ==>
                faults == old(faults)[1..] && (r.Ok? <==> old(faults)[0].Fine?)
    {
      hide Layout, PlacesOf, ParseInode, Blk, SlotBlock, SlotOffset;
      LayoutSizes(D().g, roles);
      if (ino - 1) / sb.inodesPerGroup >= |gds| { return Err; }
      SlotRoom(D(), roles, ino);
      SlotInRange(D().g, roles, ino, sb.blockCount);
      var b, o := Locate(ino);
      var block :- ReadBlock(b);
      var end := Min(o + sb.inodeSize, |block|);
      return Ok(ParseInode(block[o..end], ino));
    }

    // ---- extents ----

    method ResolveIndices(indices: seq<ExtentIdx>, ghost kids: Kids) returns (r: Result<seq<Extent>>)
      requires Fits(D()) && KidsAt(D(), indices, kids)
      modifies this`faults, this`link
      ensures r.Ok? ==> r.value == FlattenKids(kids)
      ensures Orderly(old(link), link, r.Ok?)
      ensures old(Calm()) ==> Calm() && r.Ok?
      decreases Size(kids), 1
    {
      hide Fits, Blk, TreeAt, Flatten;
      var all: seq<Extent> := [];
      ghost var rest := kids;
      var k := 0;
      while k < |indices|
        invariant 0 <= k <= |indices| && KidsAt(D(), indices[k..], rest) && Size(rest) <= Size(kids)
        invariant all + FlattenKids(rest) == FlattenKids(kids)
        invariant old(Calm()) ==> Calm()
        invariant link == old(link)
      {
        assert indices[k..][1..] == indices[k + 1..];
        var extents :- ResolveChild(indices[k], rest.tree);
        assert (all + extents) + FlattenKids(rest.rest) == all + (extents + FlattenKids(rest.rest));
        all := all + extents;
        rest := rest.rest;
        k := k + 1;
      }
      return Ok(all);
    }

    /** One turn of the loop: a damaged child is skipped, an inner one is followed. */
    method ResolveChild(idx: ExtentIdx, ghost tree: Tree) returns (r: Result<seq<Extent>>)
      requires Fits(D()) && idx.child < sb.blockCount && TreeAt(D(), Blk(D(), idx.child), false, tree)
      modifies this`faults, this`link
      ensures r.Ok? ==> r.value == Flatten(tree)
      ensures Orderly(old(link), link, r.Ok?)
      ensures old(Calm()) ==> Calm() && r.Ok?
      decreases 1 + if tree.Inner? then Size(tree.kids) else 0, 0
    {
      hide Fits, Blk, ParseNode, KidsAt, TreeAt;
      TreeNode(D(), Blk(D(), idx.child), false, tree);
      var data :- ReadBlock(idx.child);
      var node := ParseExtentNode(data, false);
      match node.value
      case Leaves(extents) => return Ok(extents);
      case Indices(sub) => r := ResolveIndices(sub, tree.kids);
      case Empty => return Ok([]);
    }

    /** What one parsed root yields: nothing unless it has entries or children. */
    method FromRoot(node: Node, ghost tree: Tree) returns (found: bool, r: Result<seq<Extent>>)
      requires Fits(D()) && NodeIs(D(), node, tree)
      modifies this`faults, this`link
      ensures found == Fruitful(tree)
      ensures found && r.Ok? ==> r.value == Flatten(tree)
      ensures Orderly(old(link), link, found ==> r.Ok?)
      ensures !found ==> faults == old(faults)
      ensures old(Calm()) ==> Calm() && (found ==> r.Ok?)
    {
      hide Fits, KidsAt;
      match node
      case Leaves(extents) => return extents != [], Ok(extents);
      case Indices(indices) => r := ResolveIndices(indices, tree.kids); return true, r;
      case Empty => return false, Err;
    }

    /** What the disk holds for the inode's root right now; nothing if there is no such inode. */
    ghost predicate FreshTree(ino: u32, now: Tree)
      reads this`card, this`start, this`sb, this`gds
    {
      if ValidIno(D().g, ino) then TreeAt(D(), InodeAt(D(), ino).iBlock, false, now) else now == Blank
    }

    /** The link is used after a failed transfer only if the root has to be read again: then, and only then, one
        failure is enough. */
    method GetExtents(inode: Inode, ghost t: Tree, ghost now: Tree) returns (r: Result<seq<Extent>>)
      requires Ready() && 1 <= inode.ino && 12 <= |inode.iBlock|
      requires inode.HasExtents() ==> TreeAt(D(), inode.iBlock, true, t) && FreshTree(inode.ino, now)
      modifies this`faults, this`link
      ensures r.Ok? ==> inode.HasExtents()
      ensures r.Ok? ==> r.value == Flatten(t) || r.value == Flatten(Settled(inode.iBlock, t, now))
      ensures old(Calm()) ==>
                Calm() && (inode.HasExtents() ==> r == Ok(Flatten(Settled(inode.iBlock, t, now))))
      ensures old(link).Strayed? ==> link.Strayed?
      ensures Rooted(inode) ==> Orderly(old(link), link, r.Ok?)
      ensures old(OneLost()) && ValidIno(D().g, inode.ino) ==> (link.Strayed? <==> !Rooted(inode))
    {
      hide Ready, InodeAt, TreeAt, KidsAt, D, Magic, NodeBody;
      if !inode.HasExtents() { return Err; }
      ReadyFits();
      UnforcedTree(D(), inode.iBlock, t);
      TreeNode(D(), inode.iBlock, false, Unforced(inode.iBlock, t));
      var root := ParseExtentNode(inode.iBlock, false);
      var found;
      found, r := FromRoot(root.value, Unforced(inode.iBlock, t));
      RootedIs(D(), inode, Unforced(inode.iBlock, t));
      if found { return r; }
      found, r := Retry(inode.ino, now);
      if found { return r; }
      TreeNode(D(), inode.iBlock, true, t);
      var forced := ParseExtentNode(inode.iBlock, true);
      found, r := FromRoot(forced.value, t);
      if !found { return Ok([]); }
    }

    /** Up to three more reads of the inode, and three if its root stays empty; a failed one is not an error. */
    method Retry(ino: u32, ghost now: Tree) returns (found: bool, r: Result<seq<Extent>>)
      requires Ready() && 1 <= ino && FreshTree(ino, now)
      modifies this`faults, this`link
      ensures found ==> Fruitful(now) && (r.Ok? ==> r.value == Flatten(now))
      ensures old(Calm()) ==> Calm() && found == Fruitful(now) && (found ==> r.Ok?)
      ensures old(link).Strayed? ==> link.Strayed?
      ensures old(OneLost()) && ValidIno(D().g, ino) ==> link.Strayed? && !found
      ensures old(FourthLost()) && ValidIno(D().g, ino) && !Fruitful(now) ==> OneLost() && !found
    {
      hide Ready, ParseNode, InodeAt, TreeAt, KidsAt, Flatten;
      ReadyFits();
      found, r := false, Err;
      var retry := 0;
      while retry < 3
        invariant old(link).Strayed? ==> link.Strayed?
        invariant old(Calm()) ==> Calm() && (retry > 0 ==> !Fruitful(now))
        invariant retry == 0 ==> link == old(link) && faults == old(faults)
        invariant 0 < retry && old(OneLost()) && ValidIno(D().g, ino) ==> link == if retry == 1 then Failed else Strayed
        invariant retry <= 3 && (old(FourthLost()) && ValidIno(D().g, ino) && !Fruitful(now) ==>
                                   link.InStep? && faults == [Fine, Fine, Fine, Lost][retry..])
      {
        var reread := ReadInode(ino);
        if reread.Ok? {
          TreeNode(D(), reread.value.iBlock, false, now);
          var node := ParseExtentNode(reread.value.iBlock, false);
          found, r := FromRoot(node.value, now);
          if found { return; }
        }
        retry := retry + 1;
      }
    }

    /** An inode whose root is what the disk holds, with its finite tree and blocks inside the file system. */
    ghost predicate Readable(n: Inode, t: Tree)
      reads this`card, this`start, this`sb, this`gds
    {
      && 1 <= n.ino && 12 <= |n.iBlock|
      && (n.HasExtents() ==>
            && TreeAt(D(), n.iBlock, true, t) && FreshTree(n.ino, Unforced(n.iBlock, t))
            && forall b :: b in DataBlocks(t) ==> b < sb.blockCount)
    }

    method ExtentsOf(inode: Inode, ghost t: Tree) returns (r: Result<seq<Extent>>)
      requires Ready() && Readable(inode, t)
      modifies this`faults, this`link
      ensures r.Ok? ==> inode.HasExtents() && r.value == Flatten(t)
      ensures old(Calm()) ==> Calm() && (r.Ok? <==> inode.HasExtents())
      ensures old(link).Strayed? ==> link.Strayed?
      ensures Rooted(inode) ==> Orderly(old(link), link, r.Ok?)
      ensures old(OneLost()) && !Rooted(inode) && ValidIno(D().g, inode.ino) ==> link.Strayed?
    {
      hide Ready, FreshTree, TreeAt, Flatten;
      r := GetExtents(inode, t, Unforced(inode.iBlock, t));
    }

    // ---- file contents ----

    /** The inner loop: appends the blocks of one extent until the file is complete. */
    method AppendRun(e: Extent, start: seq<byte>, size: nat, ghost done: seq<nat>)
      returns (r: Result<(seq<byte>, bool)>)
      requires Fits(D()) && start == Concat(D(), done)
      requires forall b :: b in Run(e) ==> b < sb.blockCount
      modifies this`faults, this`link
      ensures r.Ok? && r.value.1 ==>
              var all := Concat(D(), done + Run(e));
              size <= |all| && r.value.0 == Take(all, size)
      ensures r.Ok? && !r.value.1 ==> r.value.0 == Concat(D(), done + Run(e))
      ensures Orderly(old(link), link, r.Ok?)
      ensures old(Calm()) ==> Calm() && r.Ok?
    {
      hide Fits, Concat, Blk, D, Run, Done, Take;
      var data := start;
      var i := 0;
      DoneEnds(done, e);
      while i < e.length
        invariant 0 <= i <= e.length && data == Concat(D(), Done(done, e, i))
        invariant old(Calm()) ==> Calm()
        invariant link == old(link)
      {
        DoneStep(D(), done, e, i);
        var block :- ReadBlock(e.physical + i);
        data := data + block;
        i := i + 1;
        if |data| >= size {
          DoneEnough(D(), done, e, i, size);
          return Ok((data[..size], true));
        }
      }
      return Ok((data, false));
    }

    method ReadFileData(inode: Inode, ghost t: Tree) returns (r: Result<seq<byte>>)
      requires Ready() && Readable(inode, t)
      modifies this`faults, this`link
      ensures r.Ok? ==> inode.HasExtents() && r.value == FileData(D(), inode.size, t)
      ensures old(Calm()) ==> Calm() && (r.Ok? <==> inode.HasExtents())
      ensures old(link).Strayed? ==> link.Strayed?
      ensures Rooted(inode) ==> Orderly(old(link), link, r.Ok?)
    {
      hide Concat, Blk, D, Run, Runs, Flatten, TreeAt, FreshTree, Ready, Fits, Rooted;
      var extents :- ExtentsOf(inode, t);
      assert Runs(extents) == DataBlocks(t);
      RunsNone(extents);
      var size := inode.size;
      var data: seq<byte> := [];
      ReadyFits();
      ConcatNone(D());
      var k := 0;
      while k < |extents|
        invariant 0 <= k <= |extents| && data == Concat(D(), Runs(extents[..k]))
        invariant old(link).Strayed? ==> link.Strayed?
        invariant old(Calm()) ==> Calm()
        invariant Rooted(inode) ==> link == old(link)
      {
        RunWithin(extents, k);
        RunsOne(extents, k);
        var part :- AppendRun(extents[k], data, size, Runs(extents[..k]));
        k := k + 1;
        if part.1 {
          RunsSplit(extents, k);
          TakeEnough(D(), Runs(extents[..k]), Runs(extents[k..]), size);
          return Ok(part.0);
        }
        data := part.0;
      }
      assert extents[..k] == extents;
      return Ok(Take(data, size));
    }

    // ---- directories ----

    method AppendListing(e: Extent, start: seq<DirEntry>, ghost done: seq<nat>) returns (r: Result<seq<DirEntry>>)
      requires Fits(D()) && start == Listings(D(), done)
      requires forall b :: b in Run(e) ==> b < sb.blockCount
      modifies this`faults, this`link
      ensures r.Ok? ==> r.value == Listings(D(), done + Run(e))
      ensures Orderly(old(link), link, r.Ok?)
      ensures old(Calm()) ==> Calm() && r.Ok?
    {
      hide Fits, Concat, Blk, D, Parse, Listings, Run, Done;
      var entries := start;
      var i := 0;
      DoneEnds(done, e);
      DiskGeometry();
      while i < e.length
        invariant 0 <= i <= e.length && entries == Listings(D(), Done(done, e, i))
        invariant old(Calm()) ==> Calm()
        invariant link == old(link)
      {
        DoneStep(D(), done, e, i);
        var block :- ReadBlock(e.physical + i);
        var found := ParseDirEntries(block, sb.blockSize);
        entries := entries + found;
        i := i + 1;
      }
      return Ok(entries);
    }

    method ReadDirEntries(inode: Inode, ghost t: Tree) returns (r: Result<seq<DirEntry>>)
      requires Ready() && Readable(inode, t)
      modifies this`faults, this`link
      ensures r.Ok? ==> inode.HasExtents() && r.value == Entries(D(), t)
      ensures old(Calm()) ==> Calm() && (r.Ok? <==> inode.HasExtents())
      ensures old(link).Strayed? ==> link.Strayed?
      ensures Rooted(inode) ==> Orderly(old(link), link, r.Ok?)
      ensures old(OneLost()) && !Rooted(inode) && ValidIno(D().g, inode.ino) ==> link.Strayed?
    {
      hide Concat, Blk, D, Run, Runs, Flatten, TreeAt, FreshTree, Ready, Fits, Rooted, Listings;
      var extents :- ExtentsOf(inode, t);
      assert Runs(extents) == DataBlocks(t);
      var entries: seq<DirEntry> := [];
      ReadyFits();
      RunsNone(extents);
      ListingsNone(D());
      var k := 0;
      while k < |extents|
        invariant 0 <= k <= |extents| && entries == Listings(D(), Runs(extents[..k]))
        invariant old(link).Strayed? ==> link.Strayed?
        invariant old(Calm()) ==> Calm()
        invariant Rooted(inode) ==> link == old(link)
        invariant old(OneLost()) && !Rooted(inode) && ValidIno(D().g, inode.ino) ==> link.Strayed?
      {
        RunWithin(extents, k);
        RunsOne(extents, k);
        entries :- AppendListing(extents[k], entries, Runs(extents[..k]));
        k := k + 1;
      }
      assert extents[..k] == extents;
      return Ok(entries);
    }

    lemma PlaceAt(group: nat)
      requires group < |gds|
      ensures D().g.places[group] == Places(gds[group].blockBitmap, gds[group].inodeBitmap, gds[group].inodeTable)
    {
    }

    lemma DiskGeometry()
      ensures D().g.blockSize == sb.blockSize && D().g.blockCount == sb.blockCount
      ensures |D().g.places| == |gds| && D().g.descSize == sb.descSize && D().g.inodeSize == sb.inodeSize
      ensures D().g.csum == sb.metadataCsum && D().g.seed == sb.csumSeed
      ensures D().g.inodesPerGroup == sb.inodesPerGroup
    {
    }

    lemma ListingsNone(d: Disk)
      ensures Listings(d, []) == []
    {
    }

    lemma ConcatNone(d: Disk)
      ensures Concat(d, []) == []
    {
    }

    // ---- allocation ----

    method WriteDesc(group: nat, bitmap: seq<byte>, inodes: bool) returns (r: Result<()>)
      requires Ready() && group < |gds| && group < 0x1_0000_0000
      modifies this`card, this`faults, this`link
      ensures DescFits(old(D()), group) && InRange(old(D()), DescBlock(D().g, group))
      ensures |NewDesc(old(D()), sb, gds, group, bitmap, inodes)| == sb.descSize
      ensures r.Ok? ==> D() == WithDesc(old(D()), group, NewDesc(old(D()), sb, gds, group, bitmap, inodes))
      ensures r.Err? ==>
              D() == old(D()) || D() == WithDesc(old(D()), group, NewDesc(old(D()), sb, gds, group, bitmap, inodes))
      ensures Orderly(old(link), link, r.Ok?)
      ensures old(Calm()) ==> Calm() && r.Ok?
    {
      hide Layout, PlacesOf, Blk, UpdateDesc, WithBlk, Put, BitmapChecksum;
      DescRoom(D(), roles, group);
      LayoutSizes(D().g, roles);
      var b, o := DescBlock(D().g, group), DescOffset(D().g, group);
      var block :- ReadBlock(b);
      var gd := UpdateDesc(block[o..o + sb.descSize], sb.csumSeed, group, sb.is64bit, sb.metadataCsum,
                           gds[group].freeBlocks, gds[group].freeInodes, BitmapChecksum(sb.csumSeed, bitmap), inodes);
      r := WriteBlock(b, Put(block, o, gd));
    }

    method WriteSuperCounts() returns (r: Result<()>)
      requires Fits(D())
      modifies this`card, this`faults, this`link
      ensures SuperBase(D().g) + 1024 <= |old(D()).card|
      ensures r.Ok? ==> D() == WithSuper(old(D()), NewSuper(old(D()), sb))
      ensures r.Err? ==> D() == old(D()) || D() == WithSuper(old(D()), NewSuper(old(D()), sb))
      ensures Orderly(old(link), link, r.Ok?)
      ensures old(Calm()) ==> Calm() && r.Ok?
    {
      hide PlacesOf, UpdateSuper, Put, Base;
      SuperRoom(D());
      var data :- ReadSectors(start + 2, 2);
      r := WriteSectors(start + 2, UpdateSuper(data, sb.is64bit, sb.metadataCsum, sb.freeBlocks, sb.freeInodes));
    }

    /** Records the handle's counts in a descriptor and the superblock. */
    method WriteCounts(group: nat, bitmap: seq<byte>, inodes: bool) returns (r: Result<()>)
      requires Ready() && group < |gds| && group < 0x1_0000_0000
      modifies this`card, this`faults, this`link
      ensures Ready() && Grown(old(D()), D(), roles) && MapsSame(old(D()), D())
      ensures PartlyRecorded(old(D()), D(), sb, gds, group, bitmap, inodes)
      ensures r.Ok? ==> DescBytes(D(), group) == NewDesc(old(D()), sb, gds, group, bitmap, inodes)
      ensures r.Ok? ==> SuperBytes(D()) == NewSuper(old(D()), sb)
      ensures Orderly(old(link), link, r.Ok?)
      ensures old(Calm()) ==> Calm() && r.Ok?
    {
      hide DescBytes, SuperBytes, Layout, Fits, UpdateSuper, NewDesc, WithDesc, WithSuper, Blk, Grown, MapsSame,
        PlacesOf, GeoOf, SuperBase;
      ghost var d0 := D();
      DiskGeometry();
      SameGrown(d0, roles);
      var desc := WriteDesc(group, bitmap, inodes);
      DescWritten(d0, roles, group, NewDesc(d0, sb, gds, group, bitmap, inodes));
      ghost var d1 := D();
      FitsKept(d0, d1);
      if desc.Err? { return Err; }
      r := WriteSuperCounts();
      SuperWritten(d1, roles, NewSuper(d1, sb));
      if D() != d1 {
        GrownTrans(d0, d1, D(), roles);
        MapsSameTrans(d0, d1, D());
      }
      FitsKept(d0, D());
    }

    /** Counts one allocation in the handle, then on the card. No count falls below zero. */
    method UpdateCounts(group: nat, bitmap: seq<byte>, inodes: bool) returns (r: Result<()>)
      requires Ready() && group < |gds| && group < 0x1_0000_0000
      modifies this`card, this`faults, this`link, this`sb, this`gds
      ensures Ready() && Grown(old(D()), D(), roles) && MapsSame(old(D()), D())
      ensures Tallied(old(H()), H(), group, inodes)
      ensures sb.freeInodes + (if inodes && old(sb).freeInodes > 0 then 1 else 0) == old(sb).freeInodes
      ensures sb.freeBlocks + (if !inodes && old(sb).freeBlocks > 0 then 1 else 0) == old(sb).freeBlocks
      ensures gds[group].freeInodes + (if inodes && old(gds)[group].freeInodes > 0 then 1 else 0)
              == old(gds)[group].freeInodes
      ensures gds[group].freeBlocks + (if !inodes && old(gds)[group].freeBlocks > 0 then 1 else 0)
              == old(gds)[group].freeBlocks
      ensures r.Ok? ==> Counted(old(H()), H(), group, bitmap, inodes)
      ensures old(MetaSealed()) ==> MetaSealed()
      ensures old(Refinds()) ==> Refinds()
      ensures Orderly(old(link), link, r.Ok?)
      ensures old(Calm()) ==> Calm() && r.Ok?
    {
      hide DescBytes, SuperBytes, Layout, Fits, NewDesc, Grown, MapsSame, PlacesOf, GeoOf, NewSuper, Sealed, Kindred;
      CountsKeepGeo(start, sb, gds, group, inodes);
      DiskGeometry();
      ghost var h := H();
      sb, gds := CountedSuper(sb, inodes), CountedDescs(gds, group, inodes);
      r := WriteCounts(group, bitmap, inodes);
      SealedThen(h, H(), group, bitmap, inodes);
      if !h.sb.is64bit { KindredThen(h, H(), group, bitmap, inodes); }
    }

    /** Writes a grown bitmap back and counts the allocation. */
    method Commit(b: nat, group: nat, bitmap: seq<byte>, inodes: bool) returns (r: Result<()>)
      requires Ready() && group < |gds| && group < 0x1_0000_0000
      requires b < sb.blockCount && |bitmap| == sb.blockSize && IsMap(roles, b) && BitsKept(Blk(D(), b), bitmap)
      modifies this`card, this`faults, this`link, this`sb, this`gds
      ensures Ready() && Grown(old(D()), D(), roles)
      ensures InRange(old(D()), b)
      ensures r.Ok? ==> MapsSame(WithBlk(old(D()), b, bitmap), D()) && Counted(old(H()), H(), group, bitmap, inodes)
      ensures r.Err? ==>
                H() == old(H())
                || (MapsSame(WithBlk(old(D()), b, bitmap), D()) && Halfway(old(H()), H(), group, inodes))
      ensures old(MetaSealed()) ==> MetaSealed()
      ensures old(Refinds()) ==> Refinds()
      ensures Orderly(old(link), link, r.Ok?)
      ensures old(Calm()) ==> Calm() && r.Ok?
    {
      hide Layout, Fits, Blk, Grown, PlacesOf, Bit, WithBlk, Counted, MapsSame, Sealed, Kindred, BitsKept, SameBut,
        DescsSame, Lba, Base;
      ghost var h := H();
      DiskGeometry();
      SameGrown(D(), roles);
      LbaExact(D(), b);
      var written := WriteBlock(b, bitmap);
      ghost var h1 := H();
      if written.Ok? || h1.d != h.d {
        WithBlkFrame(h.d, b, bitmap);
        SameButFrame(h.d, h1.d, b);
        MetaWrite(h.d, h1.d, roles, b);
        OffDescs(h.d, h1.d, roles, b);
        FitsKept(h.d, h1.d);
        CountedFrom(h, h1, h1, group, bitmap, inodes);
        SameGrown(h1.d, roles);
      }
      if written.Err? { return Err; }
      r := UpdateCounts(group, bitmap, inodes);
      GrownTrans(h.d, h1.d, D(), roles);
      CountedFrom(h, h1, H(), group, bitmap, inodes);
    }

    /** Looks for an inode in one group and takes the first eligible one. */
    method TryInode(group: nat) returns (r: Result<Option<u32>>)
      requires Ready() && group < |gds|
      modifies this`card, this`faults, this`link, this`sb, this`gds
      ensures Ready() && Grown(old(D()), D(), roles)
      ensures r.Ok? && r.value.Some? ==>
              TookInode(old(H()), H(), r.value.value) && Group(old(D()).g, r.value.value) == group
      ensures group < |D().g.places|
      ensures r.Ok? && r.value.None? ==>
                H() == old(H()) && NoneClear(InodeMap(D(), group), StartBit(group), D().g.inodesPerGroup)
      ensures r.Err? ==> StoppedInode(old(H()), H())
      ensures old(MetaSealed()) ==> MetaSealed()
      ensures old(Refinds()) ==> Refinds()
      ensures Orderly(old(link), link, r.Ok?)
      ensures old(Calm()) ==> Calm() && r.Ok?
    {
      hide Fits, Blk, Grown, PlacesOf, Bit, WithBlk, TookInode, Counted, MapsSame, Sealed, Kindred, OneMore, BitsKept,
        NoneClear, Halfway, SetBit, GroupPlaced, SlotPlaced, SuperBlock, InRange;
      ghost var h := H();
      DiskGeometry();
      PlaceAt(group);
      SameGrown(D(), roles);
      MapOwned(D().g, roles, group, sb.blockCount);
      GroupBound(D().g, group);
      var b := gds[group].inodeBitmap;
      var bitmap :- ReadBlock(b);
      var k := FindClear(bitmap, StartBit(group), sb.inodesPerGroup);
      if k.None? { return Ok(None); }
      var bitmap' := SetBit(bitmap, k.value);
      SetBitOneMore(bitmap, k.value);
      InodeNumberBound(D().g, group, k.value);
      var done := Commit(b, group, bitmap', true);
      GrownShape(h.d, D(), roles);
      if done.Err? {
        if H() != h { StopsInode(h, H(), roles, group, k.value); }
        return Err;
      }
      TakesInode(h, H(), roles, group, k.value);
      return Ok(Some(group * sb.inodesPerGroup + k.value + 1));
    }

    /** Looks for a block in one group and takes the first free one. */
    method TryBlock(group: nat) returns (r: Result<Option<nat>>)
      requires Ready() && group < |gds|
      modifies this`card, this`faults, this`link, this`sb, this`gds
      ensures Ready() && Grown(old(D()), D(), roles)
      ensures r.Ok? && r.value.Some? ==>
              TookBlock(old(H()), H(), r.value.value) && BlockGroup(old(D()).g, r.value.value) == group
      ensures group < |D().g.places|
      ensures r.Ok? && r.value.None? ==>
                H() == old(H()) && NoneClear(BlockMap(D(), group), 0, D().g.blocksPerGroup)
      ensures r.Err? ==> StoppedBlock(old(H()), H())
      ensures old(MetaSealed()) ==> MetaSealed()
      ensures old(Refinds()) ==> Refinds()
      ensures Orderly(old(link), link, r.Ok?)
      ensures old(Calm()) ==> Calm() && r.Ok?
    {
      hide Fits, Blk, Grown, PlacesOf, Bit, WithBlk, TookBlock, Counted, MapsSame, Sealed, Kindred, OneMore, BitsKept,
        NoneClear, Halfway, SetBit, GroupPlaced, SlotPlaced, SuperBlock, InRange;
      ghost var h := H();
      DiskGeometry();
      PlaceAt(group);
      SameGrown(D(), roles);
      MapOwned(D().g, roles, group, sb.blockCount);
      GroupBound(D().g, group);
      var b := gds[group].blockBitmap;
      var bitmap :- ReadBlock(b);
      var k := FindClear(bitmap, 0, sb.blocksPerGroup);
      if k.None? { return Ok(None); }
      var bitmap' := SetBit(bitmap, k.value);
      SetBitOneMore(bitmap, k.value);
      var done := Commit(b, group, bitmap', false);
      GrownShape(h.d, D(), roles);
      if done.Err? {
        if H() != h { StopsBlock(h, H(), roles, group, k.value); }
        return Err;
      }
      TakesBlock(h, H(), roles, group, k.value);
      return Ok(Some(group * sb.blocksPerGroup + k.value + (if sb.blockSize == 1024 then 1 else 0)));
    }

    /** Takes an inode from the preferred group or the next one, in turn, that has any. */
    method AllocInode(preferred: nat) returns (r: Result<u32>)
      requires Ready()
      modifies this`card, this`faults, this`link, this`sb, this`gds
      ensures Ready() && Grown(old(D()), D(), roles)
      ensures r.Ok? ==> TookInode(old(H()), H(), r.value) && !NoInodes(old(H()))
      ensures r.Ok? ==> FirstWithInode(old(H()), preferred, Group(old(D()).g, r.value))
      ensures r.Err? ==> StoppedInode(old(H()), H())
      ensures old(MetaSealed()) ==> MetaSealed()
      ensures old(Refinds()) ==> Refinds()
      ensures Orderly(old(link), link, r.Ok?)
      ensures old(Calm()) ==> Calm() && (r.Err? <==> NoInodes(old(H())))
    {
      hide Layout, Fits, Blk, Grown, PlacesOf, TookInode, Sealed, Kindred, D, NoInodes, Turn, NoneClear,
        HalfInode;
      ghost var h := H();
      SameGrown(D(), roles);
      HandleShape();
      var n := |gds|;
      var offset := 0;
      while offset < n
        invariant 0 <= offset <= n == |gds| && Ready() && H() == h
        invariant forall o :: 0 <= o < offset ==> NoInodeIn(h, Turn(preferred, o, n))
        invariant old(Calm()) ==> Calm()
        invariant link == old(link)
      {
        var group := Turn(preferred, offset, n);
        if gds[group].freeInodes != 0 {
          var found := TryInode(group);
          if found.Err? { return Err; }
          if found.value.Some? {
            InodeWasThere(h, H(), found.value.value);
            return Ok(found.value.value);
          }
        }
        offset := offset + 1;
      }
      NoInodesAtAll(h, preferred);
      return Err;
    }

    method AllocBlock(preferred: nat) returns (r: Result<nat>)
      requires Ready()
      modifies this`card, this`faults, this`link, this`sb, this`gds
      ensures Ready() && Grown(old(D()), D(), roles)
      ensures r.Ok? ==> TookBlock(old(H()), H(), r.value) && !NoBlocks(old(H()))
      ensures r.Ok? ==> FirstWithBlock(old(H()), preferred, BlockGroup(old(D()).g, r.value))
      ensures r.Err? ==> StoppedBlock(old(H()), H())
      ensures old(MetaSealed()) ==> MetaSealed()
      ensures old(Refinds()) ==> Refinds()
      ensures Orderly(old(link), link, r.Ok?)
      ensures old(Calm()) ==> Calm() && (r.Err? <==> NoBlocks(old(H())))
    {
      hide Layout, Fits, Blk, Grown, PlacesOf, TookBlock, Sealed, Kindred, D, NoBlocks, Turn, NoneClear,
        HalfBlock;
      ghost var h := H();
      SameGrown(D(), roles);
      HandleShape();
      var n := |gds|;
      var offset := 0;
      while offset < n
        invariant 0 <= offset <= n == |gds| && Ready() && H() == h
        invariant forall o :: 0 <= o < offset ==> NoBlockIn(h, Turn(preferred, o, n))
        invariant old(Calm()) ==> Calm()
        invariant link == old(link)
      {
        var group := Turn(preferred, offset, n);
        if gds[group].freeBlocks != 0 {
          var found := TryBlock(group);
          if found.Err? { return Err; }
          if found.value.Some? {
            BlockWasThere(h, H(), found.value.value);
            return Ok(found.value.value);
          }
        }
        offset := offset + 1;
      }
      NoBlocksAtAll(h, preferred);
      return Err;
    }

    lemma HandleShape()
      requires Ready()
      ensures |D().g.places| == |gds| && 1 <= |gds|
    {
      LayoutSizes(D().g, roles);
      hide Layout, Fits;
    }

    // ---- writing inodes ----

    method WriteInodeRaw(ino: u32, raw: seq<byte>) returns (r: Result<()>)
      requires Ready() && ValidIno(D().g, ino) && |raw| == sb.inodeSize
      modifies this`card, this`faults, this`link
      ensures SlotFits(old(D()), ino) && InRange(old(D()), SlotBlock(D().g, ino)) && 128 <= sb.inodeSize
      ensures var d' := WithSlot(old(D()), ino, SealInode(sb.metadataCsum, sb.csumSeed, ino, raw, sb.inodeSize));
              D() == d' || (r.Err? && D() == old(D()))
      ensures Orderly(old(link), link, r.Ok?)
      ensures old(Calm()) ==> Calm() && r.Ok?
    {
      hide Layout, PlacesOf, Blk, SlotBlock, SlotOffset, SealInode, Put, WithBlk;
      LayoutSizes(D().g, roles);
      SlotRoom(D(), roles, ino);
      SlotInRange(D().g, roles, ino, sb.blockCount);
      var sealed := SealInode(sb.metadataCsum, sb.csumSeed, ino, raw, sb.inodeSize);
      var b, o := Locate(ino);
      var block :- ReadBlock(b);
      r := WriteBlock(b, Put(block, o, sealed));
    }

    // ---- directory insertion ----

    /** Tries one directory block, given what was read of it, and writes it and the directory's inode back. */
    method InsertInto(n: Inode, b: nat, data: seq<byte>, child: u32, name: seq<byte>, now: u32)
      returns (found: bool, r: Result<()>)
      requires Ready() && ValidIno(D().g, n.ino) && |n.raw| == sb.inodeSize
      requires b < sb.blockCount && data == Blk(D(), b) && BlockOk(data, sb.metadataCsum) && |data| == sb.blockSize
      modifies this`card, this`faults, this`link
      ensures D().g == old(D()).g && Ready()
      ensures found <==> RoomIn(Blk(old(D()), b), D().g.csum, name)
      ensures !found ==> r.Ok? && D() == old(D())
      ensures found && r.Ok? ==> D() == AfterTouch(AfterInsert(old(D()), n, b, child, name), n, now)
      ensures found && r.Err? ==>
                || D() == old(D()) || D() == AfterInsert(old(D()), n, b, child, name)
                || D() == AfterTouch(AfterInsert(old(D()), n, b, child, name), n, now)
      ensures Orderly(old(link), link, r.Ok?)
      ensures old(Calm()) ==> Calm() && r.Ok?
    {
      hide Layout, PlacesOf, Blk, SealInode, AddRecord, Touched, SealDir, WithBlk, WithSlot, SlotBlock, SlotOffset,
        Chain, Ino, RecLen, NameLen, Needed, DirChecksum, Lba, Base, GeoOf;
      ghost var d := D();
      DiskGeometry();
      LbaExact(d, b);
      LayoutSizes(d.g, roles);
      var usable := End(data, sb.metadataCsum);
      var last := FindLast(data, usable);
      var actual := if Ino(data, last) != 0 then Needed(data, last) else 0;
      if RecLen(data, last) - actual < Align4(8 + |name|) { return false, Ok(()); }
      found := true;
      var reread := ReadBlock(b);
      if reread.Err? { return true, Err; }
      var block := PatchRecord(reread.value, last, usable, child, name, 1);
      block := SealDir(sb.metadataCsum, sb.csumSeed, n.ino, n.generation, block);
      var written := WriteBlock(b, block);
      if written.Err? { return true, Err; }
      FitsKept(d, D());
      r := WriteInodeRaw(n.ino, Touched(n.raw, now));
      FitsKept(d, D());
    }

    /** The inner loop over the blocks of one extent, the `first`-th of the directory on. */
    method InsertInRun(n: Inode, ghost t: Tree, e: Extent, data: seq<byte>, child: u32, name: seq<byte>, now: u32,
                       ghost first: nat)
      returns (found: bool, r: Result<()>, ghost at: nat)
      requires Ready() && ValidIno(D().g, n.ino) && |n.raw| == sb.inodeSize && DirView(D(), t, data)
      requires e.logical == first && Covers(DataBlocks(t), first, e)
      modifies this`card, this`faults, this`link
      ensures D().g == old(D()).g && Ready()
      ensures found ==> Inserted(old(D()), D(), n, t, at, child, name, now, r.Ok?)
      ensures found ==> first <= at && forall m :: first <= m < at ==> Crowded(old(D()), DataBlocks(t), m, name)
      ensures !found ==> r.Ok? && D() == old(D())
      ensures !found ==> forall m :: first <= m < first + e.length ==> Crowded(D(), DataBlocks(t), m, name)
      ensures Orderly(old(link), link, r.Ok?)
      ensures old(Calm()) ==> Calm() && r.Ok?
    {
      hide Layout, PlacesOf, Blk, DataBlocks, Concat, RoomIn, AfterInsert, AfterTouch, BlockOk, Fits, Covers, DirView;
      ghost var d := D();
      DiskGeometry();
      at := 0;
      found, r := false, Ok(());
      var i := 0;
      while i < e.length
        invariant 0 <= i <= e.length && D() == d && Ready()
        invariant forall m :: first <= m < first + i ==> Crowded(d, DataBlocks(t), m, name)
        invariant old(Calm()) ==> Calm()
        invariant link == old(link)
      {
        CoversAt(DataBlocks(t), first, e, i);
        var blockStart := (e.logical + i) * sb.blockSize;
        DirViewAt(d, t, data, first + i);
        if blockStart >= |data| { break; }
        found, r := InsertInto(n, e.physical + i, data[blockStart..blockStart + sb.blockSize], child, name, now);
        if found {
          at := first + i;
          return;
        }
        i := i + 1;
      }
      r := Ok(());
    }

    /** Adds an entry to a live directory: in the first block, in file order, whose last record has room. */
    method AddDirEntry(parent: u32, child: u32, name: seq<byte>, now: u32) returns (r: Result<()>, ghost at: nat)
      requires Valid() && parent in trees && InodeAt(D(), parent).IsDirectory()
      modifies this`card, this`faults, this`link
      ensures D().g == old(D()).g
      ensures r.Ok? ==> Added(old(D()), D(), trees, parent, at, child, name, now, true)
      ensures r.Ok? ==> DirTouched(old(D()), D(), parent, now)
      ensures r.Err? ==> D() == old(D()) || Added(old(D()), D(), trees, parent, at, child, name, now, false)
      ensures old(link).Strayed? ==> link.Strayed?
      ensures Rooted(InodeAt(old(D()), parent)) ==> Orderly(old(link), link, r.Ok?)
      ensures old(Calm()) ==> Calm() && (r.Ok? <==> RoomFor(old(D()), trees, parent, name))
    {
      hide Layout, PlacesOf, Blk, Runs, Concat, RoomIn, AfterInsert, AfterTouch, BlockOk, Fits, TreeAt, Flatten,
        InodeAt, WellFormed, Readable, ValidIno, Rooted, DirTouched;
      ghost var d := D();
      ghost var t := trees[parent];
      at := 0;
      ValidReady();
      LiveIno(parent);
      var n := ReadInode(parent);
      if n.Err? { return Err, 0; }
      LiveReadable(n.value);
      LiveDir(parent);
      var extents := ExtentsOf(n.value, t);
      if extents.Err? { return Err, 0; }
      var data := ReadFileData(n.value, t);
      if data.Err? { return Err, 0; }
      var es := extents.value;
      var k := 0;
      RunsNone(es);
      while k < |es|
        invariant 0 <= k <= |es| && D() == d && Ready()
        invariant forall m :: 0 <= m < |Runs(es[..k])| ==> Crowded(d, Runs(es), m, name)
        invariant old(link).Strayed? ==> link.Strayed?
        invariant old(Calm()) ==> Calm()
        invariant Rooted(InodeAt(d, parent)) ==> link == old(link)
      {
        RunsFrom(es, k);
        var found;
        found, r, at := InsertInRun(n.value, t, es[k], data.value, child, name, now, |Runs(es[..k])|);
        if found {
          if r.Ok? { ParentTouched(d, D(), roles, trees, parent, at, child, name, now); }
          return r, at;
        }
        k := k + 1;
      }
      assert es[..k] == es;
      NoRoomAtAll(d, t, name);
      return Err, 0;
    }

    // ---- creating a file ----

    lemma QuietValid(d: Disk)
      requires WellFormed(d, roles, trees) && Grown(d, D(), roles)
      ensures Valid() && SameFiles(d, D(), trees) && (Stamps(d, trees) ==> Stamped())
    {
      hide WellFormed, Grown, Quiet, Stamps, InodeAt;
      GrownQuiet(d, D(), roles);
      QuietWellFormed(d, D(), roles, trees);
      QuietStamps(d, D(), roles, trees);
    }

    /** Takes an inode, and a block if there is data. On failure what was taken stays taken, unseen. */
    method Allocate(group: nat, size: nat) returns (r: Result<(u32, Option<u32>)>)
      requires Valid()
      modifies this`card, this`faults, this`link, this`sb, this`gds
      ensures Valid() && D().g == old(D()).g && SameFiles(old(D()), D(), trees)
      ensures r.Ok? ==> r.value.0 !in trees && InodeUsed(D(), r.value.0) && size <= D().g.blockSize
      ensures r.Ok? ==> (r.value.1.Some? <==> size > 0) && FreshBlock(D(), roles, r.value.1)
      ensures r.Ok? ==> Nearest(old(H()), group, r.value.0, r.value.1)
      ensures old(MetaSealed()) ==> MetaSealed()
      ensures old(Refinds()) ==> Refinds()
      ensures old(Reopens()) && !old(sb).is64bit && r.Ok? ==> Reopens()
      ensures old(Exact()) && r.Ok? ==> Exact()
      ensures old(Summed()) && r.Ok? ==> Summed()
      ensures old(Stamped()) ==> Stamped()
      ensures Orderly(old(link), link, r.Ok?)
      ensures old(Calm()) ==> Calm()
      ensures old(Calm()) ==>
                (r.Ok? <==> CanAllocate(old(H()), size))
    {
      hide Sealed, Kindred, Conserved, MapsSummed, WellFormed, TookInode, TookBlock, NoInodes, NoBlocks, InodeUsed,
        Grown, SameFiles, PlacesOf, Ready, BlockUsed, Stamps, Coherent;
      ghost var h := H();
      ValidReady();
      DiskGeometry();
      var ino := AllocInode(group);
      QuietValid(h.d);
      GrownShape(h.d, D(), roles);
      if ino.Err? { return Err; }
      ghost var h1 := H();
      TookInodeFacts(h, h1, ino.value);
      TookInodeKeeps(h, h1, ino.value);
      TakenInodeDead(h.d, h1.d, roles, trees, ino.value);
      NoBlocksKept(h, h1, ino.value);
      if size == 0 { return Ok((ino.value, None)); }
      if size > sb.blockSize { return Err; }
      var b := AllocBlock(group);
      QuietValid(h1.d);
      GrownShape(h1.d, D(), roles);
      SameFilesTrans(h.d, h1.d, D(), trees);
      if b.Err? { return Err; }
      TookBlockFacts(h1, H(), b.value);
      TookBlockKeeps(h1, H(), b.value);
      BlockFresh(h1.d, D(), roles, trees, b.value);
      FirstBlockKept(h, h1, ino.value, group, BlockGroup(h1.d.g, b.value));
      InodeStillUsed(h1.d, D(), roles, ino.value);
      return Ok((ino.value, Some(b.value)));
    }

    /** Initialises the inode and writes the data, padded with zeros to a block. */
    method Stage(ino: u32, block: Option<u32>, data: seq<byte>, now: u32) returns (r: Result<()>)
      requires Valid() && ino !in trees && InodeUsed(D(), ino) && FreshBlock(D(), roles, block)
      requires (block.Some? <==> data != []) && |data| <= D().g.blockSize
      modifies this`card, this`faults, this`link
      ensures Valid() && D().g == old(D()).g && SameFiles(old(D()), D(), trees) && RecordsSame(old(D()), D())
      ensures r.Ok? ==> StagedFile(D(), roles, trees, ino, block, data, now) && StampOk(D(), ino)
      ensures old(Stamped()) ==> Stamped()
      ensures Orderly(old(link), link, r.Ok?)
      ensures old(Calm()) ==> Calm() && r.Ok?
    {
      hide WellFormed, InodeUsed, BlockUsed, SameFiles, PlacesOf, Ready, NewInodeRaw, StagedFile, SealInode,
        RecordsSame, IsNew, Fits, Layout, Marked, SlotFits, WithSlot, SlotBlock, Blk, WithBlk, InRange, Lba, Base,
        Stamps, StampOk, SlotsSame, InodeAt, ParseInode;
      ghost var d := D();
      ValidReady();
      DiskGeometry();
      WellFormedParts(d, roles, trees);
      SmallData(d, roles);
      UsedValid(d, ino);
      var raw := NewInodeRaw(D().g, ino, block, |data|, now);
      var written := WriteInodeRaw(ino, raw);
      SameFilesRefl(d, trees);
      RecordsSameRefl(d);
      ghost var d1 := D();
      if written.Ok? || d1 != d {
        InodeWritten(d, d1, roles, trees, ino, block, |data|, now);
        SlotStamps(d, roles, trees, ino, raw);
      }
      if written.Err? { return Err; }
      if block.Some? {
        var padded := data + Zeros(sb.blockSize - |data|);
        r := WriteBlock(block.value, padded);
        if r.Ok? || D() != d1 {
          DataWritten(d1, D(), roles, trees, ino, block, data, padded, now);
          SameFilesTrans(d, d1, D(), trees);
          WithBlkFrame(d1, block.value, padded);
          FreeStamps(d1, D(), roles, trees, ino, block.value);
          RecordsSameTrans(d, d1, D());
        }
      } else {
        NoDataWritten(d1, roles, trees, ino, block, data, now);
        r := Ok(());
      }
    }

    /** Stages the file and names it, from a handle that has only allocated since `before`. */
    method Fill(parent: u32, ino: u32, block: Option<u32>, name: seq<byte>, data: seq<byte>, now: u32,
                ghost before: Handle)
      returns (r: Result<u32>, ghost child: u32)
      requires Valid() && D().g == before.d.g && SameFiles(before.d, D(), trees)
      requires parent in trees && InodeAt(before.d, parent).IsDirectory()
      requires ino !in trees && InodeUsed(D(), ino) && FreshBlock(D(), roles, block)
      requires (block.Some? <==> data != []) && |data| <= D().g.blockSize
      modifies this`card, this`faults, this`link, this`roles, this`trees
      ensures Valid() && D().g == old(D()).g
      ensures r.Ok? ==> child == r.value && Created(before.d, D(), old(trees), trees, parent, child, name, data, now)
      ensures r.Ok? ==> TimesAre(InodeAt(D(), parent).raw, now)
      ensures child == ino && (r.Ok? ==> ino in trees && trees[ino] == FileTree(D().g.hasExtents, block))
      ensures r.Ok? || (trees == old(trees) && SameFiles(before.d, D(), trees))
              || Created(before.d, D(), old(trees), trees, parent, child, name, data, now)
      ensures old(link).Strayed? ==> link.Strayed?
      ensures Rooted(InodeAt(before.d, parent)) ==> Orderly(old(link), link, r.Ok?)
      ensures old(Calm()) ==> Calm() && (r.Ok? <==> RoomFor(before.d, old(trees), parent, name))
      ensures RecordsSame(old(D()), D())
      ensures old(Stamped()) ==> Stamped()
    {
      hide Ready, WellFormed, InodeAt, PlacesOf, RecordsSame, SameFiles, StagedFile, InodeUsed, FileTree, Created,
        FileRoles, RoomFor, Inserted, FreshBlock, OneMoreFile, NewFile, Added, Stamps, StampOk,
        Rooted, TimesAre, BesideTimes;
      child := ino;
      ghost var d := D();
      var staged := Stage(ino, block, data, now);
      SameFilesTrans(before.d, d, D(), trees);
      if staged.Err? { return Err, child; }
      ghost var d1 := D();
      StillDirectory(before.d, d1, trees, parent);
      RoomKept(before.d, d1, trees, parent, name);
      ghost var at;
      var added;
      added, at := AddDirEntry(parent, ino, name, now);
      if added.Ok? || D() != d1 {
        AddedNames(d1, D(), roles, trees, parent, at, ino, block, data, name, now, added.Ok?);
        AddedStamps(d1, D(), roles, trees, parent, at, ino, block, data, name, now, added.Ok?);
        RecordsSameTrans(d, d1, D());
        ThenCreated(before.d, d1, D(), trees, trees[ino as nat := FileTree(d1.g.hasExtents, block)], parent, ino, name,
                    data, now);
        roles := FileRoles(roles, d1.g.hasExtents, ino, block);
        trees := trees[ino as nat := FileTree(d1.g.hasExtents, block)];
      }
      if added.Err? { return Err, child; }
      return Ok(ino), child;
    }

    // ---- overwriting a file ----

    /** One turn of the loop: the `m`-th block of the file gets its piece of the data. */
    method OverwriteBlock(ghost before: Disk, ghost ino: u32, b: nat, data: seq<byte>, start: nat, ghost m: nat)
      returns (r: Result<nat>)
      requires Valid() && ino in trees && OwnDataOnly(before, D(), trees, ino) && !InodeAt(before, ino).IsDirectory()
      requires m < |DataBlocks(trees[ino])| && DataBlocks(trees[ino])[m] == b
      requires start == Min(m * D().g.blockSize, |data|) && Rewritten(D(), trees[ino], data, m)
      modifies this`card, this`faults, this`link
      ensures Valid() && OwnDataOnly(before, D(), trees, ino)
      ensures r.Ok? ==> r.value == Min((m + 1) * D().g.blockSize, |data|) && Rewritten(D(), trees[ino], data, m + 1)
      ensures Orderly(old(link), link, r.Ok?)
      ensures old(Calm()) ==> Calm() && r.Ok?
    {
      hide WellFormed, InodeAt, GeoOf, DataBlocks, Piece, OwnDataOnly, Blk, WithBlk, InRange, Rewritten, Put, Fits;
      ghost var d := D();
      OwnBlockReady(d, roles, trees, ino, m, b);
      BlockSizePositive(d);
      DiskGeometry();
      PieceFrom(data, sb.blockSize, m, start);
      var written := start;
      var block := Zeros(sb.blockSize);
      if written < |data| {
        var end := Min(written + sb.blockSize, |data|);
        block := Put(block, 0, data[written..end]);
        written := end;
      }
      var done := WriteBlock(b, block);
      if done.Ok? || D() != d { OwnBlockStep(before, d, D(), roles, trees, ino, data, m, b); }
      if done.Err? { return Err; }
      return Ok(written);
    }

    /** The inner loop over the blocks of one extent, the `first`-th of the file on. */
    method OverwriteRun(ghost before: Disk, ghost ino: u32, e: Extent, data: seq<byte>, start: nat, ghost first: nat)
      returns (r: Result<nat>)
      requires Valid() && ino in trees && OwnDataOnly(before, D(), trees, ino) && !InodeAt(before, ino).IsDirectory()
      requires Covers(DataBlocks(trees[ino]), first, e)
      requires start == Min(first * D().g.blockSize, |data|) && Rewritten(D(), trees[ino], data, first)
      modifies this`card, this`faults, this`link
      ensures Valid() && OwnDataOnly(before, D(), trees, ino)
      ensures r.Ok? ==> r.value == Min((first + e.length) * D().g.blockSize, |data|)
      ensures r.Ok? ==> Rewritten(D(), trees[ino], data, first + e.length)
      ensures Orderly(old(link), link, r.Ok?)
      ensures old(Calm()) ==> Calm() && r.Ok?
    {
      hide WellFormed, InodeAt, GeoOf, DataBlocks, Covers, OwnDataOnly, Rewritten;
      var written := start;
      var i := 0;
      while i < e.length
        invariant 0 <= i <= e.length && Valid() && OwnDataOnly(before, D(), trees, ino)
        invariant written == Min((first + i) * D().g.blockSize, |data|) && Rewritten(D(), trees[ino], data, first + i)
        invariant old(Calm()) ==> Calm()
        invariant link == old(link)
      {
        CoversAt(DataBlocks(trees[ino]), first, e, i);
        written :- OverwriteBlock(before, ino, e.physical + i, data, written, first + i);
        i := i + 1;
      }
      return Ok(written);
    }

    /** Rewrites the size in a live inode's slot, from what the caller knows of the inode. */
    method UpdateInodeSize(inode: Inode, size: u64) returns (r: Result<()>)
      requires Ready() && ValidIno(D().g, inode.ino) && SameInode(inode, InodeAt(D(), inode.ino))
      modifies this`card, this`faults, this`link
      ensures var n := InodeAt(old(D()), inode.ino);
              && SlotFits(old(D()), n.ino) && InRange(old(D()), SlotBlock(D().g, n.ino))
              && |n.raw| == D().g.inodeSize >= 128
              && |SizedSlot(old(D()), n, size)| == D().g.inodeSize
      ensures var d' := WithSlot(old(D()), inode.ino, SizedSlot(old(D()), InodeAt(old(D()), inode.ino), size));
              D() == d' || (r.Err? && D() == old(D()))
      ensures Orderly(old(link), link, r.Ok?)
      ensures old(Calm()) ==> Calm() && r.Ok?
    {
      hide Layout, GeoOf, Blk, SlotBlock, SlotOffset, SealInode, Put, WithBlk, ParseInode, Resized, InodeChecksum,
        SizedSlot, SealedWith, Fits, InRange;
      ghost var d := D();
      DiskGeometry();
      LayoutSizes(d.g, roles);
      SlotRoom(d, roles, inode.ino);
      SlotInRange(d.g, roles, inode.ino, sb.blockCount);
      RawParse(d, inode.ino);
      SizedIs(d, InodeAt(d, inode.ino), inode, size);
      SizedLength(d, InodeAt(d, inode.ino), size);
      var b, o := Locate(inode.ino);
      var block :- ReadBlock(b);
      var raw := Resized(block[o..o + sb.inodeSize], inode.mode / 0x1000 == 0x8, size);
      raw := SealedWith(sb.metadataCsum, sb.csumSeed, inode.ino, inode.generation, raw, sb.inodeSize);
      r := WriteBlock(b, Put(block, o, raw));
    }

    /** The loop over the extents of a file. */
    method OverwriteBlocks(ghost ino: u32, extents: seq<Extent>, data: seq<byte>) returns (r: Result<()>)
      requires Valid() && ino in trees && !InodeAt(D(), ino).IsDirectory() && extents == Flatten(trees[ino])
      modifies this`card, this`faults, this`link
      ensures Valid() && OwnDataOnly(old(D()), D(), trees, ino)
      ensures r.Ok? ==> Rewritten(D(), trees[ino], data, |DataBlocks(trees[ino])|)
      ensures Orderly(old(link), link, r.Ok?)
      ensures old(Calm()) ==> Calm() && r.Ok?
    {
      hide WellFormed, InodeAt, GeoOf, DataBlocks, Runs, OwnDataOnly, Rewritten, Covers, Flatten;
      ghost var d, t := D(), trees[ino];
      OwnDataOnlyRefl(d, trees, ino);
      AllRuns(t);
      RewrittenNone(d, t, data);
      RunsNone(extents);
      var written := 0;
      var k := 0;
      while k < |extents|
        invariant 0 <= k <= |extents| && Valid() && OwnDataOnly(d, D(), trees, ino)
        invariant written == Min(|Runs(extents[..k])| * D().g.blockSize, |data|)
        invariant Rewritten(D(), t, data, |Runs(extents[..k])|)
        invariant old(Calm()) ==> Calm()
        invariant link == old(link)
      {
        RunsFrom(extents, k);
        written :- OverwriteRun(d, ino, extents[k], data, written, |Runs(extents[..k])|);
        k := k + 1;
      }
      assert extents[..k] == extents;
      return Ok(());
    }

    /** Records the size of a file whose blocks hold the new data, if it differs. */
    method FinishOverwrite(inode: Inode, data: seq<byte>, ghost before: Handle) returns (r: Result<()>)
      requires Valid() && inode.ino in trees && SameInode(inode, InodeAt(before.d, inode.ino)) && inode.IsRegular()
      requires OwnDataOnly(before.d, D(), trees, inode.ino) && Holds(D(), trees[inode.ino], data)
               && |data| < 0x1_0000_0000_0000_0000
      modifies this`card, this`faults, this`link
      ensures Valid() && D().g == before.d.g && OthersSame(before.d, D(), trees, inode.ino)
      ensures r.Ok? ==> Overwritten(before.d, D(), trees, inode.ino, data)
      ensures r.Err? ==> D() == old(D()) || Overwritten(before.d, D(), trees, inode.ino, data)
      ensures RecordsSame(old(D()), D())
      ensures old(Stamped()) ==> Stamped()
      ensures Orderly(old(link), link, r.Ok?)
      ensures old(Calm()) ==> Calm() && r.Ok?
    {
      hide WellFormed, InodeAt, GeoOf, DataBlocks, OwnDataOnly, Ready, Readable, Overwritten, OthersSame, SizedSlot,
        WithSlot, SlotFits, SlotBlock, InRange, Holds, RecordsSame, SameBut, Stamps;
      ghost var d := D();
      OwnDataOnlyFacts(before.d, d, trees, inode.ino);
      RecordsSameRefl(d);
      ValidReady();
      LiveReadable(inode);
      if |data| != inode.size {
        r := UpdateInodeSize(inode, |data|);
        if r.Ok? || D() != d {
          SizeWritten(d, roles, trees, inode.ino, |data|);
          SizedStamps(d, roles, trees, inode.ino, |data|);
        }
      } else {
        r := Ok(());
      }
      if r.Ok? || D() != d {
        ThenResized(before.d, d, D(), trees, inode.ino, data);
        OverwrittenOthers(before.d, D(), trees, inode.ino, data);
      }
    }

    /** Replaces the contents of a live regular file, within its allocation. However it ends, the file system is
        well-formed and no other file differs; on success the file holds exactly the data, and zeros after it. All this
        unless the link was used after a failed transfer, which takes a root that has to be read again. */
    method OverwriteFileData(inode: Inode, data: seq<byte>) returns (r: Result<()>)
      requires Valid() && inode.ino in trees && SameInode(inode, InodeAt(D(), inode.ino)) && inode.IsRegular()
      requires |data| < 0x1_0000_0000_0000_0000
      modifies this`card, this`faults, this`link
      ensures Rooted(inode) ==> Orderly(old(link), link, r.Ok?)
      ensures old(OneLost()) ==> (link.Strayed? <==> !Rooted(inode))
      ensures !link.Strayed? ==> Valid() && D().g == old(D()).g && OthersSame(old(D()), D(), trees, inode.ino)
      ensures !link.Strayed? && r.Ok? ==> Overwritten(old(D()), D(), trees, inode.ino, data)
      ensures !link.Strayed? && r.Err? ==>
              || OwnDataOnly(old(D()), D(), trees, inode.ino)
              || Overwritten(old(D()), D(), trees, inode.ino, data)
      ensures !link.Strayed? && old(MetaSealed()) ==> MetaSealed()
      ensures !link.Strayed? && old(Refinds()) ==> Refinds()
      ensures !link.Strayed? && old(Reopens()) ==> Reopens()
      ensures !link.Strayed? && old(Stamped()) ==> Stamped()
      ensures old(Calm()) ==>
                Calm() && (r.Ok? <==>
                           inode.HasExtents() && |data| <= |DataBlocks(trees[inode.ino])| * D().g.blockSize)
    {
      hide WellFormed, InodeAt, GeoOf, DataBlocks, Runs, OwnDataOnly, Rewritten, Ready, Readable, Overwritten,
        OthersSame, Sealed, Coherent, Kindred, SizedSlot, WithSlot, SlotFits, SlotBlock, InRange, Holds, Flatten,
        Stamps, Rooted;
      ghost var h, t := H(), trees[inode.ino];
      OwnDataOnlyRefl(h.d, trees, inode.ino);
      DiskGeometry();
      OwnDataOnlyParts(h, h, trees, inode.ino);
      ValidReady();
      LiveReadable(inode);
      var extents :- ExtentsOf(inode, t);
      AllRuns(t);
      var total := TotalBlocks(extents);
      if |data| > total * sb.blockSize { return Err; }
      var done := OverwriteBlocks(inode.ino, extents, data);
      OwnDataOnlyParts(h, H(), trees, inode.ino);
      OwnDataStamps(h.d, D(), trees, inode.ino);
      if done.Err? { return Err; }
      AllRewritten(D(), t, data);
      ghost var h1 := H();
      r := FinishOverwrite(inode, data, h);
      ThenSealed(h, h1, H());
    }

    method TotalBlocks(extents: seq<Extent>) returns (total: nat)
      ensures total == |Runs(extents)|
    {
      hide Run;
      total := 0;
      var k := 0;
      while k < |extents|
        invariant 0 <= k <= |extents| && total == |Runs(extents[..k])|
      {
        RunsOne(extents, k);
        total := total + extents[k].length;
        k := k + 1;
      }
      assert extents[..k] == extents;
    }

    lemma BlockSizePositive(d: Disk)
      requires Fits(d)
      ensures 0 < d.g.blockSize
    {
    }

    // ---- renaming an entry ----

    /** Searches one directory block, and rewrites it if it has the name. */
    method RenameInto(n: Inode, ghost t: Tree, b: nat, name: seq<byte>, name': seq<byte>, ghost m: nat)
      returns (found: bool, r: Result<()>)
      requires Fits(D()) && b < sb.blockCount && m < |DataBlocks(t)| && DataBlocks(t)[m] == b && |name'| == |name|
      requires forall k :: 0 <= k < m ==> Unlisted(D(), t, k, name)
      modifies this`card, this`faults, this`link
      ensures !found && r.Ok? ==> D() == old(D()) && Unlisted(D(), t, m, name)
      ensures found && r.Ok? ==> RenamesAt(old(D()), D(), n, t, m, name, name')
      ensures found ==> !Unlisted(old(D()), t, m, name)
      ensures r.Err? ==> D() == old(D()) || RenamesAt(old(D()), D(), n, t, m, name, name')
      ensures Orderly(old(link), link, r.Ok?)
      ensures old(Calm()) ==> Calm() && r.Ok?
    {
      hide GeoOf, Blk, DataBlocks, Match, SealDir, WithBlk, Put, Lba, Base, SameBut, InRange;
      ghost var d := D();
      DiskGeometry();
      BlockLength(d);
      var block := ReadBlock(b);
      if block.Err? { return false, Err; }
      var q := FindRecord(block.value, name);
      if q.None? { return false, Ok(()); }
      found := true;
      MatchFits(block.value, 0, name);
      var block' := SealDir(sb.metadataCsum, sb.csumSeed, n.ino, n.generation, Put(block.value, q.value + 8, name'));
      r := WriteBlock(b, block');
      if r.Ok? || D() != d { WithBlkFrame(d, b, block'); }
    }

    lemma BlockLength(d: Disk)
      requires Fits(d)
      ensures 1024 <= d.g.blockSize
    {
    }

    /** The inner loop over the blocks of one extent, the `first`-th of the directory on. */
    method RenameInRun(n: Inode, ghost t: Tree, e: Extent, name: seq<byte>, name': seq<byte>, ghost first: nat)
      returns (found: bool, r: Result<()>, ghost at: nat)
      requires Fits(D()) && Covers(DataBlocks(t), first, e) && |name'| == |name|
      requires forall b :: b in DataBlocks(t) ==> b < sb.blockCount
      requires forall m :: 0 <= m < first ==> Unlisted(D(), t, m, name)
      modifies this`card, this`faults, this`link
      ensures !found && r.Ok? ==> D() == old(D()) && forall m :: 0 <= m < first + e.length ==> Unlisted(D(), t, m, name)
      ensures found && r.Ok? ==> RenamesAt(old(D()), D(), n, t, at, name, name')
      ensures found ==> at < |DataBlocks(t)| && !Unlisted(old(D()), t, at, name)
      ensures r.Err? ==> D() == old(D()) || RenamesAt(old(D()), D(), n, t, at, name, name')
      ensures Orderly(old(link), link, r.Ok?)
      ensures old(Calm()) ==> Calm() && r.Ok?
    {
      hide GeoOf, Blk, DataBlocks, Fits, Covers, RenamesAt, Unlisted;
      ghost var d := D();
      at := 0;
      found, r := false, Ok(());
      var i := 0;
      while i < e.length
        invariant 0 <= i <= e.length && D() == d && !found
        invariant forall m :: 0 <= m < first + i ==> Unlisted(d, t, m, name)
        invariant old(Calm()) ==> Calm()
        invariant link == old(link)
      {
        CoversAt(DataBlocks(t), first, e, i);
        assert DataBlocks(t)[first + i] in DataBlocks(t);
        found, r := RenameInto(n, t, e.physical + i, name, name', first + i);
        at := first + i;
        if found || r.Err? { return; }
        i := i + 1;
      }
      r := Ok(());
    }

    /** The loop over the extents of a directory. */
    method RenameInRuns(n: Inode, extents: seq<Extent>, name: seq<byte>, name': seq<byte>) returns (r: Result<()>)
      requires Valid() && n.ino in trees && n == InodeAt(D(), n.ino) && n.IsDirectory() && |name'| == |name|
      requires extents == Flatten(trees[n.ino])
      modifies this`card, this`faults, this`link
      ensures Valid() && D().g == old(D()).g
      ensures r.Ok? ==> EntryRenamed(old(D()), D(), trees, n.ino, name, name')
      ensures r.Err? ==> D() == old(D()) || EntryRenamed(old(D()), D(), trees, n.ino, name, name')
      ensures old(MetaSealed()) ==> MetaSealed()
      ensures old(Refinds()) ==> Refinds()
      ensures old(Reopens()) ==> Reopens()
      ensures old(Stamped()) ==> Stamped()
      ensures Orderly(old(link), link, r.Ok?)
      ensures old(Calm()) ==> Calm()
      ensures old(Calm()) && name != [] ==> (r.Ok? <==> HasName(Entries(old(D()), trees[n.ino]), name))
    {
      hide GeoOf, DataBlocks, InodeAt, WellFormed, Readable, ValidIno, Runs, Flatten, Entries, Unlisted, RenamesAt,
        HasName, Sealed, Coherent, Kindred, EntryRenamed, Ready, Fits, Renamed, Stamps;
      ghost var h, t, parent := H(), trees[n.ino], n.ino;
      DiskGeometry();
      ListedIn(h.d, roles, trees, parent, name);
      LiveBlocks(parent);
      AllRuns(t);
      ValidReady();
      ReadyFits();
      RunsNone(extents);
      var k := 0;
      while k < |extents|
        invariant 0 <= k <= |extents| && H() == h
        invariant forall m :: 0 <= m < |Runs(extents[..k])| ==> Unlisted(h.d, t, m, name)
        invariant old(Calm()) ==> Calm()
        invariant link == old(link)
      {
        RunsFrom(extents, k);
        var found;
        ghost var at;
        found, r, at := RenameInRun(n, t, extents[k], name, name', |Runs(extents[..k])|);
        if (found && r.Ok?) || D() != h.d {
          RenamedWellFormed(h.d, D(), roles, trees, parent, at, name, name');
          RenamedStamps(h.d, D(), roles, trees, parent, at, name, name');
          RenamedSeals(h, H(), trees, parent, name, name');
        }
        if found || r.Err? { return; }
        k := k + 1;
      }
      assert extents[..k] == extents;
      return Err;
    }

    /** Renames an entry of a live directory to a name of the same length. After a failure nothing has changed, or
        all of it has and only the answer was lost. All this unless the link was used after a failed transfer. */
    method RenameEntry(parent: u32, name: seq<byte>, name': seq<byte>) returns (r: Result<()>)
      requires Valid() && parent in trees && InodeAt(D(), parent).IsDirectory()
      modifies this`card, this`faults, this`link
      ensures Rooted(InodeAt(old(D()), parent)) ==> Orderly(old(link), link, r.Ok?)
      ensures old(SecondLost()) && |name'| == |name| ==> (link.Strayed? <==> !Rooted(InodeAt(old(D()), parent)))
      ensures !link.Strayed? ==> Valid() && D().g == old(D()).g
      ensures !link.Strayed? && r.Ok? ==> EntryRenamed(old(D()), D(), trees, parent, name, name')
      ensures !link.Strayed? && r.Err? ==>
              D() == old(D()) || EntryRenamed(old(D()), D(), trees, parent, name, name')
      ensures !link.Strayed? && old(MetaSealed()) ==> MetaSealed()
      ensures !link.Strayed? && old(Refinds()) ==> Refinds()
      ensures !link.Strayed? && old(Reopens()) ==> Reopens()
      ensures !link.Strayed? && old(Stamped()) ==> Stamped()
      ensures old(Calm()) ==> Calm()
      ensures old(Calm()) && name != [] ==>
                (r.Ok? <==> |name'| == |name| && HasName(old(Entries(D(), trees[parent])), name))
    {
      hide GeoOf, InodeAt, WellFormed, Readable, Runs, Flatten, Entries, HasName, Sealed, Coherent, Kindred,
        EntryRenamed, Ready, Stamps, Rooted, DataBlocks;
      ghost var h := H();
      if |name| != |name'| { return Err; }
      ValidReady();
      LiveIno(parent);
      var n :- ReadInode(parent);
      LiveReadable(n);
      var extents :- ExtentsOf(n, trees[parent]);
      r := RenameInRuns(n, extents, name, name');
    }

    lemma LiveBlocks(ino: u32)
      requires Valid() && ino in trees
      ensures forall b :: b in DataBlocks(trees[ino]) ==> b < sb.blockCount
    {
      assert Live(D(), roles, trees, ino) && Marked(D(), roles);
      LiveTree(D(), roles, trees, ino);
    }

    // ---- paths ----

    lemma ValidReady()
      requires Valid()
      ensures Ready()
    {
      hide Layout, Live, Fits, BlockUsed;
    }

    /** A live inode can be read through any copy that agrees with the disk. */
    lemma LiveReadable(n: Inode)
      requires Valid() && n.ino in trees && SameInode(n, InodeAt(D(), n.ino))
      ensures ValidIno(D().g, n.ino) && Readable(n, trees[n.ino])
      ensures n.IsDirectory() ==> n.HasExtents()
    {
      assert Live(D(), roles, trees, n.ino) && Marked(D(), roles);
      LiveTree(D(), roles, trees, n.ino);
    }

    /** Follows a path as long as the numbers it finds are those of live inodes. */
    method Lookup(path: seq<byte>) returns (r: Result<Inode>)
      requires Valid() && !Follow(D(), trees, Split(path)).OffTree?
      modifies this`faults, this`link
      ensures Steady(D(), trees, Split(path)) ==> Orderly(old(link), link, r.Ok?)
      ensures link.Strayed? ==> r.Err?
      ensures r.Ok? ==> Follow(D(), trees, Split(path)) == At(r.value.ino) && r.value.ino in trees
      ensures r.Ok? ==> r.value == InodeAt(D(), r.value.ino)
      ensures old(Calm()) ==> Calm() && (r.Ok? <==> Follow(D(), trees, Split(path)).At?)
      ensures old(SecondLost()) && Split(path) == [] ==> OneLost() && r.Ok?
    {
      hide Ready, D, WellFormed, Split, InodeAt, Readable, Entries, Find, Rooted, FollowFrom, SteadyFrom;
      var parts := Split(path);
      var ino: u32 := ROOT;
      ValidReady();
      RootLive();
      var inode :- ReadInode(ino);
      var k := 0;
      while k < |parts|
        invariant 0 <= k <= |parts| && Valid() && ino in trees && inode == InodeAt(D(), ino)
        invariant FollowFrom(D(), trees, ino, parts[k..]) == Follow(D(), trees, parts)
        invariant Steady(D(), trees, parts) ==> SteadyFrom(D(), trees, ino, parts[k..]) && link == old(link)
        invariant link.InStep?
        invariant old(Calm()) ==> Calm()
        invariant old(SecondLost()) && parts == [] ==> OneLost()
      {
        FollowPlain(D(), trees, ino, parts[k..]);
        if inode.HasExtents() { FollowNext(D(), trees, ino, parts, k); }
        LiveReadable(inode);
        var entries :- ReadDirEntries(inode, trees[ino]);
        var found := FindEntry(entries, parts[k]);
        if found.None? { return Err; }
        ino := found.value;
        LiveIno(ino);
        inode :- ReadInode(ino);
        k := k + 1;
      }
      assert parts[k..] == [];
      FollowEnds(D(), trees, ino);
      return Ok(inode);
    }

    method Ls(path: seq<byte>) returns (r: Result<seq<DirEntry>>)
      requires Valid() && !Follow(D(), trees, Split(path)).OffTree?
      modifies this`faults, this`link
      ensures SteadyAt(Split(path)) ==> Orderly(old(link), link, r.Ok?)
      ensures !link.Strayed? && r.Ok? ==>
                var w := Follow(D(), trees, Split(path));
                IsDirAt(D(), trees, w) && r.value == EntriesAt(D(), trees, w)
      ensures old(Calm()) ==> Calm() && (r.Ok? <==> IsDirAt(D(), trees, Follow(D(), trees, Split(path))))
    {
      hide Ready, WellFormed, Split, InodeAt, Readable, Entries, FollowFrom, SteadyFrom, Rooted;
      var inode :- Lookup(path);
      if !inode.IsDirectory() { return Err; }
      ValidReady();
      LiveReadable(inode);
      r := ReadDirEntries(inode, trees[inode.ino]);
    }

    method Cat(path: seq<byte>) returns (r: Result<seq<byte>>)
      requires Valid() && !Follow(D(), trees, Split(path)).OffTree?
      modifies this`faults, this`link
      ensures SteadyAt(Split(path)) ==> Orderly(old(link), link, r.Ok?)
      ensures !link.Strayed? && r.Ok? ==>
                var w := Follow(D(), trees, Split(path));
                IsFileAt(D(), trees, w) && r.value == ContentAt(D(), trees, w)
      ensures old(Calm()) ==> Calm() && (r.Ok? <==> IsFileAt(D(), trees, Follow(D(), trees, Split(path))))
    {
      hide Ready, WellFormed, Split, InodeAt, Readable, FileData, FollowFrom, SteadyFrom, Rooted;
      var inode :- Lookup(path);
      if !inode.IsRegular() { return Err; }
      ValidReady();
      LiveReadable(inode);
      r := ReadFileData(inode, trees[inode.ino]);
    }

    /** No root that is read on the way to the path's end, or there, has to be read again. */
    ghost predicate SteadyAt(parts: seq<seq<byte>>)
      reads this`card, this`start, this`sb, this`gds, this`trees
    {
      && Steady(D(), trees, parts)
      && (Follow(D(), trees, parts).At? ==> Rooted(InodeAt(D(), Follow(D(), trees, parts).ino)))
    }

    /** Finds the directory at the path, in which the name must not be listed. */
    method FindParent(path: seq<byte>, name: seq<byte>) returns (r: Result<Inode>)
      requires Valid() && !Follow(D(), trees, Split(path)).OffTree?
      modifies this`faults, this`link
      ensures SteadyAt(Split(path)) ==> Orderly(old(link), link, r.Ok?)
      ensures old(SecondLost()) && Split(path) == [] ==>
                (link.Strayed? <==> InodeAt(D(), ROOT).IsDirectory() && !Rooted(InodeAt(D(), ROOT)))
      ensures var w := Follow(D(), trees, Split(path));
              && (r.Ok? ==> IsDirAt(D(), trees, w) && w.ino == r.value.ino && r.value == InodeAt(D(), w.ino))
              && (r.Ok? ==> Find(EntriesAt(D(), trees, w), name).None?)
              && (old(Calm()) ==>
                    Calm() && (r.Ok? <==> IsDirAt(D(), trees, w) && Find(EntriesAt(D(), trees, w), name).None?))
    {
      hide Ready, WellFormed, Split, InodeAt, Readable, Entries, FollowFrom, SteadyFrom, Rooted, Find;
      RootLive();
      FollowNone(D(), trees);
      var parent :- Lookup(path);
      if !parent.IsDirectory() { return Err; }
      ValidReady();
      LiveReadable(parent);
      var entries :- ReadDirEntries(parent, trees[parent.ino]);
      var clash := FindEntry(entries, name);
      if clash.Some? { return Err; }
      return Ok(parent);
    }

    /** Takes an inode and a block near the directory, and makes a file of them that is listed in it. */
    method CreateIn(parent: u32, name: seq<byte>, data: seq<byte>, now: u32) returns (r: Result<u32>, ghost child: u32)
      requires Valid() && parent in trees && InodeAt(D(), parent).IsDirectory()
      modifies this`card, this`faults, this`link, this`sb, this`gds, this`roles, this`trees
      ensures Valid() && D().g == old(D()).g
      ensures r.Ok? ==>
                && child == r.value
                && CompletedIn(old(H()), D(), old(trees), trees, parent, child, name, data, now)
      ensures r.Ok? || (trees == old(trees) && SameFiles(old(D()), D(), trees))
              || Created(old(D()), D(), old(trees), trees, parent, child, name, data, now)
      ensures old(link).Strayed? ==> link.Strayed?
      ensures Rooted(InodeAt(old(D()), parent)) ==> Orderly(old(link), link, r.Ok?)
      ensures old(Calm()) ==> Calm()
      ensures old(Calm()) ==>
                (r.Ok? <==> RoomFor(old(D()), old(trees), parent, name) && CanAllocate(old(H()), |data|))
      ensures old(MetaSealed()) ==> MetaSealed()
      ensures old(Refinds()) ==> Refinds()
      ensures old(Reopens()) && !old(sb).is64bit && r.Ok? ==> Reopens()
      ensures old(Exact()) && r.Ok? ==> Exact()
      ensures old(Summed()) && r.Ok? ==> Summed()
      ensures old(Stamped()) ==> Stamped()
    {
      hide CompletedIn, Nearest, Ready, Conserved, MapsSummed, RecordsSame, WellFormed, InodeAt, Rooted, PlacesOf,
        Sealed, Kindred, Coherent, SameFiles, Created, InodeUsed, NoInodes, NoBlocks, RoomFor, FileTree, FreshBlock,
        Stamps, TimesAre;
      child := 0;
      ghost var h := H();
      SameFilesRefl(h.d, trees);
      LiveIno(parent);
      DiskGeometry();
      assert Group(h.d.g, parent) == (parent - 1) / sb.inodesPerGroup;
      var taken := Allocate((parent - 1) / sb.inodesPerGroup, |data|);
      if taken.Err? { return Err, child; }
      ghost var h1 := H();
      r, child := Fill(parent, taken.value.0, taken.value.1, name, data, now, h);
      if r.Ok? { ThenCompleted(h, D(), old(trees), trees, parent, child, taken.value.1, name, data, now); }
      SealedKept(h1, H());
      ConservedKept(h1, H());
      SummedKept(h1, H());
    }

    /** Creates a file of at most one block. However it ends, the file system is well-formed and every
        earlier file reads as before; the new file is either complete and named, or not visible at all. All this
        unless the link was used after a failed transfer, which takes a root that has to be read again. */
    method CreateFile(parentPath: seq<byte>, name: seq<byte>, data: seq<byte>, now: u32)
      returns (r: Result<u32>, ghost child: u32)
      requires Valid() && !Follow(D(), trees, Split(parentPath)).OffTree?
      modifies this`card, this`faults, this`link, this`sb, this`gds, this`roles, this`trees
      ensures old(SteadyAt(Split(parentPath))) ==> Orderly(old(link), link, r.Ok?)
      ensures old(SecondLost()) && Split(parentPath) == [] ==>
                (link.Strayed? <==> InodeAt(old(D()), ROOT).IsDirectory() && !Rooted(InodeAt(old(D()), ROOT)))
      ensures !link.Strayed? ==> Valid() && D().g == old(D()).g
      ensures !link.Strayed? && r.Ok? ==>
              && child == r.value
              && CompletedAt(old(H()), D(), old(trees), trees, Split(parentPath), child, name, data, now)
      ensures link.Strayed? || r.Ok? || (trees == old(trees) && SameFiles(old(D()), D(), trees))
              || CreatedAt(old(D()), D(), old(trees), trees, Split(parentPath), child, name, data, now)
      ensures old(Calm()) ==>
              Calm() && (r.Ok? <==> CanCreate(old(H()), old(trees), Split(parentPath), name, |data|))
      ensures !link.Strayed? && old(MetaSealed()) ==> MetaSealed()
      ensures !link.Strayed? && old(Refinds()) ==> Refinds()
      ensures !link.Strayed? && old(Reopens()) && !old(sb).is64bit && r.Ok? ==> Reopens()
      ensures !link.Strayed? && old(Exact()) && r.Ok? ==> Exact()
      ensures !link.Strayed? && old(Summed()) && r.Ok? ==> Summed()
      ensures !link.Strayed? && old(Stamped()) ==> Stamped()
    {
      hide CompletedIn, Ready, RecordsSame, WellFormed, Split, InodeAt, Readable, Entries, FollowFrom, SteadyFrom,
        Rooted, PlacesOf, SameFiles, Created, NoInodes, NoBlocks, RoomFor, Find, TimesAre;
      child := 0;
      SameFilesRefl(D(), trees);
      RootLive();
      FollowNone(D(), trees);
      var found := FindParent(parentPath, name);
      if found.Err? { return Err, child; }
      var parent := found.value;
      r, child := CreateIn(parent.ino, name, data, now);
    }

    lemma RootLive()
      requires Valid()
      ensures ROOT in trees && ValidIno(D().g, ROOT)
    {
      LiveIno(ROOT);
    }

    /** What the driver reads of a live directory. */
    lemma LiveDir(ino: u32)
      requires Valid() && ino in trees && InodeAt(D(), ino).IsDirectory()
      ensures var n, t := InodeAt(D(), ino), trees[ino];
              DirView(D(), t, FileData(D(), n.size, t)) && Dense(Flatten(t)) && |n.raw| == sb.inodeSize
    {
      hide D, InodeAt, Fits, DirView, FileData, DataBlocks, Layout, Marked, Live, Dense, Flatten;
      assert Live(D(), roles, trees, ino);
      LiveDirView(D(), roles, trees, ino);
      DiskGeometry();
    }

    lemma LiveIno(ino: u32)
      requires Valid() && ino in trees
      ensures 1 <= ino && ValidIno(D().g, ino)
    {
      assert Live(D(), roles, trees, ino);
    }

    lemma ReadyFits()
      requires Ready()
      ensures Fits(D())
    {
    }
  }
}
