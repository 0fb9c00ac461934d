/** What creating a file means for every path. */
module CreateLaws {
  import opened Bytes
  import opened Directory
  import opened Disk
  import opened Extents
  import opened Volume
  import opened Frames
  import opened Paths
  import opened Publish
  import opened Staging
  import opened Handles

  lemma FindGrown(es: seq<DirEntry>, es': seq<DirEntry>, added: seq<DirEntry>, k: nat, part: seq<byte>)
    requires k <= |es| && Links(es') == Links(es[..k]) + added + Links(es[k..])
    ensures Find(es', part) ==
            if Find(es[..k], part).Some? then Find(es[..k], part)
            else if Find(added, part).Some? then Find(added, part)
            else Find(es[k..], part)
    ensures Find(es, part) == if Find(es[..k], part).Some? then Find(es[..k], part) else Find(es[k..], part)
  {
    hide Links, Find;
    var a, b := es[..k], es[k..];
    assert es == a + b;
    FindLinks(es', part);
    FindAppend(Links(a) + added, Links(b), part);
    FindAppend(Links(a), added, part);
    FindAppend(a, b, part);
    FindLinks(a, part);
    FindLinks(b, part);
  }

  lemma FindNew(child: u32, name: seq<byte>, part: seq<byte>)
    requires child != 0
    ensures Find(NewLinks(child, name, 1), part)
         == if 0 < |name| % 0x100 && part == name[..|name| % 0x100] then Some(child) else None
  {
  }

  /** Names of 1 to 255 bytes, and only those, are listed as given: the length is stored in one byte unchecked. */
  predicate Storable(name: seq<byte>) { 1 <= |name| <= 0xFF }

  /** In a directory that did not list it, the new name is found afterwards if and only if it is storable. */
  lemma NameFound(es: seq<DirEntry>, es': seq<DirEntry>, child: u32, name: seq<byte>)
    requires ListingGrew(es, es', NewLinks(child, name, 1)) && child != 0 && Find(es, name).None?
    ensures Find(es', name) == Some(child) <==> Storable(name)
    ensures !Storable(name) ==> Find(es', name).None?
  {
    hide Find, Links, NewLinks, HasName;
    var k :| 0 <= k <= |es| && Links(es') == Links(es[..k]) + NewLinks(child, name, 1) + Links(es[k..]);
    FindGrown(es, es', NewLinks(child, name, 1), k, name);
    FindNew(child, name, name);
  }

  /** 257 times the letter `a`. */
  function LongName(): seq<byte> { seq(0x101, _ => 0x61) }

  /** A name that is too long is listed as something else. */
  lemma LongNameLost(child: u32)
    requires child != 0
    ensures Find(NewLinks(child, LongName(), 1), LongName()) == None
            && Find(NewLinks(child, LongName(), 1), [0x61]) == Some(child)
  {
    hide Find, NewLinks;
    FindNew(child, LongName(), LongName());
    FindNew(child, LongName(), [0x61]);
    assert LongName()[..1] == [0x61];
  }

  /** Every other name means what it meant. */
  lemma OtherNames(es: seq<DirEntry>, es': seq<DirEntry>, child: u32, name: seq<byte>, part: seq<byte>)
    requires ListingGrew(es, es', NewLinks(child, name, 1)) && child != 0 && Find(es, name).None? && Storable(name)
    ensures Find(es', part) == if part == name then Some(child) else Find(es, part)
  {
    hide Find, Links, NewLinks, HasName;
    var k :| 0 <= k <= |es| && Links(es') == Links(es[..k]) + NewLinks(child, name, 1) + Links(es[k..]);
    FindGrown(es, es', NewLinks(child, name, 1), k, part);
    FindNew(child, name, part);
    assert name[..|name|] == name;
  }

  // ---- walks ----

  /** Walks in the file system with one more file, in terms of walks in the old one. */
  ghost predicate Rerouted(d: Disk, trees: Trees, ino: u32, parts: seq<seq<byte>>, w: Walk, w': Walk, parent: u32,
                           child: u32, name: seq<byte>)
  {
    || w' == w
    || (w == Missing
        && exists k ::
          && 0 <= k < |parts| && WalkFrom(d, trees, ino, parts[..k]) == At(parent) && parts[k] == name
          && w' == if k + 1 == |parts| then At(child) else OffTree)
  }

  /** What one step from a live inode leads to, before and after. */
  lemma StepLaw(d: Disk, d': Disk, trees: Trees, trees': Trees, parent: u32, child: u32, name: seq<byte>, ino: u32,
                part: seq<byte>)
    requires OneMoreFile(d, d', trees, trees', parent, child, name) && child != 0 && Storable(name)
    requires Find(Entries(d, trees[parent]), name).None? && ino in trees
    ensures ino in trees' && InodeAt(d', ino).IsDirectory() == InodeAt(d, ino).IsDirectory()
    ensures InodeAt(d', ino).HasExtents() == InodeAt(d, ino).HasExtents()
    ensures Find(Entries(d', trees'[ino]), part)
         == if ino == parent && part == name then Some(child) else Find(Entries(d, trees[ino]), part)
  {
    hide Find, Entries, InodeAt, ListingGrew, NewLinks, Concat, DataBlocks, SameBlocks;
    if ino == parent {
      OtherNames(Entries(d, trees[parent]), Entries(d', trees[parent]), child, name, part);
    } else {
      assert SameFile(d, d', ino, trees[ino]);
    }
  }

  /** Every walk ends where it did, except that paths to the new name lead to the new file. */
  lemma {:induction false} WalkLaw(d: Disk, d': Disk, roles: Roles, trees: Trees, trees': Trees, parent: u32,
                                   child: u32, name: seq<byte>, ino: u32, parts: seq<seq<byte>>)
    requires WellFormed(d, roles, trees) && OneMoreFile(d, d', trees, trees', parent, child, name) && child != 0
             && Storable(name)
    requires Find(Entries(d, trees[parent]), name).None? && ino in trees
    ensures Rerouted(d, trees, ino, parts, WalkFrom(d, trees, ino, parts), WalkFrom(d', trees', ino, parts), parent,
                     child, name)
    decreases |parts|
  {
    hide WellFormed, Find, Entries, InodeAt, OneMoreFile, Rerouted;
    if parts == [] {
      SameWalk(d, trees, ino, parts, At(ino), parent, child, name);
    } else {
      StepLaw(d, d', trees, trees', parent, child, name, ino, parts[0]);
      if !InodeAt(d, ino).IsDirectory() {
        SameWalk(d, trees, ino, parts, OffTree, parent, child, name);
      } else if ino == parent && parts[0] == name {
        NewWalk(d, d', trees, trees', ino, parts, parent, child, name);
      } else if Find(Entries(d, trees[ino]), parts[0]).None? {
        SameWalk(d, trees, ino, parts, Missing, parent, child, name);
      } else {
        var next := Find(Entries(d, trees[ino]), parts[0]).value;
        StepLive(d, roles, trees, ino, parts[0]);
        WalkLaw(d, d', roles, trees, trees', parent, child, name, next, parts[1..]);
        LaterWalk(d, trees, ino, next, parts, WalkFrom(d, trees, next, parts[1..]),
                  WalkFrom(d', trees', next, parts[1..]), parent, child, name);
      }
    }
  }

  lemma SameWalk(d: Disk, trees: Trees, ino: u32, parts: seq<seq<byte>>, w: Walk, parent: u32, child: u32,
                 name: seq<byte>)
    ensures Rerouted(d, trees, ino, parts, w, w, parent, child, name)
  {
    hide WalkFrom;
  }

  /** The step to the new name. */
  lemma NewWalk(d: Disk, d': Disk, trees: Trees, trees': Trees, ino: u32, parts: seq<seq<byte>>, parent: u32,
                child: u32, name: seq<byte>)
    requires OneMoreFile(d, d', trees, trees', parent, child, name)
    requires parts != [] && ino == parent && parts[0] == name && InodeAt(d, ino).IsDirectory()
             && InodeAt(d', ino).IsDirectory()
    requires ino in trees && Find(Entries(d, trees[ino]), name).None?
    requires ino in trees' && Find(Entries(d', trees'[ino]), name) == Some(child)
    ensures Rerouted(d, trees, ino, parts, WalkFrom(d, trees, ino, parts), WalkFrom(d', trees', ino, parts), parent,
                     child, name)
  {
    hide Find, Entries, InodeAt, SameFile, ListingGrew;
    assert parts[..0] == [];
    assert WalkFrom(d, trees, ino, parts[..0]) == At(parent);
    assert WalkFrom(d, trees, ino, parts) == Missing;
    assert WalkFrom(d', trees', ino, parts) == WalkFrom(d', trees', child, parts[1..]);
    assert WalkFrom(d', trees', child, parts[1..]) == if 0 + 1 == |parts| then At(child) else OffTree;
  }

  lemma LaterWalk(d: Disk, trees: Trees, ino: u32, next: u32, parts: seq<seq<byte>>, w: Walk, w': Walk, parent: u32,
                  child: u32, name: seq<byte>)
    requires parts != [] && ino in trees && InodeAt(d, ino).IsDirectory()
             && Find(Entries(d, trees[ino]), parts[0]) == Some(next)
    requires Rerouted(d, trees, next, parts[1..], w, w', parent, child, name)
    ensures Rerouted(d, trees, ino, parts, w, w', parent, child, name)
  {
    hide Find, Entries, InodeAt;
    if w' != w {
      var rest := parts[1..];
      var k :| 0 <= k < |rest| && WalkFrom(d, trees, next, rest[..k]) == At(parent) && rest[k] == name
               && w' == if k + 1 == |rest| then At(child) else OffTree;
      assert parts[..k + 1][1..] == rest[..k];
      assert WalkFrom(d, trees, ino, parts[..k + 1]) == At(parent);
      assert parts[k + 1] == name;
    }
  }

  /** Every path to the directory, with the new name appended, leads to the new file. */
  lemma {:induction false} NewPath(d: Disk, d': Disk, roles: Roles, trees: Trees, trees': Trees, parent: u32,
                                   child: u32, name: seq<byte>, ino: u32, parts: seq<seq<byte>>)
    requires WellFormed(d, roles, trees) && OneMoreFile(d, d', trees, trees', parent, child, name) && child != 0
             && Storable(name)
    requires Find(Entries(d, trees[parent]), name).None? && ino in trees
    requires WalkFrom(d, trees, ino, parts) == At(parent) && InodeAt(d, parent).IsDirectory()
    ensures WalkFrom(d', trees', ino, parts + [name]) == At(child)
    decreases |parts|
  {
    hide WellFormed, Find, Entries, InodeAt, OneMoreFile;
    var all := parts + [name];
    StepLaw(d, d', trees, trees', parent, child, name, ino, all[0]);
    if parts == [] {
      assert all[1..] == [];
    } else {
      var next := Find(Entries(d, trees[ino]), parts[0]).value;
      StepLive(d, roles, trees, ino, parts[0]);
      NewPath(d, d', roles, trees, trees', parent, child, name, next, parts[1..]);
      assert all[1..] == parts[1..] + [name];
    }
  }

  /** What the driver finds, it finds again. */
  lemma {:induction false} FollowKept(d: Disk, d': Disk, trees: Trees, trees': Trees, parent: u32, child: u32,
                                      name: seq<byte>, ino: u32, parts: seq<seq<byte>>)
    requires OneMoreFile(d, d', trees, trees', parent, child, name) && child != 0 && Storable(name)
    requires Find(Entries(d, trees[parent]), name).None? && FollowFrom(d, trees, ino, parts).At?
    ensures FollowFrom(d', trees', ino, parts) == FollowFrom(d, trees, ino, parts)
    decreases |parts|
  {
    hide Find, Entries, InodeAt, OneMoreFile;
    StepLaw(d, d', trees, trees', parent, child, name, ino, if parts == [] then [] else parts[0]);
    if parts != [] {
      var next := Find(Entries(d, trees[ino]), parts[0]).value;
      FollowKept(d, d', trees, trees', parent, child, name, next, parts[1..]);
    }
  }

  /** And where it finds the directory, it finds the new file by its name. */
  lemma {:induction false} FollowNew(d: Disk, d': Disk, trees: Trees, trees': Trees, parent: u32, child: u32,
                                     name: seq<byte>, ino: u32, parts: seq<seq<byte>>)
    requires OneMoreFile(d, d', trees, trees', parent, child, name) && child != 0 && Storable(name) && child in trees'
    requires Find(Entries(d, trees[parent]), name).None? && FollowFrom(d, trees, ino, parts) == At(parent)
    requires InodeAt(d, parent).HasExtents()
    ensures FollowFrom(d', trees', ino, parts + [name]) == At(child)
    decreases |parts|
  {
    hide Find, Entries, InodeAt, OneMoreFile;
    var all := parts + [name];
    StepLaw(d, d', trees, trees', parent, child, name, ino, all[0]);
    if parts == [] {
      assert all[1..] == [];
    } else {
      var next := Find(Entries(d, trees[ino]), parts[0]).value;
      FollowNew(d, d', trees, trees', parent, child, name, next, parts[1..]);
      assert all[1..] == parts[1..] + [name];
    }
  }

  // ---- paths ----

  lemma ChildNonZero(d: Disk, roles: Roles, trees: Trees, child: u32)
    requires WellFormed(d, roles, trees) && child in trees
    ensures child != 0
  {
    hide Layout, Marked, Fits, FileOk, DirOk, Group, Index;
    assert Live(d, roles, trees, child);
  }

  /** After any creation the directory lists the new name as the new file if and only if the name is storable. */
  lemma CreatedName(d: Disk, d': Disk, roles': Roles, trees: Trees, trees': Trees, parts: seq<seq<byte>>, child: u32,
                    name: seq<byte>, data: seq<byte>, now: u32)
    requires WellFormed(d', roles', trees') && CreatedAt(d, d', trees, trees', parts, child, name, data, now)
    ensures var parent := Follow(d, trees, parts).ino;
            && parent in trees' && InodeAt(d', parent).IsDirectory()
            && (Find(Entries(d', trees'[parent]), name) == Some(child) <==> Storable(name))
            && (!Storable(name) ==> Find(Entries(d', trees'[parent]), name).None?)
  {
    hide WellFormed, InodeAt, Entries, Find, FollowFrom, ListingGrew, NewFile, SameFile, Storable;
    var parent := Follow(d, trees, parts).ino;
    ChildIn(d, d', trees, trees', parent, child, name);
    ChildNonZero(d', roles', trees', child);
    NameFound(Entries(d, trees[parent]), Entries(d', trees'[parent]), child, name);
  }

  /** After a successful creation the driver finds the new file at the path with the name appended, and can read it
      back exactly if the file system has extents, and not at all otherwise. It is also where that path leads, if the
      path led to the directory. */
  lemma CreateLaw(d: Disk, d': Disk, roles: Roles, roles': Roles, trees: Trees, trees': Trees, path: seq<byte>,
                  child: u32, name: seq<byte>, data: seq<byte>, now: u32)
    requires WellFormed(d, roles, trees) && WellFormed(d', roles', trees') && d'.g == d.g
    requires CreatedAt(d, d', trees, trees', Split(path), child, name, data, now)
    requires Storable(name) && SLASH !in name
    ensures var parts := Split(path + [SLASH] + name);
            && Follow(d', trees', parts) == At(child)
            && (Resolve(d, trees, Split(path)).At? ==> Resolve(d', trees', parts) == At(child))
            && IsFileAt(d', trees', At(child)) == d.g.hasExtents
            && (d.g.hasExtents ==> ContentAt(d', trees', At(child)) == data)
  {
    hide WellFormed, InodeAt, Entries, Find, Split, OneMoreFile, WalkFrom, FollowFrom, FileData;
    var parent := Follow(d, trees, Split(path)).ino;
    ChildIn(d, d', trees, trees', parent, child, name);
    ChildNonZero(d', roles', trees', child);
    RootIn(d, roles, trees);
    SplitJoin(path, name);
    DirectoryExtents(d, roles, trees, parent);
    FollowNew(d, d', trees, trees', parent, child, name, ROOT, Split(path));
    if Resolve(d, trees, Split(path)).At? {
      FollowMeant(d, roles, trees, ROOT, Split(path));
      NewPath(d, d', roles, trees, trees', parent, child, name, ROOT, Split(path));
    }
  }

  lemma ChildIn(d: Disk, d': Disk, trees: Trees, trees': Trees, parent: u32, child: u32, name: seq<byte>)
    requires OneMoreFile(d, d', trees, trees', parent, child, name)
    ensures child in trees' && parent in trees
  {
    hide InodeAt, Entries, ListingGrew, SameFile;
  }

  lemma RootIn(d: Disk, roles: Roles, trees: Trees)
    requires WellFormed(d, roles, trees)
    ensures ROOT in trees
  {
    hide Layout, Marked, Fits, Live;
  }

  /** Every other path leads where it led; and what it leads to, unless it is the directory, reads the same. What the
      driver found at a path, it finds there still. */
  lemma OtherPathLaw(d: Disk, d': Disk, roles: Roles, roles': Roles, trees: Trees, trees': Trees, path: seq<byte>,
                     child: u32, name: seq<byte>, data: seq<byte>, now: u32, parts: seq<seq<byte>>)
    requires WellFormed(d, roles, trees) && WellFormed(d', roles', trees')
    requires CreatedAt(d, d', trees, trees', Split(path), child, name, data, now) && Storable(name)
    ensures var parent := Follow(d, trees, Split(path)).ino;
            Rerouted(d, trees, ROOT, parts, Resolve(d, trees, parts), Resolve(d', trees', parts), parent, child, name)
    ensures var w, parent := Resolve(d, trees, parts), Follow(d, trees, Split(path)).ino;
            w.At? ==> Resolve(d', trees', parts) == w && w.ino in trees && trees'[w.ino] == trees[w.ino]
                      && SameInode(InodeAt(d', w.ino), InodeAt(d, w.ino))
                      && (w.ino != parent ==> SameFile(d, d', w.ino, trees[w.ino]))
    ensures Follow(d, trees, parts).At? ==> Follow(d', trees', parts) == Follow(d, trees, parts)
  {
    hide WellFormed, InodeAt, Entries, Find, Split, WalkFrom, FollowFrom, ListingGrew, NewFile, Concat, DataBlocks,
      SameBlocks;
    var parent := Follow(d, trees, Split(path)).ino;
    ChildNonZero(d', roles', trees', child);
    RootIn(d, roles, trees);
    WalkLaw(d, d', roles, trees, trees', parent, child, name, ROOT, parts);
    if Follow(d, trees, parts).At? { FollowKept(d, d', trees, trees', parent, child, name, ROOT, parts); }
    var w := Resolve(d, trees, parts);
    if w.At? {
      WalkLive(d, roles, trees, ROOT, parts);
      if w.ino != parent { assert SameFile(d, d', w.ino, trees[w.ino]); }
    }
  }
}
