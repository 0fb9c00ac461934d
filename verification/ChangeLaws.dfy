/** What overwriting a file and renaming an entry mean for every path. */
module ChangeLaws {
  import opened Bytes
  import opened Directory
  import opened Disk
  import opened Extents
  import opened Volume
  import opened Frames
  import opened Paths
  import opened Descs
  import opened Handles
  import opened Overwrite
  import opened Rename
  import opened CreateLaws

  // ---- overwriting ----

  ghost predicate SameDirs(d: Disk, d': Disk, trees: Trees) {
    forall i: u32 :: i in trees ==> SameDir(d, d', trees, i)
  }

  ghost predicate SameDir(d: Disk, d': Disk, trees: Trees, i: u32)
    requires i in trees
  {
    && InodeAt(d', i).IsDirectory() == InodeAt(d, i).IsDirectory()
    && (InodeAt(d, i).IsDirectory() ==> Entries(d', trees[i]) == Entries(d, trees[i]))
  }

  lemma {:induction false} SameWalks(d: Disk, d': Disk, roles: Roles, trees: Trees, ino: u32, parts: seq<seq<byte>>)
    requires WellFormed(d, roles, trees) && SameDirs(d, d', trees) && ino in trees
    ensures WalkFrom(d', trees, ino, parts) == WalkFrom(d, trees, ino, parts)
    decreases |parts|
  {
    hide WellFormed, Find, Entries, InodeAt;
    assert SameDir(d, d', trees, ino);
    if parts != [] && InodeAt(d, ino).IsDirectory() && Find(Entries(d, trees[ino]), parts[0]).Some? {
      StepLive(d, roles, trees, ino, parts[0]);
      SameWalks(d, d', roles, trees, Find(Entries(d, trees[ino]), parts[0]).value, parts[1..]);
    }
  }

  lemma OverwriteSameDirs(d: Disk, d': Disk, trees: Trees, ino: u32, data: seq<byte>)
    requires Overwritten(d, d', trees, ino, data) && InodeAt(d, ino).IsRegular()
    ensures SameDirs(d, d', trees)
  {
    hide Entries, InodeAt, Concat, DataBlocks, RecordsSame, SlotBlock, Holds, SameBlocks, OnlyBlocks;
    forall i: u32 | i in trees ensures SameDir(d, d', trees, i) {
      if i != ino { assert SameFile(d, d', i, trees[i]); }
    }
  }

  /** After an overwrite every path leads where it led. A path to the file now reads exactly the new data;
      whatever else a path leads to reads as before. */
  lemma OverwriteLaw(d: Disk, d': Disk, roles: Roles, trees: Trees, ino: u32, data: seq<byte>, parts: seq<seq<byte>>)
    requires WellFormed(d, roles, trees) && Overwritten(d, d', trees, ino, data)
    requires InodeAt(d, ino).IsRegular() && InodeAt(d, ino).HasExtents()
    ensures Resolve(d', trees, parts) == Resolve(d, trees, parts)
    ensures var w := Resolve(d, trees, parts);
            w.At? ==> w.ino in trees
                      && if w.ino == ino then IsFileAt(d', trees, w) && ContentAt(d', trees, w) == data
                         else SameFile(d, d', w.ino, trees[w.ino])
  {
    hide WellFormed, InodeAt, Entries, WalkFrom, SameDirs, FileData, OnlyBlocks, RecordsSame, DataBlocks, Concat,
      SameFile;
    OverwriteSameDirs(d, d', trees, ino, data);
    RootIn(d, roles, trees);
    SameWalks(d, d', roles, trees, ROOT, parts);
    var w := Resolve(d, trees, parts);
    if w.At? { WalkLive(d, roles, trees, ROOT, parts); }
  }

  // ---- renaming ----

  /** The name occurs once in the listing. */
  predicate Once(es: seq<DirEntry>, name: seq<byte>)
    decreases es
  {
    es != [] && if es[0].name == name then !HasName(es[1..], name) else Once(es[1..], name)
  }

  function Swap(part: seq<byte>, name: seq<byte>, name': seq<byte>): seq<byte> {
    if part == name then name' else if part == name' then name else part
  }

  lemma HasNameCons(es: seq<DirEntry>, name: seq<byte>)
    requires es != []
    ensures HasName(es, name) <==> es[0].name == name || HasName(es[1..], name)
  {
    HasNameAppend([es[0]], es[1..], name);
    assert [es[0]] + es[1..] == es;
    if es[0].name == name { assert HasName([es[0]], name); }
  }

  lemma FindCons(e: DirEntry, rest: seq<DirEntry>, part: seq<byte>)
    ensures Find([e] + rest, part) == if e.name == part then Some(e.inode) else Find(rest, part)
    ensures Find(rest, part).None? <==> !HasName(rest, part)
  {
    hide HasName;
    assert ([e] + rest)[1..] == rest;
  }

  /** To a lookup in the listing, renaming the first entry of that name exchanges the two names. */
  predicate Exchanged(es: seq<DirEntry>, name: seq<byte>, name': seq<byte>) {
    && Find(Renamed(es, name, name'), name) == Find(es, name')
    && Find(Renamed(es, name, name'), name') == Find(es, name)
  }

  /** It means nothing to all other names. */
  lemma {:induction false} FindOther(es: seq<DirEntry>, name: seq<byte>, name': seq<byte>, part: seq<byte>)
    requires part != name && part != name'
    ensures Find(Renamed(es, name, name'), part) == Find(es, part)
  {
    hide Find;
    if es != [] {
      if es[0].name == name {
        assert Renamed(es, name, name') == [es[0].(name := name')] + es[1..];
        FindCons(es[0].(name := name'), es[1..], part);
      } else {
        FindOther(es[1..], name, name', part);
        FindCons(es[0], Renamed(es[1..], name, name'), part);
      }
      FindCons(es[0], es[1..], part);
      assert [es[0]] + es[1..] == es;
    }
  }

  lemma {:induction false} FindNewName(es: seq<DirEntry>, name: seq<byte>, name': seq<byte>)
    requires HasName(es, name) && !HasName(es, name') && name != name'
    ensures Find(Renamed(es, name, name'), name') == Find(es, name)
  {
    hide HasName, Find;
    NothingListed(name);
    HasNameCons(es, name);
    HasNameCons(es, name');
    if es[0].name == name {
      assert Renamed(es, name, name') == [es[0].(name := name')] + es[1..];
      FindCons(es[0].(name := name'), es[1..], name');
    } else {
      FindNewName(es[1..], name, name');
      FindCons(es[0], Renamed(es[1..], name, name'), name');
    }
    FindCons(es[0], es[1..], name);
    assert [es[0]] + es[1..] == es;
  }

  /** The path as it reads after the renaming: the two names are exchanged wherever the walk is in the directory. */
  ghost function Respelled(d: Disk, trees: Trees, ino: u32, parts: seq<seq<byte>>, parent: u32, name: seq<byte>,
                           name': seq<byte>): (r: seq<seq<byte>>)
    ensures |r| == |parts|
    decreases |parts|
  {
    if parts == [] || ino !in trees || !InodeAt(d, ino).IsDirectory() then parts
    else
      var next := Find(Entries(d, trees[ino]), parts[0]);
      [if ino == parent then Swap(parts[0], name, name') else parts[0]]
      + if next.Some? then Respelled(d, trees, next.value, parts[1..], parent, name, name') else parts[1..]
  }

  lemma RenameStep(d: Disk, d': Disk, trees: Trees, parent: u32, name: seq<byte>, name': seq<byte>, ino: u32,
                   part: seq<byte>)
    requires EntryRenamed(d, d', trees, parent, name, name') && ino in trees && name != name'
    requires Exchanged(Entries(d, trees[parent]), name, name')
    ensures InodeAt(d', ino).IsDirectory() == InodeAt(d, ino).IsDirectory()
    ensures Find(Entries(d', trees[ino]), if ino == parent then Swap(part, name, name') else part)
            == Find(Entries(d, trees[ino]), part)
  {
    hide Entries, InodeAt, Concat, DataBlocks, RecordsSame, Find, Renamed, SameBlocks;
    if ino == parent {
      if part != name && part != name' { FindOther(Entries(d, trees[parent]), name, name', part); }
    } else {
      assert SameFile(d, d', ino, trees[ino]);
    }
  }

  /** Every path, respelled, leads where it led before. */
  lemma {:induction false} RenameLaw(d: Disk, d': Disk, roles: Roles, trees: Trees, parent: u32, name: seq<byte>,
                                     name': seq<byte>, ino: u32, parts: seq<seq<byte>>)
    requires WellFormed(d, roles, trees) && EntryRenamed(d, d', trees, parent, name, name') && ino in trees
             && name != name'
    requires Exchanged(Entries(d, trees[parent]), name, name')
    ensures WalkFrom(d', trees, ino, Respelled(d, trees, ino, parts, parent, name, name'))
            == WalkFrom(d, trees, ino, parts)
    decreases |parts|
  {
    hide WellFormed, Find, Entries, InodeAt, EntryRenamed, Exchanged;
    if parts != [] {
      RenameStep(d, d', trees, parent, name, name', ino, parts[0]);
      var parts' := Respelled(d, trees, ino, parts, parent, name, name');
      if InodeAt(d, ino).IsDirectory() {
        var next := Find(Entries(d, trees[ino]), parts[0]);
        if next.Some? {
          StepLive(d, roles, trees, ino, parts[0]);
          RenameLaw(d, d', roles, trees, parent, name, name', next.value, parts[1..]);
          assert parts'[1..] == Respelled(d, trees, next.value, parts[1..], parent, name, name');
        }
      }
    }
  }

  // ---- when the names are exchanged ----

  /** After renaming the one entry of that name, the old name is not listed. */
  lemma {:induction false} OldNameGone(es: seq<DirEntry>, name: seq<byte>, name': seq<byte>)
    requires Once(es, name) && name != name'
    ensures Find(Renamed(es, name, name'), name).None?
  {
    hide HasName, Find;
    assert [es[0]] + es[1..] == es;
    if es[0].name == name {
      assert Renamed(es, name, name') == [es[0].(name := name')] + es[1..];
      FindCons(es[0].(name := name'), es[1..], name);
    } else {
      OldNameGone(es[1..], name, name');
      FindCons(es[0], Renamed(es[1..], name, name'), name);
    }
  }

  /** If it was listed twice, it is still listed. */
  lemma {:induction false} OldNameStays(es: seq<DirEntry>, name: seq<byte>, name': seq<byte>)
    requires HasName(es, name) && !Once(es, name)
    ensures Find(Renamed(es, name, name'), name).Some?
  {
    hide HasName, Find;
    NothingListed(name);
    HasNameCons(es, name);
    if es[0].name == name {
      assert Renamed(es, name, name') == [es[0].(name := name')] + es[1..];
      FindCons(es[0].(name := name'), es[1..], name);
    } else {
      OldNameStays(es[1..], name, name');
      FindCons(es[0], Renamed(es[1..], name, name'), name);
    }
  }

  /** Exchanging the two names in a walk from `ino` makes up for the renaming. */
  ghost predicate MadeUp(d: Disk, d': Disk, trees: Trees, parent: u32, name: seq<byte>, name': seq<byte>, ino: u32,
                         parts: seq<seq<byte>>)
  {
    WalkFrom(d', trees, ino, Respelled(d, trees, ino, parts, parent, name, name')) == WalkFrom(d, trees, ino, parts)
  }

  /** Where the old name was listed once, or the new one not at all: exactly where both is so. */
  lemma ExchangedExactly(es: seq<DirEntry>, name: seq<byte>, name': seq<byte>)
    requires HasName(es, name) && name != name' && (Once(es, name) || !HasName(es, name'))
    ensures Exchanged(es, name, name') <==> Once(es, name) && !HasName(es, name')
  {
    hide HasName, Find, Once, Renamed;
    FindListed(es, name');
    if Once(es, name) { OldNameGone(es, name, name'); } else { OldNameStays(es, name, name'); }
    if !HasName(es, name') { FindNewName(es, name, name'); }
  }

  lemma FindListed(es: seq<DirEntry>, name: seq<byte>)
    ensures Find(es, name).Some? <==> HasName(es, name)
  {
  }

  lemma OneStep(d: Disk, trees: Trees, ino: u32, part: seq<byte>)
    requires ino in trees && InodeAt(d, ino).IsDirectory()
    ensures var found := Find(Entries(d, trees[ino]), part);
            WalkFrom(d, trees, ino, [part]) == if found.Some? then At(found.value) else Missing
  {
    hide Find, Entries, InodeAt;
    assert [part][1..] == [];
  }

  lemma RespelledStep(d: Disk, trees: Trees, parent: u32, part: seq<byte>, name: seq<byte>, name': seq<byte>)
    requires parent in trees && InodeAt(d, parent).IsDirectory()
    ensures Respelled(d, trees, parent, [part], parent, name, name') == [Swap(part, name, name')]
  {
    hide Find, Entries, InodeAt;
    assert [part][1..] == [];
  }

  /** Renaming the first entry of that name means no more than a new spelling of the paths if and only if, to a lookup
      in that listing, it exchanges the two names. */
  lemma RenameExact(d: Disk, d': Disk, roles: Roles, trees: Trees, parent: u32, name: seq<byte>, name': seq<byte>)
    requires WellFormed(d, roles, trees) && EntryRenamed(d, d', trees, parent, name, name')
             && InodeAt(d, parent).IsDirectory()
    requires name != name'
    ensures (forall ino: u32, parts :: ino in trees ==> MadeUp(d, d', trees, parent, name, name', ino, parts))
            <==> Exchanged(Entries(d, trees[parent]), name, name')
  {
    hide WellFormed, Entries, InodeAt, OthersSame, RecordsSame, Renamed, WalkFrom, Respelled, Find;
    if Exchanged(Entries(d, trees[parent]), name, name') {
      forall ino: u32, parts | ino in trees ensures MadeUp(d, d', trees, parent, name, name', ino, parts) {
        RenameLaw(d, d', roles, trees, parent, name, name', ino, parts);
      }
    } else if forall ino: u32, parts :: ino in trees ==> MadeUp(d, d', trees, parent, name, name', ino, parts) {
      assert MadeUp(d, d', trees, parent, name, name', parent, [name]);
      assert MadeUp(d, d', trees, parent, name, name', parent, [name']);
      RespelledStep(d, trees, parent, name, name, name');
      RespelledStep(d, trees, parent, name', name, name');
      OneStep(d, trees, parent, name);
      OneStep(d, trees, parent, name');
      OneStep(d', trees, parent, name);
      OneStep(d', trees, parent, name');
    }
  }
}
