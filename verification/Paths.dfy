/** Names, paths and the walk from the root. */
module Paths {
  import opened Bytes
  import opened Directory
  import opened Disk
  import opened Inode
  import opened Extents
  import opened Volume

  const SLASH: byte := 0x2F

  /** The non-empty components of a path. */
  function Split(path: seq<byte>): seq<seq<byte>> { SplitFrom(path, []) }

  function SplitFrom(path: seq<byte>, part: seq<byte>): seq<seq<byte>>
    decreases path
  {
    if path == [] then Whole(part)
    else if path[0] == SLASH then Whole(part) + SplitFrom(path[1..], [])
    else SplitFrom(path[1..], part + [path[0]])
  }

  function Whole(part: seq<byte>): seq<seq<byte>> { if part == [] then [] else [part] }

  lemma {:induction false} SplitPlain(name: seq<byte>, part: seq<byte>)
    requires SLASH !in name
    ensures SplitFrom(name, part) == Whole(part + name)
    decreases name
  {
    if name == [] {
      assert part + name == part;
    } else {
      assert (part + [name[0]]) + name[1..] == part + name;
      SplitPlain(name[1..], part + [name[0]]);
    }
  }

  lemma {:induction false} SplitAppend(path: seq<byte>, part: seq<byte>, name: seq<byte>)
    requires SLASH !in name
    ensures SplitFrom(path + [SLASH] + name, part) == SplitFrom(path, part) + Whole(name)
    decreases path
  {
    var all := path + [SLASH] + name;
    if path == [] {
      assert all[1..] == name;
      SplitPlain(name, []);
      assert [] + name == name;
    } else {
      assert all[0] == path[0] && all[1..] == path[1..] + [SLASH] + name;
      SplitAppend(path[1..], if path[0] == SLASH then [] else part + [path[0]], name);
    }
  }

  /** Joining a proper name to a path adds one component. */
  lemma SplitJoin(path: seq<byte>, name: seq<byte>)
    requires name != [] && 0x2F !in name
    ensures Split(path + [0x2F] + name) == Split(path) + [name]
  {
    SplitAppend(path, [], name);
  }

  /** The first entry of that name. */
  function Find(es: seq<DirEntry>, name: seq<byte>): (r: Option<u32>)
    ensures r.Some? ==> exists e :: e in es && e.inode == r.value && e.name == name
    ensures r.None? <==> !HasName(es, name)
  {
    if es == [] then None
    else if es[0].name == name then Some(es[0].inode)
    else
      assert HasName(es[1..], name) ==> HasName(es, name) by {
        if HasName(es[1..], name) {
          var k :| 0 <= k < |es[1..]| && es[1..][k].name == name;
          assert es[k + 1].name == name;
        }
      }
      Find(es[1..], name)
  }

  method FindEntry(es: seq<DirEntry>, name: seq<byte>) returns (r: Option<u32>)
    ensures r == Find(es, name)
  {
    var k := 0;
    while k < |es|
      invariant 0 <= k <= |es| && Find(es, name) == Find(es[k..], name)
    {
      if es[k].name == name { return Some(es[k].inode); }
      assert es[k..][1..] == es[k + 1..];
      k := k + 1;
    }
    return None;
  }

  lemma {:induction false} FindAppend(a: seq<DirEntry>, b: seq<DirEntry>, name: seq<byte>)
    ensures Find(a + b, name) == if Find(a, name).Some? then Find(a, name) else Find(b, name)
  {
    if a == [] {
      assert a + b == b;
    } else {
      assert (a + b)[1..] == a[1..] + b;
      if a[0].name != name { FindAppend(a[1..], b, name); }
    }
  }

  /** Lookup sees only names and numbers. */
  lemma {:induction false} FindLinks(es: seq<DirEntry>, name: seq<byte>)
    ensures Find(Links(es), name) == Find(es, name)
  {
    if es != [] {
      assert Links(es)[1..] == Links(es[1..]);
      FindLinks(es[1..], name);
    }
  }

  // ---- walks ----

  /** Where a walk ends: at an inode, at a name that its directory does not list, or beyond something
      that is not a directory. */
  datatype Walk = At(ino: u32) | Missing | OffTree

  function WalkFrom(d: Disk, trees: Trees, ino: u32, parts: seq<seq<byte>>): Walk
    decreases |parts|
  {
    if parts == [] then At(ino)
    else if ino !in trees || !InodeAt(d, ino).IsDirectory() then OffTree
    else
      match Find(Entries(d, trees[ino]), parts[0])
      case None => Missing
      case Some(next) => WalkFrom(d, trees, next, parts[1..])
  }

  function Resolve(d: Disk, trees: Trees, parts: seq<seq<byte>>): Walk { WalkFrom(d, trees, ROOT, parts) }

  /** Where the driver's lookup ends. It reads whatever a name leads to as a directory, files included; when that gives
      the number of no live inode, what it goes on with is arbitrary. */
  function FollowFrom(d: Disk, trees: Trees, ino: u32, parts: seq<seq<byte>>): Walk
    decreases |parts|
  {
    if ino !in trees then OffTree
    else if parts == [] then At(ino)
    else if !InodeAt(d, ino).HasExtents() then Missing
    else
      match Find(Entries(d, trees[ino]), parts[0])
      case None => Missing
      case Some(next) => FollowFrom(d, trees, next, parts[1..])
  }

  function Follow(d: Disk, trees: Trees, parts: seq<seq<byte>>): Walk { FollowFrom(d, trees, ROOT, parts) }

  lemma FollowNone(d: Disk, trees: Trees)
    requires ROOT in trees
    ensures Follow(d, trees, []) == At(ROOT) && Steady(d, trees, [])
  {
    hide Entries, InodeAt;
  }

  /** The roots of the inodes whose entries are read on the way need not be read again. */
  predicate SteadyFrom(d: Disk, trees: Trees, ino: u32, parts: seq<seq<byte>>)
    decreases |parts|
  {
    parts != [] && ino in trees ==>
      && Rooted(InodeAt(d, ino))
      && (InodeAt(d, ino).HasExtents() ==>
            match Find(Entries(d, trees[ino]), parts[0])
            case None => true
            case Some(next) => SteadyFrom(d, trees, next, parts[1..]))
  }

  /** One turn of the lookup, which found `next`. */
  lemma FollowNext(d: Disk, trees: Trees, ino: u32, parts: seq<seq<byte>>, k: nat)
    requires k < |parts| && ino in trees && InodeAt(d, ino).HasExtents()
    ensures match Find(Entries(d, trees[ino]), parts[k])
            case None => FollowFrom(d, trees, ino, parts[k..]) == Missing
            case Some(next) =>
              && FollowFrom(d, trees, ino, parts[k..]) == FollowFrom(d, trees, next, parts[k + 1..])
              && (next !in trees ==> FollowFrom(d, trees, ino, parts[k..]) == OffTree)
              && (SteadyFrom(d, trees, ino, parts[k..]) ==> SteadyFrom(d, trees, next, parts[k + 1..]))
  {
    hide Entries, Find, InodeAt, Rooted;
    assert parts[k..][0] == parts[k] && parts[k..][1..] == parts[k + 1..];
  }

  lemma FollowPlain(d: Disk, trees: Trees, ino: u32, parts: seq<seq<byte>>)
    requires parts != [] && ino in trees
    ensures !InodeAt(d, ino).HasExtents() ==> FollowFrom(d, trees, ino, parts) == Missing
    ensures SteadyFrom(d, trees, ino, parts) ==> Rooted(InodeAt(d, ino))
  {
    hide Entries, Find, InodeAt, Rooted;
  }

  lemma FollowEnds(d: Disk, trees: Trees, ino: u32)
    requires ino in trees
    ensures FollowFrom(d, trees, ino, []) == At(ino)
  {
  }

  predicate Steady(d: Disk, trees: Trees, parts: seq<seq<byte>>) { SteadyFrom(d, trees, ROOT, parts) }

  /** Within directories the driver's lookup ends where the path leads: only below something that is not a directory
      can it go astray. */
  lemma {:induction false} FollowMeant(d: Disk, roles: Roles, trees: Trees, ino: u32, parts: seq<seq<byte>>)
    requires WellFormed(d, roles, trees) && ino in trees
    ensures WalkFrom(d, trees, ino, parts) != OffTree ==>
              FollowFrom(d, trees, ino, parts) == WalkFrom(d, trees, ino, parts)
    decreases |parts|
  {
    hide WellFormed, Find, Entries, InodeAt;
    if parts != [] && InodeAt(d, ino).IsDirectory() {
      DirectoryExtents(d, roles, trees, ino);
      if Find(Entries(d, trees[ino]), parts[0]).Some? {
        StepLive(d, roles, trees, ino, parts[0]);
        FollowMeant(d, roles, trees, Find(Entries(d, trees[ino]), parts[0]).value, parts[1..]);
      }
    }
  }

  lemma DirectoryExtents(d: Disk, roles: Roles, trees: Trees, ino: u32)
    requires WellFormed(d, roles, trees) && ino in trees && InodeAt(d, ino).IsDirectory()
    ensures InodeAt(d, ino).HasExtents()
  {
    hide Layout, Marked, Fits, FileOk, BlockOk, InodeAt, Dense, Listings, InodeUsed, DataBlocks;
    assert Live(d, roles, trees, ino);
  }

  lemma {:induction false} WalkLive(d: Disk, roles: Roles, trees: Trees, ino: u32, parts: seq<seq<byte>>)
    requires WellFormed(d, roles, trees) && ino in trees
    requires WalkFrom(d, trees, ino, parts).At?
    ensures WalkFrom(d, trees, ino, parts).ino in trees
    decreases parts
  {
    if parts != [] {
      StepLive(d, roles, trees, ino, parts[0]);
      hide WellFormed, Entries, InodeAt;
      WalkLive(d, roles, trees, Find(Entries(d, trees[ino]), parts[0]).value, parts[1..]);
    }
  }

  /** Every name in a live directory leads to a live inode. */
  lemma StepLive(d: Disk, roles: Roles, trees: Trees, ino: u32, name: seq<byte>)
    requires WellFormed(d, roles, trees) && ino in trees && InodeAt(d, ino).IsDirectory()
    requires Find(Entries(d, trees[ino]), name).Some?
    ensures Find(Entries(d, trees[ino]), name).value in trees
  {
    hide Layout, Marked, Fits, FileOk, BlockOk, InodeAt, Dense, Listings, InodeUsed, DataBlocks;
    assert Live(d, roles, trees, ino);
  }
}
