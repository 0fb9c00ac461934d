/** Extent trees: the finite tree behind an inode, and what reading it yields. */
module Extents {
  import opened Bytes
  import opened Disk
  import opened Inode

  /** The unfolding of an extent node. A child whose magic is damaged contributes nothing. */
  datatype Tree = Leaf(extents: seq<Extent>) | Inner(kids: Kids) | Blank
  datatype Kids = NoKids | Kid(block: nat, tree: Tree, rest: Kids)

  /** The leaves from left to right. */
  function Flatten(t: Tree): seq<Extent> {
    match t
    case Leaf(extents) => extents
    case Inner(kids) => FlattenKids(kids)
    case Blank => []
  }

  function FlattenKids(kids: Kids): seq<Extent> {
    match kids
    case NoKids => []
    case Kid(_, tree, rest) => Flatten(tree) + FlattenKids(rest)
  }

  /** The blocks that hold the nodes below the root. */
  function IndexBlocks(t: Tree): seq<nat> {
    if t.Inner? then KidBlocks(t.kids) else []
  }

  function KidBlocks(kids: Kids): seq<nat> {
    match kids
    case NoKids => []
    case Kid(block, tree, rest) => [block] + IndexBlocks(tree) + KidBlocks(rest)
  }

  /** A measure for the recursion over inner nodes. */
  function Size(kids: Kids): nat {
    match kids
    case NoKids => 0
    case Kid(_, tree, rest) => 1 + (if tree.Inner? then Size(tree.kids) else 0) + Size(rest)
  }

  /** `t` is what the node `data` unfolds to; a `force`d root is decoded whatever its magic. */
  ghost predicate TreeAt(d: Disk, data: seq<byte>, force: bool, t: Tree)
    decreases t
  {
    match ParseNode(data, force)
    case Err => false
    case Ok(Empty) => t == Blank
    case Ok(Leaves(extents)) => t == Leaf(extents)
    case Ok(Indices(indices)) => t.Inner? && KidsAt(d, indices, t.kids)
  }

  ghost predicate KidsAt(d: Disk, indices: seq<ExtentIdx>, kids: Kids)
    decreases kids
  {
    match kids
    case NoKids => indices == []
    case Kid(block, tree, rest) =>
      && indices != [] && block == indices[0].child && block < d.g.blockCount
      && TreeAt(d, Blk(d, block), false, tree)
      && KidsAt(d, indices[1..], rest)
  }

  // ---- data blocks ----

  function Run(e: Extent): (r: seq<nat>)
    ensures |r| == e.length
  {
    seq(e.length, i requires 0 <= i < e.length => e.physical + i)
  }

  function Runs(es: seq<Extent>): seq<nat> {
    if es == [] then [] else Runs(es[..|es| - 1]) + Run(es[|es| - 1])
  }

  function DataBlocks(t: Tree): seq<nat> { Runs(Flatten(t)) }

  function AllBlocks(t: Tree): seq<nat> { IndexBlocks(t) + DataBlocks(t) }

  // ---- frames ----

  /** A tree depends on nothing but the blocks of its inner nodes. */
  lemma {:induction false} TreeFrame(d: Disk, d': Disk, data: seq<byte>, force: bool, t: Tree)
    requires TreeAt(d, data, force, t) && d'.g == d.g && |d'.card| == |d.card|
    requires forall b :: b in IndexBlocks(t) ==> Blk(d', b) == Blk(d, b)
    ensures TreeAt(d', data, force, t)
    decreases t
  {
    hide Blk, ParseNode;
    if t.Inner? {
      KidsFrame(d, d', ParseNode(data, force).value.indices, t.kids);
    }
  }

  lemma {:induction false} KidsFrame(d: Disk, d': Disk, indices: seq<ExtentIdx>, kids: Kids)
    requires KidsAt(d, indices, kids) && d'.g == d.g && |d'.card| == |d.card|
    requires forall b :: b in KidBlocks(kids) ==> Blk(d', b) == Blk(d, b)
    ensures KidsAt(d', indices, kids)
    decreases kids
  {
    hide Blk;
    match kids
    case NoKids =>
    case Kid(block, tree, rest) =>
      assert block in KidBlocks(kids);
      KidsFrame(d, d', indices[1..], rest);
      TreeFrame(d, d', Blk(d, block), false, tree);
  }

  /** The unfolding of a node is unique. */
  lemma {:induction false} TreeUnique(d: Disk, data: seq<byte>, force: bool, t: Tree, u: Tree)
    requires TreeAt(d, data, force, t) && TreeAt(d, data, force, u)
    ensures t == u
    decreases t
  {
    hide Blk, ParseNode;
    if t.Inner? {
      KidsUnique(d, ParseNode(data, force).value.indices, t.kids, u.kids);
    }
  }

  lemma {:induction false} KidsUnique(d: Disk, indices: seq<ExtentIdx>, kids: Kids, kids': Kids)
    requires KidsAt(d, indices, kids) && KidsAt(d, indices, kids')
    ensures kids == kids'
    decreases kids
  {
    hide Blk;
    match kids
    case NoKids =>
    case Kid(block, tree, rest) =>
      KidsUnique(d, indices[1..], rest, kids'.rest);
      TreeUnique(d, Blk(d, block), false, tree, kids'.tree);
  }

  // ---- order ----

  /** The extents lie in `[lo, hi)` of the file, ascending and disjoint. */
  predicate Ascending(es: seq<Extent>, lo: nat, hi: nat) {
    && (forall k :: 0 <= k < |es| ==> lo <= es[k].logical && es[k].logical + es[k].length <= hi)
    && (forall j, k :: 0 <= j < k < |es| ==> es[j].logical + es[j].length <= es[k].logical)
  }

  /** The keys of the tree say where each subtree's extents lie: from its key up to the next one. */
  predicate Keyed(d: Disk, data: seq<byte>, force: bool, t: Tree, lo: nat, hi: nat)
    decreases t
  {
    match t
    case Leaf(extents) => Ascending(extents, lo, hi)
    case Blank => true
    case Inner(kids) => ParseNode(data, force).Ok? && ParseNode(data, force).value.Indices?
                        && KeyedKids(d, ParseNode(data, force).value.indices, kids, lo, hi)
  }

  predicate KeyedKids(d: Disk, indices: seq<ExtentIdx>, kids: Kids, lo: nat, hi: nat)
    decreases kids
  {
    match kids
    case NoKids => true
    case Kid(block, tree, rest) =>
      && indices != []
      && var next := if |indices| > 1 then indices[1].logical else hi;
      && lo <= indices[0].logical <= next <= hi
      && Keyed(d, Blk(d, block), false, tree, indices[0].logical, next)
      && KeyedKids(d, indices[1..], rest, next, hi)
  }

  lemma AscendingJoin(a: seq<Extent>, b: seq<Extent>, lo: nat, k: nat, m: nat, hi: nat)
    requires lo <= k <= m <= hi && Ascending(a, k, m) && Ascending(b, m, hi)
    ensures Ascending(a + b, lo, hi)
  {
    var c := a + b;
    assert forall i :: 0 <= i < |c| ==> c[i] == if i < |a| then a[i] else b[i - |a|];
  }

  /** If the keys are in order, so are the leaves that reading the tree yields, and they do not overlap. */
  lemma {:induction false} KeyedSorted(d: Disk, data: seq<byte>, force: bool, t: Tree, lo: nat, hi: nat)
    requires Keyed(d, data, force, t, lo, hi)
    ensures Ascending(Flatten(t), lo, hi)
    decreases t
  {
    hide Blk, ParseNode;
    if t.Inner? { KidsSorted(d, ParseNode(data, force).value.indices, t.kids, lo, hi); }
  }

  lemma {:induction false} KidsSorted(d: Disk, indices: seq<ExtentIdx>, kids: Kids, lo: nat, hi: nat)
    requires KeyedKids(d, indices, kids, lo, hi)
    ensures Ascending(FlattenKids(kids), lo, hi)
    decreases kids
  {
    hide Blk, Ascending;
    match kids
    case NoKids => assert Ascending([], lo, hi) by { EmptyAscending(lo, hi); }
    case Kid(block, tree, rest) =>
      var next := if |indices| > 1 then indices[1].logical else hi;
      KeyedSorted(d, Blk(d, block), false, tree, indices[0].logical, next);
      KidsSorted(d, indices[1..], rest, next, hi);
      AscendingJoin(Flatten(tree), FlattenKids(rest), lo, indices[0].logical, next, hi);
  }

  lemma EmptyAscending(lo: nat, hi: nat)
    ensures Ascending([], lo, hi)
  {
  }

  /** Damaging the magic of the root, and nothing else, leaves the forced reading as it was. */
  lemma MagicOnly(d: Disk, data: seq<byte>, data': seq<byte>, t: Tree)
    requires 12 <= |data| == |data'| && data[2..] == data'[2..]
    requires TreeAt(d, data, true, t)
    ensures TreeAt(d, data', true, t)
  {
    hide NodeBody, Blk;
    BodyIgnoresMagic(data, data');
  }

  /** A node that the driver takes at its word: it has entries, or children. */
  predicate Fruitful(t: Tree) { t.Inner? || (t.Leaf? && t.extents != []) }

  /** What the root `data` unfolds to when its magic is not waived. */
  function Unforced(data: seq<byte>, t: Tree): Tree { if Magic(data) then t else Blank }

  lemma UnforcedTree(d: Disk, data: seq<byte>, t: Tree)
    requires TreeAt(d, data, true, t)
    ensures TreeAt(d, data, false, Unforced(data, t))
  {
    hide NodeBody, Blk;
  }

  /** The tree that `get_extents` settles on: the root it was given if its magic holds and it has content,
      else the root as the disk has it now, else the given root with its magic waived. */
  function Settled(data: seq<byte>, t: Tree, now: Tree): Tree {
    if Magic(data) && Fruitful(t) then t else if Fruitful(now) then now else t
  }

  /** What a parsed node unfolds to. */
  ghost predicate NodeIs(d: Disk, node: Node, tree: Tree) {
    match node
    case Leaves(extents) => tree == Leaf(extents)
    case Indices(indices) => tree.Inner? && KidsAt(d, indices, tree.kids)
    case Empty => tree == Blank
  }

  lemma RootedIs(d: Disk, n: Inode, t: Tree)
    requires n.HasExtents() && ParseNode(n.iBlock, false).Ok? && NodeIs(d, ParseNode(n.iBlock, false).value, t)
    ensures Rooted(n) <==> Fruitful(t)
  {
    hide NodeBody, Magic;
  }

  lemma TreeNode(d: Disk, data: seq<byte>, force: bool, t: Tree)
    requires TreeAt(d, data, force, t)
    ensures ParseNode(data, force).Ok? && NodeIs(d, ParseNode(data, force).value, t)
  {
    hide ParseNode, KidsAt;
  }

  /** When nothing but the magic of the root is damaged, in the handle, on the disk or in both, reading the
      extents yields the leaves of the undamaged tree. */
  lemma DamagedRoot(d: Disk, data: seq<byte>, damaged: seq<byte>, t: Tree, onDisk: seq<byte>, now: Tree)
    requires 12 <= |data| == |damaged| && data[2..] == damaged[2..] && TreeAt(d, data, true, t)
    requires (onDisk == data || onDisk == damaged) && TreeAt(d, onDisk, false, now)
    ensures TreeAt(d, damaged, true, t)
    ensures Settled(damaged, t, now) == t && Settled(data, t, now) == t
  {
    hide Blk, ParseNode, TreeAt, Magic;
    MagicOnly(d, data, damaged, t);
    UnforcedTree(d, onDisk, t);
    TreeUnique(d, onDisk, false, now, Unforced(onDisk, t));
  }

  // ---- trees as they are stored ----

  ghost predicate HoldsLeaf(data: seq<byte>, es: seq<Extent>) {
    && |es| < 0x1_0000 && (forall e :: e in es ==> e.physical < 0x1_0000_0000_0000)
    && exists max: u16, rest :: data == StoredLeaf(es, max) + rest
  }

  function KidsOf(xs: seq<ExtentIdx>, leaves: seq<seq<Extent>>): Kids
    requires |xs| == |leaves|
  {
    if xs == [] then NoKids else Kid(xs[0].child, Leaf(leaves[0]), KidsOf(xs[1..], leaves[1..]))
  }

  function Together(leaves: seq<seq<Extent>>): seq<Extent> {
    if leaves == [] then [] else leaves[0] + Together(leaves[1..])
  }

  lemma {:induction false} StoredKids(d: Disk, xs: seq<ExtentIdx>, leaves: seq<seq<Extent>>)
    requires |xs| == |leaves| && forall i :: 0 <= i < |xs| ==> xs[i].child < d.g.blockCount
    requires forall i :: 0 <= i < |xs| ==> HoldsLeaf(Blk(d, xs[i].child), leaves[i])
    ensures KidsAt(d, xs, KidsOf(xs, leaves)) && FlattenKids(KidsOf(xs, leaves)) == Together(leaves)
    decreases |xs|
  {
    hide Blk, ParseNode, StoredLeaf, HoldsLeaf;
    if xs != [] {
      HeldLeaf(Blk(d, xs[0].child), leaves[0]);
      StoredKids(d, xs[1..], leaves[1..]);
    }
  }

  lemma HeldLeaf(data: seq<byte>, es: seq<Extent>)
    requires HoldsLeaf(data, es)
    ensures ParseNode(data, false) == Ok(Leaves(es))
  {
    hide ParseNode, StoredLeaf;
    var max: u16, rest :| data == StoredLeaf(es, max) + rest;
    LeavesDecoded(es, max, rest);
  }

  /** A root that stores the numbers of its children, which store their extents, unfolds to the tree whose leaves are
      all of these in order. */
  lemma StoredTree(d: Disk, xs: seq<ExtentIdx>, max: u16, rest: seq<byte>, leaves: seq<seq<Extent>>, force: bool)
    requires |xs| == |leaves| < 0x1_0000 && forall x :: x in xs ==> x.child < 0x1_0000_0000_0000
    requires forall i :: 0 <= i < |xs| ==> xs[i].child < d.g.blockCount
    requires forall i :: 0 <= i < |xs| ==> HoldsLeaf(Blk(d, xs[i].child), leaves[i])
    ensures var t := Inner(KidsOf(xs, leaves));
            TreeAt(d, StoredInner(xs, max, 1) + rest, force, t) && Flatten(t) == Together(leaves)
  {
    hide Blk, StoredLeaf, HoldsLeaf, StoredInner, NodeBody, KidsAt, Magic;
    StoredKids(d, xs, leaves);
    IndicesDecoded(xs, max, 1, rest);
  }
}
