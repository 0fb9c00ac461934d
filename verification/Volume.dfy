/** A well-formed file system: who owns each block, what each live inode holds, and what survives a change. */
module Volume {
  import opened Bytes
  import opened Bitmap
  import opened Directory
  import opened Disk
  import opened Inode
  import opened Extents

  // ---- places ----

  function SuperBlock(g: Geo): nat { if g.blockSize == 1024 then 1 else 0 }
  function DescStart(g: Geo): nat { if g.blockSize == 1024 then 2 else 1 }
  function FirstData(g: Geo): nat { if g.blockSize == 1024 then 1 else 0 }

  /** The sizes that make sense. Inode sizes are powers of two from 128 on, so none lies in between. */
  predicate Sizes(g: Geo) {
    && 1 <= g.inodesPerGroup <= 8 * g.blockSize && 1 <= g.blocksPerGroup <= 8 * g.blockSize
    && (128 == g.inodeSize || 132 < g.inodeSize) && 0 < g.blockSize && g.blockSize % g.inodeSize == 0
    && 32 <= g.descSize && g.blockSize % g.descSize == 0
    && 1 <= |g.places| && |g.places| * g.inodesPerGroup < 0x1_0000_0000
  }

  /** The block of the descriptor table that holds the descriptor of a group, and where in it. */
  function DescBlock(g: Geo, group: nat): nat
    requires 0 < g.blockSize
  {
    DescStart(g) + group * g.descSize / g.blockSize
  }

  function DescOffset(g: Geo, group: nat): nat
    requires 0 < g.blockSize
  {
    group * g.descSize % g.blockSize
  }

  function Group(g: Geo, ino: nat): nat requires 0 < g.inodesPerGroup && 1 <= ino { (ino - 1) / g.inodesPerGroup }
  function Index(g: Geo, ino: nat): nat requires 0 < g.inodesPerGroup && 1 <= ino { (ino - 1) % g.inodesPerGroup }

  predicate ValidIno(g: Geo, ino: nat) {
    0 < g.inodesPerGroup && 0 < g.blockSize && 1 <= ino && Group(g, ino) < |g.places|
  }

  function TableIndex(g: Geo, ino: nat): nat requires ValidIno(g, ino) {
    Index(g, ino) * g.inodeSize / g.blockSize
  }

  function SlotBlock(g: Geo, ino: nat): nat requires ValidIno(g, ino) {
    g.places[Group(g, ino)].inodeTable + TableIndex(g, ino)
  }

  function SlotOffset(g: Geo, ino: nat): nat requires ValidIno(g, ino) {
    Index(g, ino) * g.inodeSize % g.blockSize
  }

  // ---- allocation state ----

  predicate Addressable(g: Geo, b: nat) {
    0 < g.blocksPerGroup && FirstData(g) <= b && (b - FirstData(g)) / g.blocksPerGroup < |g.places|
  }

  predicate BlockUsed(d: Disk, b: nat) {
    && Addressable(d.g, b)
    && Bit(Blk(d, d.g.places[(b - FirstData(d.g)) / d.g.blocksPerGroup].blockBitmap),
           (b - FirstData(d.g)) % d.g.blocksPerGroup)
  }

  predicate InodeUsed(d: Disk, ino: nat) {
    && ValidIno(d.g, ino)
    && Bit(Blk(d, d.g.places[Group(d.g, ino)].inodeBitmap), Index(d.g, ino))
  }

  // ---- ownership ----

  /** The one use of a block. That each block has at most one role is what keeps all regions disjoint. */
  datatype Role =
    | SuperRole
    | DescRole
    | BlockMapRole(group: nat)
    | InodeMapRole(group: nat)
    | TableRole(group: nat, index: nat)
    | FileRole(ino: nat, position: nat)

  type Roles = map<nat, Role>
  type Trees = map<nat, Tree>

  predicate Owns(roles: Roles, b: nat, r: Role) { b in roles && roles[b] == r }

  /** The fixed structures of a group have their own blocks. */
  predicate GroupPlaced(g: Geo, roles: Roles, group: nat)
    requires group < |g.places| && 0 < g.blockSize
  {
    && Owns(roles, DescBlock(g, group), DescRole)
    && Owns(roles, g.places[group].blockBitmap, BlockMapRole(group))
    && Owns(roles, g.places[group].inodeBitmap, InodeMapRole(group))
  }

  predicate SlotPlaced(g: Geo, roles: Roles, ino: nat)
    requires ValidIno(g, ino)
  {
    Owns(roles, SlotBlock(g, ino), TableRole(Group(g, ino), TableIndex(g, ino)))
  }

  ghost predicate Layout(g: Geo, roles: Roles) {
    && Sizes(g)
    && Owns(roles, SuperBlock(g), SuperRole)
    && (forall group :: 0 <= group < |g.places| ==> GroupPlaced(g, roles, group))
    && (forall ino :: ValidIno(g, ino) ==> SlotPlaced(g, roles, ino))
  }

  /** Every block with a role is on the card and marked used, and so is everything past the end. */
  ghost predicate Marked(d: Disk, roles: Roles) {
    && (forall b :: b in roles ==> b < d.g.blockCount && BlockUsed(d, b))
    && (forall b: nat :: Addressable(d.g, b) && !BlockUsed(d, b) ==> b < d.g.blockCount)
  }

  // ---- inodes ----

  predicate SlotFits(d: Disk, ino: nat) {
    && ValidIno(d.g, ino) && 128 <= d.g.inodeSize
    && SlotOffset(d.g, ino) + d.g.inodeSize <= |Blk(d, SlotBlock(d.g, ino))|
  }

  function Slot(d: Disk, ino: nat): (r: seq<byte>)
    ensures 128 <= |r|
  {
    if SlotFits(d, ino) then Blk(d, SlotBlock(d.g, ino))[SlotOffset(d.g, ino)..SlotOffset(d.g, ino) + d.g.inodeSize]
    else Zeros(128)
  }

  function InodeAt(d: Disk, ino: u32): (n: Inode)
    ensures n.ino == ino && |n.iBlock| == 60
  {
    ParseInode(Slot(d, ino), ino)
  }

  /** Everything a reader learns from an inode but the times and the checksum in its raw bytes. */
  predicate SameInode(n: Inode, m: Inode) { n.(raw := []) == m.(raw := []) }

  // ---- contents ----

  function Concat(d: Disk, blocks: seq<nat>): seq<byte> {
    if blocks == [] then [] else Concat(d, blocks[..|blocks| - 1]) + Blk(d, blocks[|blocks| - 1])
  }

  function Take(s: seq<byte>, n: nat): seq<byte> { s[..Min(n, |s|)] }

  function FileData(d: Disk, size: nat, t: Tree): seq<byte> { Take(Concat(d, DataBlocks(t)), size) }

  function Listings(d: Disk, blocks: seq<nat>): seq<DirEntry> {
    if blocks == [] then []
    else Listings(d, blocks[..|blocks| - 1]) + Parse(Blk(d, blocks[|blocks| - 1]), d.g.blockSize)
  }

  function Entries(d: Disk, t: Tree): seq<DirEntry> { Listings(d, DataBlocks(t)) }

  /** Logical and physical order agree and there are no holes. */
  predicate Dense(es: seq<Extent>) {
    forall k :: 0 <= k < |es| ==> es[k].logical == |Runs(es[..k])|
  }

  /** The inode's tree is `t`, and its blocks are the inode's alone and all different. */
  ghost predicate FileOk(d: Disk, roles: Roles, ino: nat, n: Inode, t: Tree) {
    && (if n.HasExtents() then TreeAt(d, n.iBlock, true, t) else t == Blank)
    && forall k :: 0 <= k < |AllBlocks(t)| ==> Owns(roles, AllBlocks(t)[k], FileRole(ino, k))
  }

  ghost predicate DirOk(d: Disk, trees: Trees, n: Inode, t: Tree) {
    && n.HasExtents() && Dense(Flatten(t)) && n.size == d.g.blockSize * |DataBlocks(t)|
    && (forall b :: b in DataBlocks(t) ==> BlockOk(Blk(d, b), d.g.csum))
    && (forall e :: e in Entries(d, t) ==> e.inode in trees)
  }

  ghost predicate Live(d: Disk, roles: Roles, trees: Trees, ino: nat)
    requires ino in trees
  {
    && ino < 0x1_0000_0000 && InodeUsed(d, ino)
    && FileOk(d, roles, ino, InodeAt(d, ino), trees[ino])
    && (InodeAt(d, ino).IsDirectory() ==> DirOk(d, trees, InodeAt(d, ino), trees[ino]))
  }

  const ROOT := 2

  /** The well-formedness of a file system with the live inodes `trees.Keys`. */
  ghost predicate WellFormed(d: Disk, roles: Roles, trees: Trees) {
    && Fits(d) && Layout(d.g, roles) && Marked(d, roles)
    && ROOT in trees
    && forall ino :: ino in trees ==> Live(d, roles, trees, ino)
  }
}
