# Verified models of the eMMC tools

A Dafny 4.11 project about the parts of the repository that change a card or talk to it:

- the ext4 driver of `emmc-core`, as a class over the bytes of a card: opening, lookup, reading, creating, overwriting
  and renaming, with its allocators, extent trees, directory blocks and checksums;
- the host link: CRC-8 framing, the multi-sector read, the FIFO transport under it, and the restore with its one-deep
  pipeline of writes;
- the hex editor's undo and redo.

`dafny verify dfyconfig.toml` checks everything.

## How it is put together

**Bytes and blocks.** `Bytes`, `Disk` and `Bitmap` hold little-endian fields, numbered blocks with the driver's 32-bit
sector arithmetic, and bitmaps. A `Disk` is the card's bytes seen through a geometry that an open handle never
changes.

**A well-formed file system.** `Volume.WellFormed(d, roles, trees)` is the invariant of everything that follows.
`roles` gives each block at most one use, so that superblock, descriptors, bitmaps, inode tables and the blocks of
each file are disjoint; every block with a role is marked used; `trees` gives each live inode its finite extent tree;
the records of every directory block tile it exactly; every directory entry leads to a live inode. `roles` and `trees`
are ghost state. `Sample` exhibits such a file system, byte by byte: it opens, the handle agrees with the card, its
counts are exact, and files can be created in it.

**The driver.** `Ext4.Ext4Fs` has the fields of the Rust struct and one method for each of its functions, with the
same loops, branches and constants; a few long functions are cut at their loops. Each transfer of sectors is done, or
lost on the way, or done and reported as failed because its answer was lost: `faults` is an arbitrary script of these
fates. A failed transfer may leave a part of its reply in the link, and what a transfer gives after that may be the
reply to another one. `link` keeps track of it: `InStep`, `Failed` after a failed transfer, `Strayed` if it was used
after one. A run is followed no further than that (the transfer fails), and the operations promise nothing then. They
say exactly when it cannot happen: `Orderly` means that a failed transfer is the last one of the operation. It holds
as long as every root of an extent tree that is read is `Rooted` (it parses at once and is not empty), for only then
the driver does not try again; and where one is not, one failure is enough for it to stray. So what a method promises
however it ends holds for every place at which the link can fail, and, with a script that fails from some point on,
for every prefix of the writes. With no failures the methods say exactly when they succeed, whatever the roots.

`CreateFile`, `OverwriteFileData` and `RenameEntry` each keep four predicates, whatever fails on the way, unless they
stray: `Valid` (the file system is well-formed), `MetaSealed` (every group descriptor passes its reader's test, and
opening again accepts the superblock), `Stamped` (every live inode larger than 132 bytes and every directory block
passes its reader's test) and `Refinds` (the descriptors are narrow, and opening again finds the same superblock and
places, up to the counts: `Opening.OpensAgain`). So any sequence of them does, as long as the connection is opened
anew after a failed transfer. `Reopens` (opening again gives exactly the handle's superblock and descriptors) is kept
by overwriting and renaming, and by a successful creation with narrow descriptors. Any successful creation keeps exact
counts exact, and the descriptors' checksums of the bitmaps those of the bitmaps on the card
(`Accounting.MapsSummed`, with the high halves at 44 and 42, where the program puts them; `Accounting.RunExact` for
whole runs).

**Formats.** Where a decoder is used in its own specification, a law of its own says what it makes of bytes that are
written out from fields at literal offsets: `Formats` for superblocks, descriptors, inodes and what the checksums
cover, `Directory.RecordsDecoded`, `Inode.LeavesDecoded`, `Inode.IndicesDecoded` and `Extents.StoredTree`, and
`Device.CommandBytes` and `Device.ResponseBytes` for the link. `NewInode.FreshSlot` does the same for the inode that
a creation writes.

**What operations mean.** `Staging.Created`, `Overwrite.Overwritten` and `Rename.EntryRenamed` say what a successful
operation did to the whole disk. `Paths.Resolve` is where a path leads, `Paths.Follow` where the driver's lookup ends;
they agree unless the path goes on below something that is not a directory (`Paths.FollowMeant`). `CreateLaws` and
`ChangeLaws` turn the operations into statements about every path.

**The link.** `Packets` defines what a byte stream parses to, and what is left of it; `HostLink.Connection` has the
receiving loops, proved equal to that, and a log of the commands that have reached the controller. `Device` is a
deterministic controller. It takes from `hw/spinal/emmcreader/UartBridge.scala:729-797` what answers look like: a
packet with sector data always has status OK; a read is ended, well or not, by one packet without payload, and a
refusal may come after a part of the sectors; a request for the extended CSD is answered by a sector packet and an end
packet, every other command by one packet. A write of a register of the extended CSD sets it. A write of sectors may
be refused after any part of them. A transport call may fail: a read then loses any part of what has arrived, and a
send may have reached the controller all the same.

## Results that are not what one would expect

- **Long names.** `create_file` stores the length of a name in one byte, unchecked. `CreateLaws.CreatedName`: after
  any creation the new name is listed if and only if it has 1 to 255 bytes. `Sample.SampleLongName`: on a concrete
  card, creating a file with a name of 257 bytes succeeds, the path to that name leads nowhere, and the path to its
  first byte leads to the new file.
- **64-bit descriptors.** The high half of a bitmap checksum goes to bytes that `GroupDesc::parse` reads as the high
  halves of the inode table's block number and of a count. `Accounting.ReopenAfter` gives the exact condition under
  which a later open agrees with the handle. No bitmap and no descriptor is safe from it: for each there is a checksum
  seed with which it fails (`Metadata.SomeSeedBreaks`), and one with which the inode table is found elsewhere
  (`Metadata.ReopenMovesTable`); a superblock with the seed feature can store any seed (`Metadata.SeedIsFree`). With
  32-bit descriptors a later open always agrees.
- **Small inodes.** A sealed inode passes the reader's test if and only if the inode is larger than 132 bytes or the
  checksum fits in 16 bits: `Metadata.SealedInodeMatches`. For every inode of 128 bytes there is a seed with which it
  does not: `Metadata.SmallInodeFails`.
- **Renaming.** `rename_entry` does not look whether the new name is taken. `ChangeLaws.RenameExact`: paths mean what
  they meant, up to the exchange of the two names, if and only if a lookup in the renamed listing finds each name
  where the other one was; `ChangeLaws.ExchangedExactly`: if the old name is listed once, that is so if and only if
  the new name was free.
- **Files that read as directories.** The driver's lookup reads whatever a name leads to as a directory.
  `Sample.SampleAstray`: a file of twelve bytes, which can be created, below which the driver finds the root
  directory, under a path that leads nowhere.
- **Lockstep of the link.** A multi-sector read stops at the first packet that is not a good sector and reads no
  further: it consumes its whole reply if and only if all sector packets are good (`Packets.MultiLockstep`); otherwise
  the payload and the checksum of that packet stay, and all that follows (`Packets.MultiAborted`). What the controller
  sends then has no payload, so that one byte stays. `HostLink.Connection.ReadSectors`: from an idle link without
  faults, the link is idle afterwards if and only if at most one sector was asked for or all of them were sent.
  `HostLink.OutOfStep` is the consequence of a range off the card: the byte 0x87 stays, and the next multi-sector
  read, of any range, fails and leaves its own reply unread in full; a receiver that searches for the header, though,
  skips the byte. `HostLink.WrongSectors`: the multi-sector read after that, if it asks for no more sectors, reports
  success and returns the sectors of the reply that was left. Nothing between commands empties the input, so that it
  goes on like this: `HostLink.OneBehind`: after one refusal the next read fails, and every later one returns what the
  read before it asked for. Reads of one sector and of the extended CSD are always in step with this controller;
  `Packets.SingleExact` and `Packets.CsdExact` say what their receivers do with any two packets.
- **A damaged root and a refused read.** `get_extents` reads an inode again, up to three times, when its root does not
  parse or is empty, and takes a failure of that for nothing worse. `Misled.SampleMisled`: on a card whose root
  directory has one wrong byte in its magic, which is well-formed and lets files be created, one refused read during a
  creation makes the driver take the block of inodes for the directory, and the directory block for the bitmap of
  inodes; with that written back as the bitmap, the root directory's inode counts as free. `Ext4.Ext4Fs.GetExtents`
  has the exact condition.
- **Restoring on a link that is not idle.** A failing `enable_cache` is ignored, though it may leave a packet in the
  link: `Restore.CacheLeaves`. `Restore.MatchedExactly`: whatever the controller does, the answers that the restore
  takes are those of its batches, and its success is true, if and only if no packet is left when it starts to write;
  `Restore.FalseReport`: with an accepted packet left, a restore whose last batch is refused reports success.
- **Long commands.** A command arrives as it was sent if and only if its payload is below 64 KiB: the length field is
  cut to 16 bits. `Device.CommandArrives`.
- **Hex editor.** Undo is written as if it could unmark a byte. It never does, for no logged edit leaves its byte as
  it was: `HexEdit.Editor.UndoEdit`.

## Model

| member | source | states |
|---|---|---|
| Crc32c.RawIsSerial | emmc-gui/crates/emmc-core/src/ext4/checksum.rs:27-33 | The table-driven CRC-32C is the bit-serial register of the reflected polynomial 0x82F63B78 (section 12.1 of RFC 3720), for every input and every initial value |
| Crc32c.RawChains | emmc-gui/crates/emmc-core/src/ext4/checksum.rs:27-33 | The CRC of a concatenation is the CRC of the second part started from the CRC of the first |
| Crc32c.BuildTable | emmc-gui/crates/emmc-core/src/ext4/checksum.rs:6-24 | Every entry of the table is its index shifted out bit by bit |
| Crc32c.TableCrc | emmc-gui/crates/emmc-core/src/ext4/checksum.rs:27-33 | The loop over the table computes the specified CRC |
| Crc32c.Backwards | emmc-gui/crates/emmc-core/src/ext4/checksum.rs:27-33 | The register can be run backwards: for all data, every final value is reached from some initial one |
| Crc32c.CheckValue | emmc-gui/crates/emmc-core/src/ext4/checksum.rs:136-141 | The CRC-32C of "123456789" is the published check value 0xE3069283, which fixes the polynomial |
| Metadata.SealedInodeMatches | emmc-gui/crates/emmc-core/src/ext4/file_ops.rs:293-313 | An inode as it is written passes the reader's test if and only if the slot is larger than 132 bytes or the checksum fits its low half |
| Metadata.SmallInodeFails | emmc-gui/crates/emmc-core/src/ext4/file_ops.rs:293-313 | For every inode of 128 bytes there is a seed with which the inode, as it is written, fails the reader's test |
| Metadata.ChecksumIgnoresFields | emmc-gui/crates/emmc-core/src/ext4/checksum.rs:46-81 | The inode checksum does not depend on the bytes that store it |
| Metadata.SealedDirMatches | emmc-gui/crates/emmc-core/src/ext4/file_ops.rs:723-739 | A directory block with its tail rewritten passes the reader's test; the records before the tail are untouched |
| Metadata.UpdatedDescMatches | emmc-gui/crates/emmc-core/src/ext4/file_ops.rs:461-525 | A descriptor written back by an allocation passes the reader's test |
| Metadata.UpdatedDescCarries | emmc-gui/crates/emmc-core/src/ext4/file_ops.rs:487-501 | An allocation stores the halves of the checksum of the bitmap that it changed at 16 and 44, or for inodes at 18 and 42, and the descriptor goes on carrying the checksum of the other bitmap |
| Metadata.UpdatedDescRest | emmc-gui/crates/emmc-core/src/ext4/file_ops.rs:461-525 | Every byte of a descriptor that is neither a count nor a checksum is left as it was |
| Metadata.ReopenedDesc | emmc-gui/crates/emmc-core/src/ext4/superblock.rs:177-207 | Parsing that descriptor again gives the old one with the new counts if and only if the high halves agree |
| Metadata.ReopenMovesTable | emmc-gui/crates/emmc-core/src/ext4/file_ops.rs:493-501 | For every 64-byte descriptor, bitmap and counts there is a checksum seed with which, after an inode allocation has written them back, the inode table is looked for elsewhere |
| Metadata.SomeSeedBreaks | emmc-gui/crates/emmc-core/src/ext4/file_ops.rs:493-501 | For every 64-byte descriptor, bitmap and counts there is a seed with which the high halves disagree |
| Metadata.SeedIsFree | emmc-gui/crates/emmc-core/src/ext4/superblock.rs:121-127 | With the seed feature, a superblock with any other seed stored in it, and its checksum renewed, parses to the same superblock with that seed |
| Metadata.UpdatedSuperKeeps | emmc-gui/crates/emmc-core/src/ext4/file_ops.rs:528-553 | Of the superblock an allocation changes the counts, the high half of the free blocks only if the file system is 64-bit, and the checksum, and no other byte |
| Metadata.ReopenedSuper | emmc-gui/crates/emmc-core/src/ext4/file_ops.rs:528-553 | Parsing the superblock written back by an allocation succeeds and gives the old one with the new counts |
| Formats.SuperDecoded | emmc-gui/crates/emmc-core/src/ext4/superblock.rs:46-174 | Any consistent superblock, written out byte by byte from its fields, parses to exactly these: sizes, features, high halves, the number of groups with a partial last one, and the checksum seed, stored or made from the identifier |
| Formats.SuperAccepted | emmc-gui/crates/emmc-core/src/ext4/superblock.rs:39-152 | 1024 bytes are accepted if and only if they have the magic, some blocks per group and, with the checksum feature, the complement of the CRC of the first 1020 bytes at the end |
| Formats.GroupsHoldAll | emmc-gui/crates/emmc-core/src/ext4/superblock.rs:117-118 | In every accepted superblock the groups hold all blocks, and one group less would not, whenever their number fits 32 bits |
| Formats.DescDecoded | emmc-gui/crates/emmc-core/src/ext4/superblock.rs:177-207 | Any descriptor, written out, parses to its fields: in full if the file system is 64-bit and the descriptor has 64 bytes, and else to the low halves, whatever comes behind them |
| Formats.InodeDecoded | emmc-gui/crates/emmc-core/src/ext4/inode.rs:76-113 | Any slot, written out, parses to its fields; the high half of the size counts for regular files alone |
| Formats.InodeCovers | emmc-gui/crates/emmc-core/src/ext4/checksum.rs:46-81 | The inode checksum is the CRC, from the seed on, of the number, the generation and the whole slot with the two checksum fields zero |
| Formats.DirCovers | emmc-gui/crates/emmc-core/src/ext4/checksum.rs:84-100 | That of a directory block covers the directory's number, its generation and all bytes but the last twelve |
| Formats.DescCovers | emmc-gui/crates/emmc-core/src/ext4/checksum.rs:103-115 | A descriptor passes its reader's test if and only if it stores the low half of the CRC of the group's number and the whole descriptor with the field zero |
| Directory.ParseDirEntries | emmc-gui/crates/emmc-core/src/ext4/directory.rs:6-62 | On arbitrary bytes the loop stops, stays in bounds and lists what the recursive definition lists |
| Directory.RecordsDecoded | emmc-gui/crates/emmc-core/src/ext4/directory.rs:6-62 | Any records with room for their names, written out one after the other, are listed as they are, but for those without an inode or a name and the checksum tail |
| Directory.NamesDisjoint | emmc-gui/crates/emmc-core/src/ext4/directory.rs:6-62 | On arbitrary bytes the listed names lie in the block and do not overlap |
| Directory.Recovers | emmc-gui/crates/emmc-core/src/ext4/directory.rs:21-41 | Shrinking the record lengths of any tightly packed live records to any smaller non-zero values leaves the listing as it was |
| Directory.BlockParse | emmc-gui/crates/emmc-core/src/ext4/directory.rs:6-62 | A well-formed block, with or without a checksum tail, lists exactly its live records in order |
| Directory.FindLast | emmc-gui/crates/emmc-core/src/ext4/file_ops.rs:651-670 | The scan for the last record finds the one that ends at the end of the usable bytes |
| Directory.PatchRecord | emmc-gui/crates/emmc-core/src/ext4/file_ops.rs:695-721 | The in-place edits split the last record, or reuse it if it is empty |
| Directory.InsertLists | emmc-gui/crates/emmc-core/src/ext4/file_ops.rs:651-721 | After the insertion the records still tile the block, and the listing is the old one with exactly the new entry at its end |
| Directory.FindRecord | emmc-gui/crates/emmc-core/src/ext4/file_ops.rs:784-814 | The scan for a name finds the first matching record or none |
| Directory.RenameLists | emmc-gui/crates/emmc-core/src/ext4/file_ops.rs:784-814 | The scan succeeds exactly when the block lists the name; overwriting what it finds renames the first such entry and keeps the tiling |
| Inode.ParseExtentNode | emmc-gui/crates/emmc-core/src/ext4/inode.rs:165-230 | The loops decode exactly the entries that the node has and that fit it, whatever its magic if forced |
| Inode.LeavesDecoded | emmc-gui/crates/emmc-core/src/ext4/inode.rs:186-211 | A leaf written out from any extents that fit it, with 48-bit blocks, parses to these |
| Inode.IndicesDecoded | emmc-gui/crates/emmc-core/src/ext4/inode.rs:212-228 | An index node written out from any keys and 48-bit children that fit it parses to these |
| Inode.BodyIgnoresMagic | emmc-gui/crates/emmc-core/src/ext4/inode.rs:154-181 | What a node holds does not depend on its two magic bytes |
| Extents.KeyedSorted | emmc-gui/crates/emmc-core/src/ext4/file_ops.rs:114-134 | If the keys of a tree of any depth are in order, the extents read from it are sorted by logical block and disjoint |
| Extents.TreeUnique | emmc-gui/crates/emmc-core/src/ext4/file_ops.rs:114-134 | A node unfolds to at most one finite tree |
| Extents.StoredTree | emmc-gui/crates/emmc-core/src/ext4/file_ops.rs:114-134 | If a root, written out, points to blocks that hold leaves, written out, its tree yields exactly the extents of all leaves in order |
| Extents.DamagedRoot | emmc-gui/crates/emmc-core/src/ext4/file_ops.rs:58-111 | With nothing but the root's magic damaged, in the handle or on the disk or both, the extents read are those of the undamaged tree |
| Disk.LbaExact | emmc-gui/crates/emmc-core/src/ext4/mod.rs:67-79 | For each block of a file system that fits the card the 32-bit address arithmetic does not wrap and gives the block's own sectors |
| Slots.SlotPutGet | emmc-gui/crates/emmc-core/src/ext4/file_ops.rs:314-327 | Writing an inode slot is read back, changes one block, and leaves every other slot as it was, in the same block or another, in the same group or another |
| Slots.SlotsApart | emmc-gui/crates/emmc-core/src/ext4/file_ops.rs:314-323 | The slots of different inodes never overlap |
| Alloc.InodeNumberDecodes | emmc-gui/crates/emmc-core/src/ext4/file_ops.rs:373-375 | An inode number encodes one group and one bit, and nothing else encodes it |
| Alloc.BlockNumberDecodes | emmc-gui/crates/emmc-core/src/ext4/file_ops.rs:417-425 | The same for block numbers |
| Alloc.InodeBitWritten | emmc-gui/crates/emmc-core/src/ext4/file_ops.rs:364-368 | Writing the bitmap back sets exactly the bit of the returned inode number, clear before, and no other bit of any bitmap |
| Alloc.BlockBitWritten | emmc-gui/crates/emmc-core/src/ext4/file_ops.rs:408-412 | The same for a block number |
| Bitmap.FindClear | emmc-gui/crates/emmc-core/src/ext4/file_ops.rs:352-380 | The scan by bytes and bits finds the first eligible clear bit, or none when all are set |
| Accounting.NeverTwice | emmc-gui/crates/emmc-core/src/ext4/file_ops.rs:330-432 | Over any run of allocations, with anything between them that frees nothing, no number is returned twice and each was free at the start |
| Accounting.NeverReserved | emmc-gui/crates/emmc-core/src/ext4/file_ops.rs:330-350 | No inode among the first eleven of the first group is given out |
| Accounting.InodeConserves | emmc-gui/crates/emmc-core/src/ext4/file_ops.rs:435-445 | If each group's counts are its clear bits and the totals are the sums, a complete allocation keeps that, and no subtraction saturates |
| Accounting.BlockConserves | emmc-gui/crates/emmc-core/src/ext4/file_ops.rs:448-458 | The same for blocks |
| Accounting.InodeSums | emmc-gui/crates/emmc-core/src/ext4/file_ops.rs:487-501 | If every descriptor carries the CRCs of its two bitmaps as they are on the card, a complete inode allocation keeps that |
| Accounting.BlockSums | emmc-gui/crates/emmc-core/src/ext4/file_ops.rs:487-501 | The same for blocks |
| Accounting.RunExact | emmc-gui/crates/emmc-core/src/ext4/file_ops.rs:330-553 | Over any run of complete allocations and operations that leave the records alone, counts and bitmap checksums stay those of the bitmaps on the card |
| Accounting.InodeHalfway | emmc-gui/crates/emmc-core/src/ext4/file_ops.rs:364-383 | After an allocation that took its bit and stopped, the counts are exact if and only if the handle's counts were already taken down |
| Accounting.BlockHalfway | emmc-gui/crates/emmc-core/src/ext4/file_ops.rs:408-432 | The same for blocks |
| Accounting.NoInodesExact | emmc-gui/crates/emmc-core/src/ext4/file_ops.rs:330-383 | With exact counts an inode allocation fails exactly when no group has an eligible clear bit |
| Accounting.NoBlocksExact | emmc-gui/crates/emmc-core/src/ext4/file_ops.rs:386-432 | The same for blocks |
| Accounting.ReopenAfter | emmc-gui/crates/emmc-core/src/ext4/file_ops.rs:461-553 | After an allocation a later open agrees with the handle if and only if the high halves that it reads are the handle's |
| Accounting.ReopenNarrow | emmc-gui/crates/emmc-core/src/ext4/file_ops.rs:461-553 | With 32-bit descriptors it always agrees |
| Opening.Opened | emmc-gui/crates/emmc-core/src/ext4/mod.rs:28-57 | The contiguous table that opening reads is, group by group, the descriptors that the driver later reads and writes in their blocks |
| Opening.OpensAgain | emmc-gui/crates/emmc-core/src/ext4/mod.rs:20-64 | Where the handle agrees with the card up to the counts, opening again succeeds and finds the same geometry, superblock and descriptors up to the counts; where it agrees altogether, exactly what the handle has |
| Handles.KindredThen | emmc-gui/crates/emmc-core/src/ext4/file_ops.rs:461-553 | With 32-bit descriptors an allocation keeps the agreement up to the counts, however far it gets |
| Handles.CoherentKindred | emmc-gui/crates/emmc-core/src/ext4/mod.rs:20-64 | A handle that agrees with the card agrees with it up to the counts |
| Ext4.Ext4Fs.Open | emmc-gui/crates/emmc-core/src/ext4/mod.rs:20-64 | Succeeds exactly when superblock and descriptor table can be read from the card and parsed, and then has what they say; if the geometry fits the card, that agrees with every descriptor in its block |
| Ext4.Ext4Fs.ReadBlock | emmc-gui/crates/emmc-core/src/ext4/mod.rs:67-72 | On a link in step, reads the block's bytes; a failure leaves the link out of step |
| Ext4.Ext4Fs.WriteBlock | emmc-gui/crates/emmc-core/src/ext4/mod.rs:75-79 | Replaces the block's bytes and nothing else; when it reports a failure, that has happened or nothing has |
| Ext4.Ext4Fs.ReadInode | emmc-gui/crates/emmc-core/src/ext4/file_ops.rs:9-54 | Decodes the slot of the inode; fails for numbers beyond the last group |
| Ext4.Ext4Fs.GetExtents | emmc-gui/crates/emmc-core/src/ext4/file_ops.rs:58-111 | Yields the leaves, left to right, of the tree that the retries settle on; no transfer follows a failed one if the root parses and is not empty, and one does, when the first transfer fails, if and only if it does not |
| Ext4.Ext4Fs.Retry | emmc-gui/crates/emmc-core/src/ext4/file_ops.rs:78-100 | Reads the inode again until its root is good, three times if it never is; a failed read is not an error, and on a link that fails once the next read uses it all the same |
| Ext4.Ext4Fs.ResolveIndices | emmc-gui/crates/emmc-core/src/ext4/file_ops.rs:114-134 | Yields the leaves below any finite tree of indices, left to right, and stops |
| Ext4.Ext4Fs.ReadDirEntries | emmc-gui/crates/emmc-core/src/ext4/file_ops.rs:137-174 | Lists the entries of all blocks of a directory in order |
| Ext4.Ext4Fs.ReadFileData | emmc-gui/crates/emmc-core/src/ext4/file_ops.rs:178-196 | Reads the concatenated blocks, cut to the file's size |
| Ext4.Ext4Fs.AllocInode | emmc-gui/crates/emmc-core/src/ext4/file_ops.rs:330-383 | Takes the first eligible inode of the first group in turn that has one, and records it; a failure leaves everything as it was or the bit taken and the counts taken down or not; fails exactly when every group is out of inodes |
| Ext4.Ext4Fs.AllocBlock | emmc-gui/crates/emmc-core/src/ext4/file_ops.rs:386-432 | The same for blocks |
| Ext4.Ext4Fs.UpdateCounts | emmc-gui/crates/emmc-core/src/ext4/file_ops.rs:435-553 | Counts one allocation in the handle, its group's descriptor and the superblock; all of them keep passing their readers' tests even if it stops half-way |
| Ext4.Ext4Fs.WriteInodeRaw | emmc-gui/crates/emmc-core/src/ext4/file_ops.rs:293-327 | Writes the sealed slot and nothing else; when it reports a failure, that has happened or nothing has |
| Ext4.Ext4Fs.AddDirEntry | emmc-gui/crates/emmc-core/src/ext4/file_ops.rs:622-759 | Inserts into the first block, in file order, whose last record has room, all earlier ones being full; fails exactly when none has; on success the directory's slot has the new change and modification times and is otherwise the old one but for its checksum; when it reports a failure, nothing has changed, or the entry is there and the time stamps are renewed or not |
| Ext4.Ext4Fs.Stage | emmc-gui/crates/emmc-core/src/ext4/file_ops.rs:875-884 | Initialises a taken inode and writes the data before anything names it; no live file differs at any point; the slot on the card has mode 0x81A4, one link, the three times, the blocks in units of 512 bytes, its own number as the generation and the extra size, each at its offset |
| Ext4.Ext4Fs.CreateIn | emmc-gui/crates/emmc-core/src/ext4/file_ops.rs:857-890 | A creation in a given directory: the inode and, if there is data, the block come from the first groups that have any, going round from the directory's own group; succeeds exactly when there are both and some block of the directory has room |
| Ext4.Ext4Fs.CreateFile | emmc-gui/crates/emmc-core/src/ext4/file_ops.rs:843-890 | However it ends, unless the link was used after a failed transfer, the file system is well-formed and all earlier files read as before; the new file is complete and named, or not visible; it says exactly when it succeeds and when the link can stray; all checksums stay valid; after a success inode and block are as `CreateIn` says, the new slot as `Stage` says, the directory has the new times, counts are exact and descriptors carry the checksums of their bitmaps if that was so before; with 32-bit descriptors a later open finds the same places, and after success the same counts; exact counts stay exact on success |
| Ext4.Ext4Fs.OverwriteFileData | emmc-gui/crates/emmc-core/src/ext4/file_ops.rs:199-238 | On success the file holds exactly the data, the rest of its allocation is zero, and nothing but its blocks and its slot changed; on failure nothing but its blocks did, or all is done and only the last answer was lost; unless the link was used after a failed transfer, which takes a root that does not parse or is empty; it says exactly when it succeeds; all checksums stay valid |
| Ext4.Ext4Fs.UpdateInodeSize | emmc-gui/crates/emmc-core/src/ext4/file_ops.rs:241-290 | Writes the slot with the new size, sealed, and nothing else; when it reports a failure, that has happened or nothing has |
| Ext4.Ext4Fs.RenameEntry | emmc-gui/crates/emmc-core/src/ext4/file_ops.rs:765-840 | On success the directory lists the new name where it listed the old one first, and nothing else differs; on failure nothing has changed, or all has and only the answer was lost; unless the link was used after a failed transfer, which takes a root that does not parse or is empty; it succeeds exactly when the lengths agree and the name is listed; all checksums stay valid |
| Ext4.Ext4Fs.Lookup | emmc-gui/crates/emmc-core/src/ext4/mod.rs:110-132 | Follows the path from the root, through files as through directories, and succeeds exactly when every component is listed |
| Ext4.Ext4Fs.Ls | emmc-gui/crates/emmc-core/src/ext4/mod.rs:135-141 | Lists the directory that the lookup ends at, and fails otherwise |
| Ext4.Ext4Fs.Cat | emmc-gui/crates/emmc-core/src/ext4/mod.rs:144-150 | Reads the regular file that the lookup ends at, and fails otherwise |
| NewInode.NewParsed | emmc-gui/crates/emmc-core/src/ext4/file_ops.rs:556-619 | A freshly initialised slot decodes as a regular file of the given size, and every field of it is given at its offset: mode, link count, times, blocks, flags, generation, extra size, and zeros elsewhere |
| NewInode.NewTree | emmc-gui/crates/emmc-core/src/ext4/file_ops.rs:589-606 | Its root is an extent tree with exactly the one data block, if there is one |
| Handles.ParentTouched | emmc-gui/crates/emmc-core/src/ext4/file_ops.rs:742-752 | A complete insertion has set the directory's change and modification times at 12 and 16, and nothing else of its slot but the checksum |
| Publish.NewBlockLists | emmc-gui/crates/emmc-core/src/ext4/file_ops.rs:695-739 | The directory block that is written back is well-formed, tail included, and lists one more entry |
| Publish.Published | emmc-gui/crates/emmc-core/src/ext4/file_ops.rs:741 | The one write of a directory block that names a staged file leads to a well-formed file system with exactly one more file |
| Frames.QuietWellFormed | emmc-gui/crates/emmc-core/src/ext4/file_ops.rs:330-553 | Changes to bitmaps, descriptors, the superblock and unowned blocks keep the file system well-formed and every file as it was |
| Files.SlotWellFormed | emmc-gui/crates/emmc-core/src/ext4/file_ops.rs:293-327 | Writing a slot is visible in that inode alone |
| Overwrite.OwnBlockWritten | emmc-gui/crates/emmc-core/src/ext4/file_ops.rs:216-231 | Writing one data block of a file is invisible to every other file and keeps the file system well-formed |
| Overwrite.AllRewritten | emmc-gui/crates/emmc-core/src/ext4/file_ops.rs:214-231 | The pieces written block by block add up to the data followed by zeros |
| Overwrite.ResizedParse | emmc-gui/crates/emmc-core/src/ext4/file_ops.rs:251-262 | The rewritten slot of a regular file decodes with the new 64-bit size and everything else as before, and no byte of the slot but those of the size has changed |
| Rename.RenamedWellFormed | emmc-gui/crates/emmc-core/src/ext4/file_ops.rs:815-834 | Writing the renamed block back keeps the file system well-formed and renames exactly one entry of the directory |
| Checksums.SlotStamps | emmc-gui/crates/emmc-core/src/ext4/file_ops.rs:293-327 | A slot write leaves that inode with a valid checksum and every other inode and directory block with the one it had |
| Checksums.DirBlockStamps | emmc-gui/crates/emmc-core/src/ext4/file_ops.rs:723-741 | The same for the write of a directory block |
| Checksums.InsertedStamps | emmc-gui/crates/emmc-core/src/ext4/file_ops.rs:723-752 | If all live inodes and directory blocks have valid checksums, so they have after an insertion, complete or stopped half-way |
| Paths.SplitJoin | emmc-gui/crates/emmc-core/src/ext4/mod.rs:111 | Appending a slash and a name to a path appends one component |
| Paths.StepLive | emmc-gui/crates/emmc-core/src/ext4/mod.rs:117-129 | Each name in a live directory leads to a live inode |
| Paths.FollowMeant | emmc-gui/crates/emmc-core/src/ext4/mod.rs:110-132 | A lookup ends where the path leads, or fails where it leads to nothing; only a path below something that is not a directory can go astray |
| CreateLaws.NameFound | emmc-gui/crates/emmc-core/src/ext4/file_ops.rs:699-721 | In a directory that did not list it, the new name is found afterwards if and only if it has 1 to 255 bytes |
| CreateLaws.CreatedName | emmc-gui/crates/emmc-core/src/ext4/file_ops.rs:843-890 | After any creation, in any file system, the directory lists the new name as the new file if and only if it has 1 to 255 bytes; otherwise it does not list it at all |
| CreateLaws.LongNameLost | emmc-gui/crates/emmc-core/src/ext4/file_ops.rs:699-721 | Of a name of 257 bytes, what is listed is its first byte |
| CreateLaws.CreateLaw | emmc-gui/crates/emmc-core/src/ext4/file_ops.rs:843-890 | After a creation the lookup of the path with the name appended ends at the returned inode, which reads back exactly the data if the file system has extents; if the path led to the directory, that is also where the new path leads |
| CreateLaws.OtherPathLaw | emmc-gui/crates/emmc-core/src/ext4/file_ops.rs:843-890 | Every other path leads where it led, and what it leads to, unless it is the directory itself, reads the same; every lookup that ended somewhere ends there still |
| ChangeLaws.OverwriteLaw | emmc-gui/crates/emmc-core/src/ext4/file_ops.rs:199-238 | After an overwrite every path leads where it led; a path to the file reads exactly the new data, everything else reads as before |
| ChangeLaws.RenameLaw | emmc-gui/crates/emmc-core/src/ext4/file_ops.rs:765-840 | When a lookup in the renamed listing finds each of the two names where the other one was, every walk from a live inode, with the two names exchanged in that directory, leads where it led |
| ChangeLaws.RenameExact | emmc-gui/crates/emmc-core/src/ext4/file_ops.rs:765-840 | That law holds for all walks from live inodes if and only if that is so of the listing |
| ChangeLaws.ExchangedExactly | emmc-gui/crates/emmc-core/src/ext4/file_ops.rs:765-840 | For a listing with the old name once, or without the new one, that is so if and only if it has the old name once and the new one not at all |
| Sample.SampleWellFormed | emmc-gui/crates/emmc-core/src/ext4/mod.rs:20-64 | A concrete card of sixteen blocks is a well-formed file system, whatever the first byte of its root directory's extent magic |
| Sample.SampleOpens | emmc-gui/crates/emmc-core/src/ext4/mod.rs:20-64 | Its bytes are accepted by opening, which finds the geometry, superblock and descriptor that the sample states |
| Sample.SampleSound | emmc-gui/crates/emmc-core/src/ext4/file_ops.rs:435-553 | With that handle a later open agrees, every checksum that the driver tests is right, and the counts are the clear bits |
| Sample.SampleCanCreate | emmc-gui/crates/emmc-core/src/ext4/file_ops.rs:843-890 | In its root a file of any name of up to 1016 bytes and of up to a block can be created |
| Sample.SampleLongName | emmc-gui/crates/emmc-core/src/ext4/file_ops.rs:843-890 | Creating a file with a name of 257 bytes in it is possible; after any such creation the path to that name leads nowhere and the path `a` leads to the new file |
| Sample.SampleAstray | emmc-gui/crates/emmc-core/src/ext4/mod.rs:110-132 | A file of twelve bytes can be created in it below which the lookup of `x` ends at the root directory, where that path leads nowhere |
| Misled.SampleMisled | emmc-gui/crates/emmc-core/src/ext4/file_ops.rs:78-100 | With a wrong magic byte, and one refused read, the reads of a creation return the block of inodes for the directory and the directory for the bitmap of inodes; no file system with that as its bitmap is well-formed |
| LinkCrc.BurstDetected | emmc-gui/crates/emmc-core/src/protocol.rs:48-61 | The CRC-8 differs on any two different strings of one length that differ only within eight consecutive bits |
| LinkCrc.Residue | emmc-gui/crates/emmc-core/src/protocol.rs:48-61 | The CRC of data with one more byte is zero if and only if that byte is the data's CRC |
| LinkCrc.ComputeCrc8 | emmc-gui/crates/emmc-core/src/protocol.rs:48-61 | The two loops compute the specified CRC |
| Packets.ReceiveExact | emmc-gui/crates/emmc-core/src/protocol.rs:731-783 | After up to 4096 bytes without 0x55 a packet is received, and exactly the rest of the stream is left |
| Packets.ReceiveLost | emmc-gui/crates/emmc-core/src/protocol.rs:735-750 | After more of them the receiver gives up, having consumed 4097 |
| Packets.DamageNoticed | emmc-gui/crates/emmc-core/src/protocol.rs:766-780 | A burst of at most eight bits in command, status, payload or checksum is always rejected, and the next packet is still in step |
| Packets.MultiExact | emmc-gui/crates/emmc-core/src/protocol.rs:396-471 | The multi-sector read of N good sector packets and a last one consumes exactly these, and yields the sectors, whatever bytes they contain, if the last has status OK |
| Packets.MultiLockstep | emmc-gui/crates/emmc-core/src/protocol.rs:396-471 | For any N sector packets and any last one, the reply is consumed exactly if and only if each of the N has status OK and 512 bytes |
| Packets.MultiAborted | emmc-gui/crates/emmc-core/src/protocol.rs:424-441 | At the first packet that is not so the read fails, and that packet's payload and checksum, and all that follows, stay in the stream |
| Packets.StrayByte | emmc-gui/crates/emmc-core/src/protocol.rs:405-415 | One stray byte before a reply makes a multi-sector read fail at once and leave the whole reply; a receiver that searches for the header skips it |
| Packets.CsdExact | emmc-gui/crates/emmc-core/src/protocol.rs:303-322 | Of any two packets, the receiver of the extended CSD consumes both if and only if the first has status OK and at least 512 bytes |
| Packets.SingleExact | emmc-gui/crates/emmc-core/src/protocol.rs:360-389 | Of any two packets, the receiver of one sector consumes both if and only if the first has status OK |
| Device.CommandArrives | emmc-gui/crates/emmc-core/src/protocol.rs:708-728 | Decoding an encoded command gives it back if and only if its payload is shorter than 64 KiB |
| Device.CommandBytes | emmc-gui/crates/emmc-core/src/protocol.rs:708-728 | The eleven bytes of a read of 0x506 sectors from 0x1020304 on: header, command, length, address and count in big-endian order, checksum |
| Device.ResponseBytes | emmc-gui/crates/emmc-core/src/protocol.rs:731-783 | The six bytes of a refusal |
| HostLink.Connection.SendCommandNoRecv | emmc-gui/crates/emmc-core/src/protocol.rs:708-728 | The controller receives exactly the command if its payload is below 64 KiB, and nothing otherwise; its answer is queued behind what it sent before; a send that fails has had that effect or none |
| HostLink.Connection.RecvResponse | emmc-gui/crates/emmc-core/src/protocol.rs:731-783 | The loops consume and yield exactly what the specification of receiving says |
| HostLink.Connection.ReadSectorsMulti | emmc-gui/crates/emmc-core/src/protocol.rs:396-471 | The same for the reply to a multi-sector read |
| HostLink.Connection.ReadSectors | emmc-gui/crates/emmc-core/src/protocol.rs:348-357 | From an idle link, the sectors are read exactly when the read is granted; the link is idle again if and only if at most one sector was asked for or all were sent, and otherwise one checksum byte is left |
| HostLink.OutOfStep | emmc-gui/crates/emmc-core/src/protocol.rs:396-471 | After a multi-sector read off the card the byte 0x87 is left; the next multi-sector read, of any range, fails and leaves its whole reply; the next command with one answer skips the byte |
| HostLink.WrongSectors | emmc-gui/crates/emmc-core/src/protocol.rs:396-471 | While such a reply is left, the next multi-sector read of no more sectors succeeds and yields the sectors of the reply that was left, whatever range it asked for |
| HostLink.OneBehind | emmc-gui/crates/emmc-core/src/protocol.rs:396-471 | In any sequence of multi-sector reads of one length of which the controller refuses the first, the second fails too, and each later one returns the sectors that the one before it asked for |
| HostLink.Connection.GetExtCsd | emmc-gui/crates/emmc-core/src/protocol.rs:303-322 | From an idle link, the extended CSD is read exactly when the controller gives it; the link is idle again, also after a refusal |
| HostLink.Connection.EnableCache | emmc-gui/crates/emmc-core/src/protocol.rs:661-675 | From an idle link the result tells whether the four bytes of the cache size at 249 are not all zero, and if so register 33 is 1 afterwards; without failing transfers it succeeds exactly when the extended CSD is given, sends a write of register 33 exactly when there is a cache and it is off, and leaves the link idle; the card's sectors are untouched in any case |
| HostLink.Connection.WriteExtCsd | emmc-gui/crates/emmc-core/src/protocol.rs:573-579 | The controller has received command 9 with the register and its value, and the register holds it; a failure has had that effect or none |
| HostLink.Connection.FlushCache | emmc-gui/crates/emmc-core/src/protocol.rs:678-680 | The same for register 32 and the value 1 |
| HostLink.Connection.WriteSectors | emmc-gui/crates/emmc-core/src/protocol.rs:480-519 | From an idle link, however it ends, a prefix of the padded sectors is on the card at their places and nothing else changed; on success it is all of them; it says exactly when it succeeds; a success took one command for each sixteen sectors or part of them |
| HostLink.Connection.SendWriteCommand | emmc-gui/crates/emmc-core/src/protocol.rs:523-531 | Sends a batch, for which one more answer is owed; if the command is not too long the controller has received exactly that batch |
| HostLink.Connection.RecvWriteResponse | emmc-gui/crates/emmc-core/src/protocol.rs:534-540 | Takes the oldest answer and reports its status |
| Device.LandedThen | emmc-gui/crates/emmc-core/src/protocol.rs:496-517 | Batches written one after the other add up to one prefix of the data |
| Restore.RestoreFromFile | emmc-gui/crates/emmc-app/src/operations.rs:906-1014 | In every run, with any cancellation or failure, at most one write is unanswered and nothing but the image's sectors changes; if switching the cache on left the link idle, a failure names the batch that failed, and the card holds a prefix of the file: all confirmed batches and at most a part of the next; without failures, refusals or cancellation it completes exactly when the file fits the card; without failing transfers, however it ends, the cache was asked for and, if it is there and off, switched on first, and the last command that the controller receives is the flush |
| Restore.WriteImage | emmc-gui/crates/emmc-app/src/operations.rs:935-1014 | The same of the loop; on a link with any packets left, without failing transfers or cancellation, it goes exactly as `Course` says; without failing transfers the last command that the controller receives, however it ends, is the flush |
| Restore.TakenInOrder | emmc-gui/crates/emmc-app/src/operations.rs:960-1000 | The packets it takes for answers are those that were left and then those given, in order; it completes only if all of them have status OK |
| Restore.BatchCount | emmc-gui/crates/emmc-app/src/operations.rs:939-981 | A restore that completes has sent one batch for each sixteen sectors or part of them |
| Restore.MatchedExactly | emmc-gui/crates/emmc-app/src/operations.rs:928-1003 | Whatever the controller does, each answer is taken for its own batch and success means that all were accepted, if and only if no packet is left at the start |
| Restore.FalseReport | emmc-gui/crates/emmc-app/src/operations.rs:928-1003 | With packets of status OK left, there is a controller that refuses the last batch of a restore that reports success |
| Restore.CacheLeaves | emmc-gui/crates/emmc-core/src/protocol.rs:303-322 | If the first packet of the extended CSD arrives damaged within eight bits, the request fails and its second packet is left |
| Restore.RestoredBytes | emmc-gui/crates/emmc-app/src/operations.rs:906-957 | A completed restore leaves in each sector from the start to the end of the file the file's bytes of the same position, zero-padded, and no other sector changed |
| Fifo.StrippedAt | emmc-gui/crates/emmc-core/src/transport_fifo.rs:299-309 | The payload of a transfer is every byte but the first two of each 512, once and in order |
| Fifo.PositionsExactly | emmc-gui/crates/emmc-core/src/transport_fifo.rs:299-309 | The positions of payload bytes are all positions but the two status bytes of each packet |
| Fifo.StrippedSplit | emmc-gui/crates/emmc-core/src/transport_fifo.rs:280-309 | A transfer may be split at any packet boundary without changing its payload |
| Fifo.Strip | emmc-gui/crates/emmc-core/src/transport_fifo.rs:299-309 | The stripping loop computes that payload |
| Fifo.Transport.FtdiRead | emmc-gui/crates/emmc-core/src/transport_fifo.rs:280-309 | One bulk read, of just as many packets as the data takes and of no more than 64; what it yields and what is still to come is the payload that was to come |
| Fifo.Transport.ConsumeBuffered | emmc-gui/crates/emmc-core/src/transport_fifo.rs:355-369 | Hands out the next buffered bytes |
| Fifo.Transport.FillBuffer | emmc-gui/crates/emmc-core/src/transport_fifo.rs:372-383 | Buffering more loses and repeats nothing |
| Fifo.Transport.Read | emmc-gui/crates/emmc-core/src/transport_fifo.rs:395-414 | Over any interleaving of calls and any chunking, bytes delivered, then bytes buffered, then payload to come, are all of the payload |
| Fifo.Transport.ReadExact | emmc-gui/crates/emmc-core/src/transport_fifo.rs:416-441 | The same; on success exactly the next bytes, on failure fewer of them are gone |
| HexEdit.UndoAll | emmc-programmer/crates/programmer-engine/src/state.rs:416-424 | After any run from a loaded buffer, undoing everything shows that buffer |
| HexEdit.RedoAll | emmc-programmer/crates/programmer-engine/src/state.rs:426-432 | However one undoes and redoes after an edit that took effect, redoing everything shows that edit's outcome |
| HexEdit.Editor.Marked | emmc-programmer/crates/programmer-engine/src/state.rs:400-432 | After any run every byte that differs from the loaded buffer is marked, and every logged offset is in bounds |
| HexEdit.Editor.ApplyEdit | emmc-programmer/crates/programmer-engine/src/state.rs:400-414 | An edit in bounds that changes its byte drops the later versions and adds one; any other does nothing |
| HexEdit.Editor.UndoEdit | emmc-programmer/crates/programmer-engine/src/state.rs:416-424 | Moves one version back, and unmarks nothing |
| HexEdit.Editor.RedoEdit | emmc-programmer/crates/programmer-engine/src/state.rs:426-432 | Moves one version forward |

## Left out

- Ext4.Ext4Fs.CreateFile: a creation that fails after `alloc_inode` leaves that inode (and block) marked used; the code has no rollback, and only safety is claimed for that case. Of a run in which the link was used after a failed transfer nothing is claimed. Excluded is a parent path whose lookup comes to the number of no live inode.
- Ext4.Ext4Fs.Lookup: excluded is a path on which the bytes of a file, read as directory records, list a name with the number of no live inode: there the driver goes on with an arbitrary slot, and with whatever tree it has.
- Ext4.Ext4Fs.Ls: the same paths are excluded.
- Ext4.Ext4Fs.Cat: the same paths are excluded.
- Ext4.Ext4Fs.OverwriteFileData: stated for live regular files and an inode that agrees with the disk; overwriting a directory would destroy it.
- Ext4.Ext4Fs.RenameEntry: stated for live directories; that the new name may already be listed is not checked by the code, and `ChangeLaws.RenameExact` says what follows.
- ChangeLaws.RenameExact: its walks start from any live inode; of a directory that no path from the root reaches, it says nothing about paths.
- Ext4.Ext4Fs.ResolveIndices: the code follows indices without a depth limit, so its termination rests on the finite tree that a well-formed inode has.
- Ext4.Ext4Fs.WriteBlock: one block is written as one step, done or not; a block torn in the middle is not modelled.
- Ext4.Ext4Fs.ReadBlock: after a failed transfer on the same connection the program may get another block (`HostLink.OneBehind`); the model lets such a read fail and marks the run as strayed.
- Ext4.Ext4Fs.Open: the volume name and UUID are not decoded, checksum warnings of descriptors are not logged, a block size of `1024 << n` for n of 22 or more is taken as 0, and a superblock without blocks per group, on which the program stops, is an error.
- Fifo.Transport.Read: deadlines are part of the script of USB transfers, not a clock.
- HostLink.Connection.ReadSectors: of the controller in `hw/spinal/emmcreader/UartBridge.scala` and `EmmcController.scala` only the form and order of its answers is modelled. A command that cannot be decoded gets no answer, where the controller answers a wrong checksum with an error packet; that it starts writing before a batch has arrived in full, its time-outs, and the link to the card are not modelled.
- HostLink.Connection.WriteSectors: nothing is claimed of the card when answers to earlier commands are still unread, or for a range beyond 32-bit sector numbers, where the sector number wraps around.
- Restore.RestoreFromFile: files beyond the reach of 32-bit sector numbers and a file that changes while it is read are not modelled; nor is the read-back afterwards. A link on which bytes are left that are no packets is covered only by what holds in every run.
- LinkCrc.BurstDetected: bursts are counted from the top bit of each byte, the order in which the register takes them.
- Names are bytes: lossy UTF-8 decoding of names that are not UTF-8 is not modelled.
- Times are an arbitrary parameter; logging, progress messages, retries and sleeps are not modelled.
- Legacy block pointers, unwritten extents, uninitialised groups, hashed directories and the journal are not supported by the code.
- RPMB frames, CID, CSD and ExtCSD decoding, partition tables and the chip database are straight-line decoding.
- Dump and verify loops, mounting, serial and USB opening, and all user interface code are outside the model.
- The copies of the same algorithms under `tools/` are not modelled a second time.
