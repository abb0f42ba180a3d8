# lambutter, modelled and proved

lambutter is a read-only btrfs reader. It turns a byte device into files through a stack of layers, and each
layer is meant to agree with something much simpler:

| layer | files here | what it is compared with |
|---|---|---|
| logical-to-physical map | `ChunkMap`, `LogicalRead`, `ChunkTree`, `ChunkWalk` | a linear scan over the stored ranges; one device byte per logical address |
| tree blocks and B-tree search | `Node`, `TreeBlock`, `BlockLayout`, `Btree`, `TreeSpec` | the block as it was laid out; a linear search over the flattened leaves |
| scans | `Scan` | filtering every item of the flattened tree |
| file content | `FileExtent`, `FileContent`, `FileSpec`, `FileReader`, `Compression` | each other on any disk; one function from positions to bytes on good extent lists |
| directories, subvolumes, paths | `DirEntry`, `Directory`, `Subvolume`, `Path` | one entry per index item; the live ROOT_ITEM of each subvolume; splitting on "/" |
| LZO container, CRC32C name hash | `Lzo`, `Checksum` | the writer's layout; the bit-by-bit register |
| everything together | `Mount`, `Mirror` | growth of the map it reads through; the other device of a mirror |

`dafny verify dfyconfig.toml` checks the project.

## How the model is built

* Each layer is a function (its specification) and, where the source runs loops or updates state, a method
  proved equal to that function. `ChunkMap` and the path iterator `Components` are classes, the name-hash table
  and the buffer of `ReadFileAt` are arrays.
* A layer takes the one below it as a function value: a `Store` is what `ReadTreeBlock` computes for each
  address, a `Search` is what `SearchFirstGe` computes in one tree, an `Env` is what `ReadThroughChunks` and the
  decoders compute. What it needs of that value is a predicate (`Sane`, `SaneSearch`, `Consistent`), and
  `Mount.dfy` and `Compression.dfy` prove each of these for every device and every ordered map.
* `Err` results carry the source's error and token. Most layers carry two kinds of statements:
  what holds on arbitrary, damaged or cyclic contents, and what holds on well-formed ones.

Assumptions:

* `usize` is 64 bits; integers are unbounded with the source's checked, saturating and wrapping operations written
  out. `regular.offset + in_extent_offset` (`src/file.rs:495`) is unchecked in the source and is modelled as the
  wrapping sum of a release build.
* The device is a fixed byte sequence; a read outside it is an error. Allocation succeeds, except that a file size
  above `isize::MAX` is refused as the source's reservation refuses it.
* The node size is between 4096 and 65536, which the superblock loader checks (`src/superblock.rs:147-148`).
* `parse_system_chunk_array` needs `used <= array.len()`. `src/lib.rs:173-174` passes the size found on disk without
  checking it, so this stays a precondition of `ParseSystemChunkArray`.
* The overflow branches of `resolve` and of the lower neighbour in `insert` cannot be taken, because every stored
  range ends inside the address space; the invariant `Ordered` says so and the model omits them.
* zlib, zstd and the LZO1X segment decoder are deterministic partial functions.

## Properties that fail, and when they hold

* `read_file_at` can return wrong bytes: the offset into a decoded extent is an unchecked 64-bit sum, so a compressed
  extent with `offset + num_bytes` above 2^64 comes round to its first decoded bytes, where `read_file` refuses it
  (`WrappedSlice`). `SlicesTrueExactly` shows that every slice of an extent is its content if and only if it does not
  wrap, and `RangeReadIsFile` carries that to whole files.
* Streaming a file with `read_file_at` can fail although `read_file` succeeds: an inline extent that declares more
  than it decodes to is zero-filled by one and refused by the other (`ShortFileReads`, `ShortFileRangeFails`).
  `RangesSucceedExactly` gives the exact condition; whenever both succeed they agree (`RangeIsSliceOfFile`).
* The LZO decoder asks for a whole free sector before each segment, so a container whose plaintext is under
  16 MiB can be refused (`ShortSegmentsRefused`). `PlainIsConcat` gives the exact condition and `FullSectorsFit`
  shows that what a writer produces, one sector per segment, always meets it.
* `insert` can refuse a range that shares no address with any stored one, when a zero-length range lies inside it
  (`EmptyRangeBlocks`). `InsertExact` gives the exact condition, which for non-empty ranges is disjointness
  (`LeavesRoomIsDisjoint`).

## Model

| member | source | states |
|---|---|---|
| `TreeSpec.FindFirstGeCorrect` | src/btree.rs:229-254 | On every well-formed tree of at most 16 interior levels, `find_first_ge` gives exactly the first item of the flattened leaves at or past the target, inside the leaf that holds it, or None when there is none |
| `TreeSpec.FindExactCorrect` | src/btree.rs:197-221 | On every such tree `find_exact` is lookup in the flattened leaves, in both directions |
| `TreeSpec.SeparatorStarts` | src/btree.rs:259-291 | When a descent ends before the end of a subtree, descending again on the separator it carried, from whatever level, reaches the leaf right behind it |
| `TreeSpec.FlattenInOrder` | src/btree.rs:160-192 | The flattened leaves of a well-formed tree are strictly ascending and within the tree's bounds |
| `Btree.FindFirstGeSound` | src/btree.rs:229-254 | On any store, cyclic ones included, an answer is a real item at or past the target in a leaf whose keys ascend |
| `Btree.FindFirstGeBehind` | src/btree.rs:229-254 | When the leaf reached has nothing for the target, an answer is the first item of the leaf behind the separator, strictly past the target |
| `Btree.FindExactSound` | src/btree.rs:197-221 | On any store an answer has exactly the target's key |
| `Btree.FindFirstGeMonotone` | src/btree.rs:229-254 | A search that succeeds keeps its answer when more blocks become readable |
| `Btree.DescendToLeaf` | src/btree.rs:259-291 | The loop computes the specified descent and reads at most 17 blocks, whatever the pointers say |
| `Btree.BinarySearchInterior` | src/btree.rs:298-324 | The binary search gives the rightmost child whose separator is at most the target, or the first child |
| `Btree.BinarySearchLeaf` | src/btree.rs:330-352 | The binary search gives the first index at or past the target of a linear scan, or None |
| `Btree.SearchFirstGe` | src/btree.rs:229-254 | The two-descent search computes its specification on any store |
| `Btree.SearchExact` | src/btree.rs:197-221 | The exact search computes its specification on any store |
| `TreeBlocks.ReadTreeBlock` | src/btree.rs:106-154 | Reading a block through any number of chunks, with checksum, address and key-order refusals in the source's order |
| `TreeBlocks.ValidateKeysStrictlyAscending` | src/btree.rs:160-192 | The loop reports the first key that does not parse or does not exceed the one before it |
| `TreeBlocks.OrderFaultSound` | src/btree.rs:160-192 | A block that passes has every key in bounds and all keys pairwise ascending |
| `TreeBlocks.OrderFaultComplete` | src/btree.rs:160-192 | Every block with such keys passes |
| `TreeBlocks.NodeAtAscends` | src/btree.rs:106-192 | Every block that is read, from any device, has its keys in order |
| `TreeBlocks.NodeAtGenuine` | src/btree.rs:106-154 | Every block that is read carries the CRC of its body, its own address at byte 48, and as many items and the level its header says |
| `BlockLayouts.LeafRoundTrip` | src/btree.rs:46-80 | A leaf laid out with header, item table and data tails reads back as exactly its records |
| `BlockLayouts.InteriorRoundTrip` | src/btree.rs:86-101 | An interior block laid out with header and pointer table reads back as exactly its pointers |
| `BlockLayouts.LeafItemRoundTrip` | src/format/repr.rs:307-316 | A packed leaf item parses back at any offset |
| `BlockLayouts.KeyPtrRoundTrip` | src/format/repr.rs:330-343 | A packed key pointer parses back at any offset |
| `DiskFormat.KeyRoundTrip` | src/format/repr.rs:193-212 | A packed key parses back at any offset |
| `DiskFormat.KeyRankOrders` | src/format/repr.rs:213-228 | The key order is the order of one number, so scans that raise the key terminate |
| `Machine.LeRoundTrip` | src/le.rs:13-40 | Writing a number little-endian and reading it is the identity on numbers that fit |
| `ChunkMaps.Resolve` | src/chunk_tree.rs:223-265 | On every ordered map, zero-length ranges included, the binary search resolves exactly as a linear scan does |
| `ChunkMaps.CoveringUnique` | src/chunk_tree.rs:223-265 | In an ordered map at most one range holds any address, and the scan finds it |
| `ChunkMaps.TranslateMonotone` | src/chunk_tree.rs:223-265 | An address that resolves keeps resolving to the same place in every ordered map that holds the old ranges |
| `ChunkMaps.TranslateExact` | src/chunk_tree.rs:223-265 | In an ordered map an address resolves if and only if a chunk covers it whose profile bits are single, RAID1, DUP, RAID1C3 or RAID1C4, with a stripe on the local device at which the address fits 64 bits |
| `ChunkMaps.TranslateIs` | src/chunk_tree.rs:82-103 | It then resolves to the first such stripe in order, as far in as the address is into the chunk, with the rest of the chunk contiguous |
| `ChunkMaps.TranslateRefuses` | src/chunk_tree.rs:82-103 | Each refusal by its token: unmapped, RAID0, RAID10, RAID5, RAID6, unknown profile, no stripes, other device, overflow |
| `ChunkMaps.TranslateInsideStripe` | src/chunk_tree.rs:82-103 | The resolved piece lies inside a stripe of the covering chunk, on the local device when one is set |
| `ChunkMaps.InsertExact` | src/chunk_tree.rs:184-218 | Insertion succeeds if and only if the end fits and every stored range leaves room; it keeps order and adds that one range |
| `ChunkMaps.InsertRefuses` | src/chunk_tree.rs:184-218 | Which of the two tokens a refused range gets, from the stored ranges alone |
| `ChunkMaps.LeavesRoomIsDisjoint` | src/chunk_tree.rs:184-218 | For non-empty ranges leaving room is having no address in common |
| `ChunkMaps.EmptyRangeBlocks` | src/chunk_tree.rs:184-218 | A concrete range that is refused although it shares no address with the stored one |
| `ChunkMaps.OrderedIsCanonical` | src/chunk_tree.rs:184-218 | An ordered map of non-empty ranges is determined by which ranges it holds |
| `ChunkMaps.InsertOrderIrrelevant` | src/chunk_tree.rs:184-218 | Inserting pairwise disjoint ranges succeeds in every order and gives one and the same map |
| `ChunkMaps.ChunkMap.Insert` | src/chunk_tree.rs:184-218 | The method decides from two neighbours what the specification decides from all, keeps the invariant, and leaves the map unchanged on error |
| `ChunkMaps.ChunkMap.Contains` | src/chunk_tree.rs:356-360 | True exactly when some stored range starts at the address |
| `ChunkMaps.ChunkMap.SetLocalDevid` | src/chunk_tree.rs:119-121 | Records the device and keeps the ranges |
| `LogicalRead.XlatePiecewise` | src/chunk_tree.rs:223-265 | Translation through any ordered map is piecewise linear with non-empty pieces inside the address space |
| `LogicalRead.ReadThroughChunks` | src/file.rs:662-683 | The loop terminates, never overflows its cursor, gives the per-byte translation of the range or the first fault, and issues exactly the specified device reads |
| `LogicalRead.ReadsWhenAllReadable` | src/file.rs:662-683 | A range read succeeds if and only if every single byte of it is mapped and on the device |
| `LogicalRead.FaultIs` | src/file.rs:662-683 | A failed range read reports the first piece, behind readable bytes only, that does not resolve or leaves the device |
| `LogicalRead.ReadLogicalSlice` | src/file.rs:662-683 | A sub-range of a readable range reads as the matching slice |
| `LogicalRead.ReadLogicalMonotone` | src/file.rs:662-683 | Enlarging the map keeps every read that worked |
| `LogicalRead.ReadsStayLocal` | src/chunk_tree.rs:82-103 | Every device read of a range read lies inside a stripe of the local device |
| `ChunkTrees.ParseSystemChunkArray` | src/chunk_tree.rs:128-178 | The loop feeds the map record by record, stops at the first damaged one, and keeps what it had inserted |
| `ChunkTrees.ReadRecord` | src/chunk_tree.rs:128-178 | One record of the array, with the source's four refusals |
| `ChunkTrees.ArrayRoundTrip` | src/chunk_tree.rs:128-178 | Reading the packed array of any non-empty, pairwise disjoint chunks gives exactly those mappings, sorted, with all stripes in order |
| `ChunkTrees.ArrayCutInKey` | src/chunk_tree.rs:128-178 | An array that ends inside a key is refused, with the mappings before it kept |
| `ChunkTrees.ItemRoundTrip` | src/format/repr.rs:366-392 | A packed chunk header parses back field by field |
| `ChunkTrees.StripesRoundTrip` | src/format/repr.rs:401-415 | Packed stripes parse back, all of them, in order |
| `ChunkWalks.PopulateFromChunkTree` | src/chunk_tree.rs:276-353 | The loop terminates on any device and leaves the map and error of the specified walk, searching through the map as filled so far |
| `ChunkWalks.AbsorbItem` | src/chunk_tree.rs:301-336 | One item: parse, skip a start already known, insert the mapping that `MappingExact` pins otherwise |
| `ChunkWalks.MappingExact` | src/chunk_tree.rs:302-329 | A CHUNK_ITEM gives a mapping if and only if its key and bytes are that chunk's packed record, with any bytes behind it |
| `ChunkWalks.MappingRoundTrip` | src/format/repr.rs:366-415 | A packed chunk reads back with its length, type, stripe length and all stripes |
| `ChunkWalks.WalkedGrows` | src/chunk_tree.rs:276-353 | No mapping is ever lost during the walk |
| `ChunkWalks.WalkedIsHarvest` | src/chunk_tree.rs:276-353 | A successful walk over a tree that is well formed under the final map is one pass over its flattened leaves |
| `ChunkWalks.HarvestComplete` | src/chunk_tree.rs:299-338 | After such a pass every chunk item has a mapping, every old mapping is kept, each new start holds the packed chunk of its first item, and nothing else was added |
| `Mounts.PopulateComplete` | src/chunk_tree.rs:276-353 | On a real device: when filling succeeds and the tree is well formed under the map it ends with, with no key at offset u64::MAX, the map holds every packed chunk from the start key on and bootstrap entries win |
| `Mounts.PopulateTranslates` | src/chunk_tree.rs:276-353 | Afterwards every address of a chunk whose start was new translates to its first local stripe's offset plus its distance into the chunk |
| `Mounts.PopulateKeepsTranslations` | src/chunk_tree.rs:276-353 | On any device no address that resolved before filling resolves elsewhere afterwards |
| `Mounts.StoreSane` | src/btree.rs:106-154 | The blocks of every volume satisfy what the searches require |
| `Mounts.MountRangeIsSlice` | src/file.rs:267-388 | On any device and any ordered map, when both readers succeed on an inode the range is the slice of the file |
| `Mounts.MountReadsFile` | src/file.rs:164-388 | On a device, for a regular file that the tree holds: `read_file` succeeds exactly when the extent list is whole and gives the per-byte file; `read_file_at` gives bytes of that file unless an extent wraps |
| `Mirrors.RangesAgree` | src/file.rs:662-683 | With equal copies of every chunk, a logical range that reads on both devices reads the same |
| `Mirrors.SearchesAgree` | src/btree.rs:197-254 | Searches that succeed on both devices give the same answer |
| `Mirrors.MirrorFilesAgree` | src/file.rs:164-258 | A file that reads on both devices has the same contents on both |
| `Mirrors.MirrorWalksAgree` | src/resolve.rs:39-50 | A path that resolves on both devices resolves to the same inode |
| `Scans.ScanExact` | src/dir.rs:62-116 | The re-descending scan meets exactly the items of one object and type, each once, in key order, across leaf boundaries and key gaps |
| `Scans.SearchInSane` | src/btree.rs:229-254 | Searches of any store give a scan what it needs to terminate |
| `FileReaders.RangeIsSliceOfFile` | src/file.rs:164-388 | On arbitrary contents, when both readers succeed, `read_file_at` gives min(buffer, rest of file) bytes and they are the file's bytes from the offset on |
| `FileReaders.ReadFile` | src/file.rs:164-258 | The nested loops compute the specified appending read and terminate on any tree |
| `FileReaders.ReadFileAt` | src/file.rs:267-388 | The nested loops fill the buffer with the specified range, leave the rest of it untouched on success, and terminate on any tree |
| `FileReaders.ApplyExtent` | src/file.rs:535-658 | One extent of any kind appended to the output, with every refusal |
| `FileReaders.CopyExtentSlice` | src/file.rs:416-519 | The wanted slice lands in its window of the buffer and nothing outside is written |
| `FileReaders.SliceExtent` | src/file.rs:319-371 | One turn of the slicing reader: skip, zero-fill the gap, copy, with the saturating end |
| `FileReaders.ReadMetadata` | src/file.rs:53-98 | The inode's metadata, with the placeholder directory of an unlinked subvolume |
| `FileReaders.MetadataIs` | src/file.rs:53-98 | The metadata of an inode held as a packed INODE_ITEM, and the placeholder for inode 2 |
| `FileReaders.InodeRoundTrip` | src/format/repr.rs:440-462 | A packed inode reads back as its size, mode, owners, links and generation |
| `FileReaders.RegularMode` | src/file.rs:164-195 | A mode is a file's exactly when its type digit is octal 10 |
| `FileReaders.FileOfInode` | src/file.rs:164-195 | Both readers of a held regular file read its extents up to the size the inode records |
| `FileReaders.TooLarge` | src/file.rs:164-195 | A size above isize::MAX is refused before any extent is read |
| `FileReaders.NotAFile` | src/file.rs:267-300 | Both readers refuse anything that is not a regular file, except with an empty buffer |
| `FileContents.ReadersAgree` | src/file.rs:196-255 | The two readers stay in step over any stream of items: what the slicing reader has is what the appending reader has of the range |
| `FileContents.FullReadKeeps` | src/file.rs:521-533 | The result has the file's size and never changes what was appended |
| `FileExtents.CopiedAgrees` | src/file.rs:416-519 | For one extent of any kind, a slice copied is that slice of what the appending reader emits |
| `FileExtents.EmittedLength` | src/file.rs:391-409 | No extent emits more than the length it declares |
| `FileExtents.ExtentRoundTrip` | src/format/repr.rs:600-641 | Every inline and regular extent parses back from its item |
| `FileExtents.ParseExtentExact` | src/file.rs:33-42 | An item has an extent if and only if its header and tail are there, it is not encrypted and its type is 0, 1 or 2 |
| `FileSpec.BothReadTheFile` | src/file.rs:309-387 | On every disjoint, sound, mapped extent list both readers succeed and give the per-byte file: zero in gaps, holes and preallocated extents, else the device or decoded byte the item's fields name |
| `FileSpec.FullReadIsFile` | src/file.rs:196-257 | On any disk `read_file` succeeds if and only if the extents up to the file size are in order, inside the file and acceptable by their fields, and then gives the per-byte file |
| `FileSpec.RangeReadIsFile` | src/file.rs:309-387 | On any disk whose extents do not wrap, `read_file_at` gives the per-byte file and fills the whole request |
| `FileSpec.HolesAreZero` | src/file.rs:580-585 | Preallocated extents and holes read as zeros in both readers, whatever lies on the disk |
| `FileSpec.EmittedBytes` | src/file.rs:535-658 | What is appended for one extent, byte by byte, from the fields of its item |
| `FileSpec.SlicesTrueExactly` | src/file.rs:493-515 | Every slice of an extent is its content, on every disk, if and only if its offset does not wrap |
| `FileSpec.WrappedSlice` | src/file.rs:493-515 | An extent that wraps has a slice that is not its content |
| `FileSpec.RangesSucceedExactly` | src/file.rs:309-387 | When `read_file` succeeds, `read_file_at` succeeds on every range of the file if and only if no extent is a short inline one or an out-of-bounds empty one |
| `FileSpec.StreamingReproduces` | src/file.rs:267-388 | Concatenating `read_file_at` calls with any positive buffer size gives `read_file`'s bytes |
| `FileSpec.ShortFileReads` | src/file.rs:521-533 | A concrete two-byte file that `read_file` reads by zero-filling |
| `FileSpec.ShortFileRangeFails` | src/file.rs:427-449 | On the same file `read_file_at` fails |
| `Compression.EnvConsistent` | src/file.rs:662-683 | What a volume and the decoders give file reads is consistent: any range reads the same in any pieces |
| `Compression.DecompressBy` | src/compression/mod.rs:40-54 | Which decoder each algorithm byte reaches, and that all others are refused |
| `Compression.LzoExtentReads` | src/compression/mod.rs:40-54 | An LZO extent laid out by the writer decompresses to its plaintexts |
| `Lzo.RoundTrip` | src/compression/lzo.rs:33-83 | Decoding any non-empty segments, laid out with the fewest zeros that keep each header in one sector, and any trailing bytes, is decoding the segments in turn |
| `Lzo.PadIsGap` | src/compression/lzo.rs:51-58 | The reader skips exactly the fewest bytes after which a header lies in one sector |
| `Lzo.ZeroHeaderEnds` | src/compression/lzo.rs:63-67 | A header of length zero ends the container, whatever lies behind it |
| `Lzo.TruncatedRefused` | src/compression/lzo.rs:59-72 | A container that ends inside a segment or its header is refused |
| `Lzo.PlainIsConcat` | src/compression/lzo.rs:74-80 | Segments that decode give the concatenated plaintexts if and only if each finds room for a whole sector |
| `Lzo.FullSectorsFit` | src/compression/lzo.rs:74-80 | One-sector segments meet that condition whenever their plaintext is within 16 MiB |
| `Lzo.ShortSegmentsRefused` | src/compression/lzo.rs:74-80 | Short segments with less than 16 MiB of plaintext that are refused |
| `Lzo.DecodedCapped` | src/compression/lzo.rs:33-83 | On any input the output only grows and never exceeds 16 MiB |
| `Lzo.Decode` | src/compression/lzo.rs:33-83 | The loop terminates, stays in bounds and computes the specification on any input |
| `Checksum.Crc32cWithSeed` | src/checksum.rs:40-46 | The table-driven loop equals the bit-by-bit Castagnoli register for every seed and name |
| `Checksum.GenerateTable` | src/checksum.rs:51-69 | Each of the 256 entries is eight bit steps of its index |
| `Checksum.TableIdentity` | src/checksum.rs:40-46 | Eight bit steps of a register are one table lookup and one shift |
| `Checksum.SeedInjective` | src/checksum.rs:40-46 | For every name, different seeds give different hashes |
| `Checksum.SeedSurjective` | src/checksum.rs:40-46 | For every name, every hash value is reached from some seed |
| `Checksum.NamesInOneWindow` | src/checksum.rs:40-46 | Two equal-length names that differ only inside four consecutive bytes hash differently |
| `Checksum.HashOfTilde` | src/checksum.rs:40-46 | The name hash of one concrete name, which fixes seed and polynomial |
| `Checksum.CrcOfDel` | src/checksum.rs:25-27 | The CRC32C of one concrete byte, which fixes initial and final value |
| `Directories.ListingExact` | src/dir.rs:50-119 | On a well-formed tree a listing succeeds exactly when every DIR_INDEX item of the directory reads, and has one entry per item in key order |
| `Directories.PackedEntryShows` | src/dir.rs:75-106 | A packed DIR_INDEX record is listed with its own name, inode number and kind, and leads where its location says |
| `Directories.ListingLooksUp` | src/dir.rs:50-119 | When DIR_ITEM and DIR_INDEX agree, every listed entry shows its record and looks up by name to the same inode, colliding chains included |
| `Directories.LookupFindsInode` | src/resolve.rs:54-97 | A name whose DIR_ITEM chain packs a record of an ordinary inode looks up to exactly that inode number in the directory's tree |
| `Directories.ListingKeepsPairs` | src/dir.rs:75-106 | On any disk every listed inode is where its record leads and is paired with its own subvolume's tree |
| `Directories.ReadDir` | src/dir.rs:50-119 | The nested loops compute the specified listing and terminate on any tree |
| `DirEntries.EntryRoundTrip` | src/format/repr.rs:549-583 | A packed entry parses back anywhere and points at the record behind it |
| `DirEntries.ChainFindsPacked` | src/resolve.rs:72-96 | Walking a packed chain is searching the list of its records |
| `DirEntries.FirstNamedUnique` | src/resolve.rs:72-96 | With unique unencrypted names the record is found wherever it stands in the chain |
| `DirEntries.WalkChain` | src/resolve.rs:72-96 | The loop over one DIR_ITEM computes the specified walk and terminates on any bytes |
| `Subvolumes.WalkKeepsPairs` | src/resolve.rs:39-149 | Every inode of a successful walk from a paired start is paired with the live ROOT_ITEM of its subvolume, and each step leads where a record of that name in the directory's DIR_ITEM leads |
| `Subvolumes.DefaultIsPaired` | src/root_tree.rs:48-98 | Opening at the default subvolume gives a paired start |
| `Subvolumes.DefaultOpens` | src/root_tree.rs:48-76 | With a packed chain under "default", the first record of that name decides the subvolume, else the superblock's hint with 0 and 6 standing for 5; it opens at inode 256 of the tree its live ROOT_ITEM records |
| `Subvolumes.SubvolRootExact` | src/root_tree.rs:81-98 | A subvolume opens if and only if the root tree's first item from its key on is its ROOT_ITEM with non-zero references at byte 216; the tree root is that at byte 176 |
| `Subvolumes.LinksExact` | src/root_tree.rs:105-135 | A link holds if and only if the ROOT_REF found is that directory's and name's packed record |
| `Subvolumes.TargetExact` | src/resolve.rs:103-149 | An entry's target is an inode if and only if the entry leads there: the named inode in the same tree, a linked subvolume's inode 256, or inode 2 when unlinked |
| `Subvolumes.InodeTarget` | src/resolve.rs:103-115 | An entry of an ordinary inode always has a target: that inode number, same subvolume, same tree |
| `Subvolumes.RefRoundTrip` | src/root_tree.rs:105-135 | A written ROOT_REF, whatever follows it, matches exactly the links with its directory and name |
| `Subvolumes.ResolveJoined` | src/resolve.rs:39-50 | Resolving "a/b" is resolving a and then b from there, for all byte strings |
| `Subvolumes.ResolvePath` | src/resolve.rs:39-50 | The loop over the component iterator computes the walk over all components |
| `Subvolumes.WalkDefault` | src/root_tree.rs:151-188 | The loop over the default entry's chain, passing over encrypted records |
| `Paths.Components.Next` | src/path.rs:67-93 | Each call gives the first remaining component and leaves the rest, or ends with nothing left |
| `Paths.ComponentsJoin` | src/path.rs:67-93 | The components of a + "/" + b are those of a followed by those of b |
| `Paths.ComponentsRoundTrip` | src/path.rs:67-93 | Any list of names, spelled as a path, gives back those names |
| `Paths.ComponentsAreNames` | src/path.rs:67-93 | Every component is non-empty, is not ".", and holds no "/" |
| `Paths.SplitFaithful` | src/path.rs:15-21 | The split the components are defined by rejoins to the path, with no "/" in any part |

## Left out

- Superblock loading, mirror selection and feature-flag refusals (`src/superblock.rs`, `src/format/flags.rs`): single-branch checks that would add only easy members.
- zlib, zstd and the LZO1X inner decoder: wrappers around other crates, kept as deterministic partial functions.
- The metadata CRC32C of the `crc` crate is taken to be the CRC32C of section 12.1 of RFC 3720; that crate's own code is not modelled.
- `read_link`, the mode tests of `Metadata`, error display and the public wrappers of `src/lib.rs`: one branch each.
- Allocation failure: `try_reserve` tokens other than the `isize::MAX` refusal of `read_file`, and Cargo feature gating.
- In-place growth: output that the source appends to a `Vec` it was lent (`apply_extent`, LZO `decode`, `read_through_chunks`) is a returned sequence here; only `ReadFileAt` and its helpers write into an array. What a failed call leaves in such a vector is not modelled.
- `ReadFileAt`: says nothing about buffer contents when it fails, as the source promises nothing.
- The claim at `src/path.rs:49-53` that a non-absolute string yields no components: the iterator does not enforce it, so it is not stated.
- `BlockRead` implementations other than the byte slice, the inspect example, fuzz targets and fixture scripts.
