# HFS Plus for FreeBSD: a Dafny model of the driver core

This project models the core of a read-only HFS Plus file-system driver
for FreeBSD, and proves properties of the model. The model covers the
following parts of the driver:

- **On-disk layout.** The big-endian layouts of the volume header, the
  fork data, the extent descriptors, the B-tree node descriptor and the
  B-tree header record, with decoders and encoders that round-trip.
- **The extent mapper `hfsp_bread_inode`.** It maps a byte offset in a
  fork to an allocation block through the fork's eight inline extents.
  It comes in two variants:
  - the scaled one, in `hfsp_inode.c`, reads whole device sectors through
    the inode's vnode;
  - the unscaled one, in `hfsp_btree.c`, reads the allocation block on
    the device vnode.
- **`hfsp_btree_open`.** It reads the header node of a B-tree file.
- **The VFS operations.**
  - `hfsp_mount`, from the volume-header read on;
  - `hfsp_statfs`;
  - `hfsp_unmount`, which sets and clears MNT_LOCAL;
  - `hfsp_vget_fork`, which builds an in-memory inode from an on-disk
    fork.
- **The vnode operations.**
  - `hfsp_vinit`: the catalog record type picks the vnode type, and the
    root folder is marked VV_ROOT;
  - `hfsp_getattr`.
- **Catalog names.**
  - `hfsp_utf8_wctomb`, the table-driven UTF-8 encoder of one UTF-16
    unit. It is checked against section 3 of RFC 3629 (the bit patterns)
    and section 4 (the well-formedness grammar).
  - `hfsp_uni2asc`, which converts a big-endian UTF-16 catalog name to
    UTF-8.

State the C code changes in place is modelled as Dafny classes:

- `Vnode`, `Inode` (with its `firstExtents` array), `HfspMount` and
  `Mount` in `hfsp.dfy`;
- `Vattr` and `StatFs`;
- `BtreePtr`, which stands for the caller's `struct hfsp_btree **`.

The operations that update them are methods with `modifies` clauses.
Every loop of the source is a method with loop invariants, proved against
a specification function:

- `Extents.LocateBlock`, the extent walk of `hfsp_bread_inode`, against
  `Extents.MapBlock`;
- `Vfsops.CopyExtents`, the extent copy of `hfsp_vget_fork`, against
  `Vfsops.MemForkOf`;
- `Utf8.SelectRow`, the table walk of `hfsp_utf8_wctomb`, against
  `Utf8.Utf8Length` and `Utf8.Fits`;
- `Utf8.StoreSequence`, the byte writer of `hfsp_utf8_wctomb`, and
  `Utf8.Wctomb`, which runs both, against `Utf8.Utf8Encode`;
- `Names.ConvertPrefix`, the loop of `hfsp_uni2asc`, against
  `Names.Encoded` and `Names.Converted`.

The loop of `hfsp_uni2asc` as written is also modelled on values, as
`Names.Step` (one pass) and `Names.Run` (passes repeated), so that its
defects can be stated exactly.

Device reads and kernel allocation are not executed. Instead:

- a mapper returns the read it would issue (`ReadRequest`);
- the outcome of a read or an allocation is a parameter;
- the bytes a read returns are a parameter as well.

A few things in the source are read a certain way, or noted:

- In `hfsp_btree.c:22`, the variant without scaling clears `blockCount`,
  a name it never declares. The intended statement is clearly
  `blkCount = 0`. The model starts the running total at zero.
- `hfsp_btree.c:65-70` assigns `btree`, but the declared local is
  `btreep`. The model reads it as `btreep`.
- `hfsp_mount` does not check the volume signature or version.
  `Layout.KnownVolume` states what a check would accept, but the mount
  model does not apply it, just as the source does not.
- The mount never sets `hm_fileCount`, so statfs reports zero files.
- `hfsp_vget_fork` never sets the inode's `hi_mount`, so the inode it
  returns has a null mount.
- `hm_physBlockSize`, which the scaled mapper divides by, is not a member
  of `struct hfspmount` (`hfsp.h:129-140`). The model adds it as a field
  and requires it to be positive.
- `first_extents`, which the mappers and `hfsp_vget_fork` index
  (`hfsp_inode.c:41`, `hfsp_btree.c:32`, `hfsp_vfsops.c:167-168`), is not
  a member of `struct hfsp_fork` as declared (`hfsp.h:116-119`), and
  `struct hfsp_inode` is declared nowhere in the sources. The model's
  `Inode` takes both from how the .c files use them: the fork's size,
  block total and eight inline extents, `hi_cnid`, `hi_record`,
  `hi_mount` and `hi_vp`.

## Model

| member | source | states |
|---|---|---|
| Bytes.BE16Enc16 | hfsp_debug.c:66 | A 16-bit field read back big-endian from where it was stored gives the stored value, whatever bytes surround it. |
| Bytes.BE32Enc32 | hfsp_vfsops.c:121-123 | A 32-bit field read back big-endian from where it was stored gives the stored value. |
| Bytes.BE64Enc64 | hfsp_vfsops.c:163 | A 64-bit field read back big-endian from where it was stored gives the stored value. |
| Bytes.Enc16BE16 | hfsp_debug.c:66 | Encoding the value read from two bytes gives back those two bytes, so the decoder loses nothing. |
| Bytes.Enc32BE32 | hfsp_vfsops.c:121-123 | Encoding the value read from four bytes gives back those bytes. |
| Bytes.Enc64BE64 | hfsp_vfsops.c:163 | Encoding the value read from eight bytes gives back those bytes. |
| Bytes.Signed32 | hfsp.h:132-134 | The two's-complement reading of a 32-bit pattern lies in the range of `__int32_t`. |
| Bytes.Signed8Agrees | hfsp.h:84-85 | The signed reading of a byte equals its unsigned value exactly when the top bit is clear. |
| Bytes.Signed16Agrees | hfsp.h:86-87 | The signed reading of a 16-bit field equals its unsigned value exactly when the top bit is clear. |
| Bytes.Signed32Agrees | hfsp.h:58-60 | The signed reading of a 32-bit field equals its unsigned value exactly when the top bit is clear. |
| Layout.SignatureLetters | hfsp.h:14-16 | The H+, HX and plain-HFS BD signature words are exactly the ASCII letters 'H','+', 'H','X' and 'B','D' in the header's first two bytes. |
| Layout.MountVersionLetters | hfsp.h:21-23 | The last-mounted-version words are exactly the ASCII letters "10.0", "HFSJ" and "FSK!" in the four bytes they occupy. |
| Layout.DecodeExtent | hfsp.h:27-30 | An extent descriptor is its start block and block count, two big-endian 32-bit words. |
| Layout.DecodeEncodeExtent | hfsp.h:27-30 | An extent descriptor stored as two big-endian words reads back as itself. |
| Layout.EncodeDecodeExtent | hfsp.h:27-30 | Re-encoding a decoded descriptor gives back its 8 bytes. |
| Layout.DecodeEncodeExtents | hfsp.h:32 | A run of descriptors stored back to back reads back as the same run. |
| Layout.EncodeDecodeExtents | hfsp.h:32 | Re-encoding n decoded descriptors gives back their 8n bytes. |
| Layout.DecodeExtentsAt | hfsp_vfsops.c:167-168 | Descriptor i of a record is the one that starts 8*i bytes in. |
| Layout.DecodeForkData | hfsp.h:34-40 | A fork data record is a 64-bit logical size, the clump size and block total, then eight extent descriptors at byte 16; the decoded fork always holds eight extents. |
| Layout.DecodeEncodeForkData | hfsp.h:34-40 | An 80-byte fork data record (size, clump size, block total, eight extents) reads back as itself at any offset. |
| Layout.EncodeDecodeForkData | hfsp.h:34-40 | Re-encoding a decoded fork data record gives back its 80 bytes. |
| Layout.VolumeIdentityAt | hfsp.h:44-48 | In the encoded volume header the signature, version, attributes, last-mounted version and journal block sit at bytes 0, 2, 4, 8 and 12. |
| Layout.VolumeDatesAt | hfsp.h:50-53 | The creation, modification, backup and check dates sit at bytes 16, 20, 24 and 28. |
| Layout.VolumeCountsAt | hfsp.h:55-60 | In the encoded volume header the file and folder counts, block size, total blocks and free blocks sit at bytes 32, 36, 40, 44 and 48. |
| Layout.VolumeAllocationAt | hfsp.h:62-68 | The next allocation, the two clump sizes, the next catalog id and the write count sit at bytes 52 to 68, and the 64-bit encodings bitmap at byte 72. |
| Layout.FinderInfoAt | hfsp.h:70 | The 32 Finder bytes are bytes 80 to 111. |
| Layout.SpecialForksAt | hfsp.h:72-76 | The five special-file forks sit at bytes 112, 192, 272, 352 and 432 of the volume header. |
| Layout.DecodeVolumeHeader | hfsp.h:43-77 | The volume header is read field by field in declaration order with no padding, and the decoded header has 32 Finder bytes and five forks of eight extents each. |
| Layout.EncodeDecodeVolumeIdentity | hfsp.h:44-48 | Bytes 0 to 15 of any block are the encoding of the five identity fields read from them. |
| Layout.EncodeDecodeVolumeDates | hfsp.h:50-53 | Bytes 16 to 31 are the encoding of the four dates read from them. |
| Layout.EncodeDecodeVolumeCounts | hfsp.h:55-60 | Bytes 32 to 51 are the encoding of the five counts read from them. |
| Layout.EncodeDecodeVolumeAllocation | hfsp.h:62-68 | Bytes 52 to 79 are the encoding of the allocation fields and the encodings bitmap read from them. |
| Layout.EncodeDecodeSpecialForks | hfsp.h:72-76 | Bytes 112 to 511 are the encoding of the five forks read from them. |
| Layout.EncodeDecodeVolumeHeader | hfsp.h:43-77 | Every 512-byte block is the encoding of the header decoded from it, so the decoder loses no byte. |
| Layout.DecodeEncodeVolumeHeader | hfsp.h:43-77 | A volume header laid out packed in declaration order decodes back to itself. |
| Layout.DecodeNodeDescriptor | hfsp.h:81-88 | A node descriptor is two big-endian 32-bit links, the kind and height bytes and two big-endian 16-bit counts, 14 bytes in all. |
| Layout.DecodeEncodeNodeDescriptor | hfsp.h:81-88 | A 14-byte node descriptor reads back as itself at any offset. |
| Layout.NodeDescriptorViewsAgree | hfsp_btree.h:2-9 | The signed declaration in hfsp.h and the unsigned one in hfsp_btree.h read the same numbers exactly when both links are below 2^31, the height is below 128 and both counts are below 2^15. |
| Layout.DecodeEncodeWords | hfsp.h:107 | A run of big-endian 32-bit words reads back as itself. |
| Layout.HeaderTreeAt | hfsp.h:93-97 | The tree depth, root node, leaf record count and first and last leaf nodes sit at bytes 0, 2, 6, 10 and 14 of the header record. |
| Layout.HeaderNodesAt | hfsp.h:98-102 | The node size, maximum key length, total and free node counts and reserved1 sit at bytes 18, 20, 22, 26 and 30. |
| Layout.HeaderKeysAt | hfsp.h:103-106 | The clump size, B-tree type, key compare type and attributes sit at bytes 32, 36, 37 and 38. |
| Layout.HeaderReservedAt | hfsp.h:107 | The sixteen reserved words start at byte 42. |
| Layout.DecodeHeaderRec | hfsp.h:92-108 | The header record is read field by field in declaration order with no padding, and holds sixteen reserved words. |
| Layout.EncodeDecodeWords | hfsp.h:107 | n words read from any bytes encode back to those 4n bytes. |
| Layout.EncodeDecodeReserved | hfsp.h:107 | The reserved words of a decoded record encode back to bytes 42 to 105. |
| Layout.EncodeDecodeHeaderTree | hfsp.h:93-97 | Bytes 0 to 17 of a record are the encoding of the tree fields read from them. |
| Layout.EncodeDecodeHeaderNodes | hfsp.h:98-102 | Bytes 18 to 31 are the encoding of the node fields read from them. |
| Layout.EncodeDecodeHeaderKeys | hfsp.h:103-106 | Bytes 32 to 41 are the encoding of the clump size, the two type bytes and the attributes read from them. |
| Layout.EncodeHeaderRecFields | hfsp.h:92-108 | A record whose fields are the ones read from 106 bytes encodes back to those bytes. |
| Layout.EncodeDecodeHeaderRec | hfsp.h:92-108 | Every 106-byte record is the encoding of the record decoded from it, so the decoder loses no byte. |
| Layout.DecodeEncodeHeaderRec | hfsp.h:92-108 | A header record laid out packed decodes back to itself. |
| Extents.BlocksBefore | hfsp_inode.c:39-49 | The running total `blkCount` before extent i: the blocks of extents 0 to i-1. |
| Extents.ExtentIndex | hfsp_inode.c:39-49 | The extent that holds a fork block, found by peeling off leading extents; always a valid index. |
| Extents.MapBlock | hfsp_inode.c:45 | The allocation block is the selected extent's start block plus the fork block's distance into that extent. |
| Extents.ExtentIndexIff | hfsp_inode.c:39-49 | Extent i is selected exactly when the fork block lies at or after the blocks of the extents before i and before the end of extent i. |
| Extents.ExtentIndexNone | hfsp_inode.c:51-55 | No extent is selected exactly when the fork block is at or past the total of all eight extents. |
| Extents.SelectedIsFirst | hfsp_inode.c:42-46 | The selected extent is the first whose running total passes the block: every earlier running total is at most the block. |
| Extents.EmptyExtentNeverSelected | hfsp_inode.c:42 | An extent with no blocks is never selected. |
| Extents.MapBlockInExtent | hfsp_inode.c:45 | The mapped allocation block lies inside the selected extent. |
| Extents.BlocksBeforeMonotone | hfsp_inode.c:48 | The running block total never decreases along the extents. |
| Extents.LocateBlock | hfsp_inode.c:39-49 | The loop finds a block exactly when the specification maps the fork block, and then it finds the block the specification gives. |
| Extents.TruncatedReadLength | hfsp_inode.c:26 | The read length as written: the size divided by the sector size, rounded down, at least 1, times the sector size. |
| Extents.TruncatedReadLengthShort | hfsp_inode.c:26 | As written, the read length falls short of the request whenever the size is more than one sector and not a whole number of sectors. |
| Extents.ReadLength | hfsp_inode.c:11-16 | The read length the comment's sector granularity calls for: the size rounded up to whole sectors, at least one sector. |
| Extents.ReadLengthCovers | hfsp_inode.c:11-16 | The corrected read length is a whole number of sectors, at least one sector and at least the request. For a non-empty request it is less than one sector more than the request. |
| Extents.ReadLengthsAgree | hfsp_inode.c:26 | The corrected and the as-written lengths agree on sizes that are whole sectors. |
| Extents.BreadInode | hfsp_inode.c:17-58 | The call fails with EBADF past the end of the fork, or with EINVAL when no inline extent holds the block. Otherwise it reads on the inode's vnode at the mapped block times the sectors per block, for the length of line 26 as written: the request rounded down to whole sectors, at least one. |
| Extents.BreadInodeRoundedUp | hfsp_inode.c:11-58 | The same errors and the same start sector, but the read is the request rounded up to whole sectors, so it covers the request and is a whole number of sectors. |
| Extents.BreadInodeDevice | hfsp_btree.c:13-49 | The same errors. Otherwise it reads on the device vnode at the mapped allocation block, for the caller's size. |
| Extents.ScaledReadStartsAtBlock | hfsp_inode.c:28-30 | When the block size is a whole number of sectors, the sector the read starts at (the block mapped for the offset, times the sectors per block), taken in bytes, is that allocation block's byte offset. |
| BTree.DecodeHeaderNode | hfsp_btree.c:74-75 | The buffer is viewed as a node descriptor followed, at byte 14, by a header record with its 16 reserved words. |
| BTree.DecodeEncodeHeaderNode | hfsp_btree.c:72-75 | A descriptor followed by a header record fills the 120 bytes read, and both views give them back. |
| BTree.BTreeOpen | hfsp_btree.c:51-78 | A failed allocation gives ENOMEM and a null `*btreepp`. Otherwise the call fails with EBADF or EINVAL as the mapper does, or it requests 120 bytes at the fork's first mapped block, gives the read's error, and decodes the header node only when the read succeeded. |
| BTree.HeaderNodeIsFirstBlock | hfsp_btree.c:72 | The block read is the start block of the first extent that has any blocks, because all extents before it are empty. |
| Utf8.Utf8Encode | hfsp_debug.c:16-18 | A unit takes one byte below 0x80, two below 0x800 and three otherwise, as the first three table rows give. |
| Utf8.DecodeEncode | hfsp_debug.c:14-23 | Decoding the encoder's bytes gives back the code unit, so the encoding is injective. |
| Utf8.EncodeWellFormed | hfsp_debug.c:14-23 | The bytes are well-formed RFC 3629 UTF-8 exactly when the unit is not a surrogate. |
| Utf8.EncodeShape | hfsp_debug.c:42-49 | The lead byte is never a continuation byte, and every later byte is one. |
| Utf8.RowHolds | hfsp_debug.c:37-41 | Table row t is a live row, and it holds the unit exactly when the unit's sequence has t+1 bytes. |
| Utf8.LeadByte | hfsp_debug.c:43 | The lead byte the row computes is the first byte of the RFC 3629 encoding. |
| Utf8.ContinuationByte | hfsp_debug.c:46-48 | Each continuation byte computed is the matching byte of the encoding. |
| Utf8.StoreSequence | hfsp_debug.c:42-50 | The bytes written at the destination are exactly the encoding, and no other byte of the array changes. |
| Utf8.SelectRow | hfsp_debug.c:35-53 | The row walk gives the sequence length when the allowance fits it (or is negative), and -1 otherwise. |
| Utf8.Wctomb | hfsp_debug.c:25-54 | A null destination gives 0. Otherwise the call gives the length of the encoding and writes it, or gives -1 and writes nothing. No byte outside the written range changes. |
| Names.EncodedStep | hfsp_debug.c:66-69 | The bytes of n+1 units are those of n units followed by those of unit n, which number one to three. |
| Names.PiecesNonEmpty | hfsp_debug.c:67-69 | Every unit converts to at least one byte, NUL included. |
| Names.FitCountFits | hfsp_debug.c:64 | The greedy count's prefix fits in len bytes, or is empty. |
| Names.FitCountMaximal | hfsp_debug.c:64 | One unit more than the greedy count does not fit in len bytes. |
| Names.ConcatGrows | hfsp_debug.c:72-73 | Every further unit adds at least one byte, and the bytes already converted stay a prefix. |
| Names.ConvertedIsLongest | hfsp_debug.c:64 | The converted prefix fits in len bytes (or is empty), and no longer prefix does. |
| Names.FitCountIs | hfsp_debug.c:64 | The greedy count is the unique n whose prefix fits while n+1 units do not. |
| Names.AsciiEncoded | hfsp_debug.c:76-81 | A name of ASCII units converts to one byte per unit, each byte equal to its unit. |
| Names.AsciiUnitBytes | hfsp_debug.c:78 | An ASCII unit is copied as the single byte that holds its value. |
| Names.AsciiConvertsWhole | hfsp_debug.c:76-87 | An ASCII name with room for every unit converts whole. |
| Names.WriteUnit | hfsp_debug.c:67-81 | One unit's bytes are written at the output index when they fit in the allowance, with their count as the result. Otherwise the result is -1 and nothing is written. |
| Names.PutUnit | hfsp_debug.c:66-75 | Writing unit `process` extends the converted output by exactly that unit's bytes, or reports -1 when they would pass the allowance. |
| Names.Advance | hfsp_debug.c:64-81 | One corrected pass either moves both indices past one unit and shrinks the allowance by its bytes, or stops on a unit that does not fit. |
| Names.ConvertPrefix | hfsp_debug.c:62-82 | The loop leaves the bytes of the first `process` units at the front of the buffer and the rest unchanged. It stops only at the end of the name or where one unit more would not fit. |
| Names.Uni2Asc | hfsp_debug.c:56-88 | The buffer holds the longest prefix that fits, followed by its old contents. The result is EINVAL exactly when more than the last unit is missing. |
| Names.Step | hfsp_debug.c:66-81 | One pass as written: a non-ASCII or NUL unit is encoded at `astrp + process`, then both `process` and `left` grow by its length, and a unit that does not fit changes nothing. An ASCII unit is stored at its index and uses one byte. |
| Names.Run | hfsp_debug.c:64-82 | The loop as written, repeated while units and allowance remain, for at most a given number of passes. |
| Names.Uni2AscAsWritten | hfsp_debug.c:56-88 | hfsp_uni2asc as written: EINVAL when more than the last unit is unconverted, 0 otherwise, with the bytes stored. |
| Names.AsciiRunFinishes | hfsp_debug.c:64-81 | On an ASCII name with room for every unit, the loop as written copies the remaining units one by one and stops at the end of the name. |
| Names.AsciiOutNext | hfsp_debug.c:78 | Storing unit k at index k extends the bytes of the first k units to those of k+1 units. |
| Names.AsWrittenAgreesOnAscii | hfsp_debug.c:64-87 | On an all-ASCII name with len at least its length, the code as written finishes with 0 and stores exactly the corrected conversion's bytes, which cover the whole name. |
| Names.NulNeverFinishes | hfsp_debug.c:64-75 | As written, a lone NUL with one byte of room never finishes: no number of passes ends the loop. |
| Names.RunStuck | hfsp_debug.c:64-75 | A running state that a pass leaves unchanged runs forever. |
| Names.SkipsUnit | hfsp_debug.c:69-72 | As written, "éAB" gives C3 A9 42: the 'A' is skipped, while the corrected conversion gives C3 A9 41 42. |
| Names.WritesPastLen | hfsp_debug.c:73 | As written, "éAA" with len 2 stores a byte at astrp[2], past the caller's len bytes. |
| Names.AsciiStep | hfsp_debug.c:76-81 | As written, an ASCII unit is stored at its own index and uses one byte of the allowance. |
| Vnops.VTypeAsWritten | hfsp_vnops.c:97-100 | The guard as written: types below 20 index the five-entry table, reading past it from 5 to 19, and every other type gives VBAD. |
| Vnops.RecordVType | hfsp_vnops.c:21 | Folders map to VDIR and type 2 to VCHR. Types 0, 3 and 4 map to VNON, and every other type maps to VBAD. Each of these holds in both directions. |
| Vnops.GuardAdmitsPastTable | hfsp_vnops.c:97-98 | The byte-size guard admits record type 5, which the five-entry table does not hold. |
| Vnops.VTypeAgreesOutsideGap | hfsp_vnops.c:97-100 | The guard as written and the corrected mapping agree exactly outside record types 5-19. |
| Vnops.Vinit | hfsp_vnops.c:94-104 | The vnode type is the mapped record type. The root folder's vnode gains VV_ROOT, other vnodes keep their flags, and nothing else changes. |
| Vnops.RootMarkKeepsOtherFlags | hfsp_vnops.c:103 | Marking the root sets VV_ROOT and leaves every other flag as it was. |
| Vnops.FolderSize | hfsp_vnops.c:41 | `hrfo_valence + 2` in 32-bit unsigned arithmetic. |
| Vnops.FolderSizeCountsDots | hfsp_vnops.c:41 | A folder's size is its valence plus 2 for "." and "..". Only the two largest valences wrap around in 32 bits. |
| Vnops.Getattr | hfsp_vnops.c:23-45 | The call reports the device as fsid, the catalog node id as file id and the vnode's type. A folder also reports its three dates with zero nanoseconds and its size; other records leave those fields alone. The result is 0. |
| Vfsops.HeaderCounts | hfsp_vfsops.c:121-123 | The three counts are the decoded volume header's block size, total blocks and free blocks, each read as a signed 32-bit number. |
| Vfsops.MarkLocal | hfsp_vfsops.c:134 | MNT_LOCAL is added to the mount's flags, and its data and fsid are untouched. |
| Vfsops.VfsMount | hfsp_vfsops.c:115-138 | The read issued is 512 bytes at device block 2, one whole volume header. A failed read leaves the mount alone and returns its error. Otherwise a fresh zero-filled hfspmount holds the decoded header's three counts, the device and its vnode. The fsid is (device, type number), MNT_LOCAL is set and the result is 0. |
| Vfsops.InstallMount | hfsp_vfsops.c:119-134 | A fresh zero-filled hfspmount gets the three counts, the device and its vnode and becomes the mount's data; the fsid is (device, type number) and MNT_LOCAL is added to the flags. |
| Vfsops.ReportedCount | hfsp_vfsops.c:211-214 | A header count reaches statfs unchanged exactly when its top bit is clear. Otherwise it comes out sign-extended into the upper 32 bits. |
| Vfsops.ToU64 | hfsp_vfsops.c:211-213 | A signed 32-bit count stored into a 64-bit unsigned statfs field: negative values wrap modulo 2^64. |
| Vfsops.VfsStatfs | hfsp_vfsops.c:203-217 | Block size, total and free blocks and file count are reported as 64-bit unsigned values of the hfspmount fields, and the result is 0. |
| Vfsops.VfsUnmount | hfsp_vfsops.c:219-240 | The mount's data becomes null, MNT_LOCAL is cleared, the fsid is kept and the result is 0. |
| Vfsops.LocalFlagRoundTrip | hfsp_vfsops.c:237 | Setting MNT_LOCAL and then clearing it restores the flags exactly when MNT_LOCAL was clear before. |
| Vfsops.MemForkOf | hfsp_vfsops.c:163-169 | The in-memory fork always holds eight extents. |
| Vfsops.MemForkDropsClump | hfsp_vfsops.c:163-169 | Decoding an encoded fork gives the in-memory fork of the original, and the clump size makes no difference to it. |
| Vfsops.CopyExtents | hfsp_vfsops.c:165-169 | After the loop the inode's eight extents are the decoded on-disk extents. |
| Vfsops.CopyFork | hfsp_vfsops.c:163-169 | The inode's size, block total and extents become the in-memory form of the on-disk fork, and its mount, vnode, cnid and record are kept. |
| Vfsops.VgetFork | hfsp_vfsops.c:153-193 | A failed getnewvnode or insmntque gives its error and a null vnode. Otherwise a fresh vnode's data is a fresh inode holding the decoded fork, with a null mount, and the result is 0. |

## Left out

- Kernel plumbing is not modelled because it computes nothing the driver keeps: path lookup (`namei`), GEOM (`g_vfs_open`, `g_vfs_close`, topology locks), `MNT_ILOCK`, `vfs_mountedfrom`, `mnt_kern_flag`, `hm_cp`, `brelse`, `vrele` and the `uprintf` messages.
- Device I/O is not executed. A mapper returns the read it would issue, and the outcome and bytes of a read are parameters.
- Allocation failures (`malloc`, `uma_zalloc`, `getnewvnode`, `insmntque`) are parameters.
- The `hfsp_readdir` and `hfsp_reclaim` vnode operations are not modelled, nor are the zone setup in `hfsp_init`, the debug printers in `hfsp_debug.c` and the device glue in `hfspdev.c`. They lie outside the modelled core.
- Overflow extents are not modelled. The source has no lookup in the extents B-tree, so a block past the inline extents gives EINVAL.
- Concurrency and locking are not modelled.
- VfsMount: begins at the volume-header read. The failures before it (path lookup, opening the GEOM consumer) are not modelled.
- BreadInode: requires `0 <= size < 2^31` and that `fileOffset + size` does not wrap in 64 bits. Callers pass small positive sizes.
- BreadInode: the 32-bit `int` locals `blkOffsetFile`, `blkCount`, `blk` and `blk * blkFactor` are unbounded integers here, so truncation of huge offsets is not modelled.
- BreadInode: requires positive block and sector sizes. The source divides by both unchecked, and the mount never sets `hm_physBlockSize`.
- BreadInodeRoundedUp: has the same requirements as BreadInode.
- BreadInodeDevice: has the same size, wrap-around and positive-block-size requirements as BreadInode.
- BTreeOpen: the source dereferences `bp` even when the read failed or never happened. The model decodes only a buffer that a successful read filled.
- BTreeOpen: the allocated `struct hfsp_btree` has no declared fields, so its leak is not modelled.
- Getattr: the valence is taken to be a `u_int32_t`, because `struct hfsp_record_folder` is not part of this model's sources.
- Uni2AscAsWritten: the as-written loop is run for a given number of passes (fuel), and None means it is still running after that many.
- Wctomb: only 16-bit units reach the encoder, so table rows 4 to 6 (four- to six-byte sequences) are never selected. They are present in the table but no contract speaks of them.

## Findings

| source | as written | input that shows it | evidently intended | confidence | as-written member | corrected member |
|---|---|---|---|---|---|---|
| hfsp_inode.c:26 | the read length is `size / physBlockSize` sectors, rounded down | size 700 with 512-byte sectors reads 512 bytes | round up, so the whole request is read | not executed | Extents.BreadInode | Extents.BreadInodeRoundedUp |
| hfsp_debug.c:73 | after a multi-byte unit the allowance grows by the bytes written (`left += size`) | "éAA" with len 2: the 'A' is stored at astrp[2] | the allowance shrinks by the bytes written | not executed | Names.WritesPastLen | Names.Uni2Asc |
| hfsp_debug.c:69-72 | `process` is both the input unit index and the output byte index | "éAB" with len 10 gives C3 A9 42, and the 'A' is never read | separate input and output indices | not executed | Names.SkipsUnit | Names.ConvertPrefix |
| hfsp_debug.c:64-75 | when the encoder gives -1 nothing changes and the loop repeats | a lone NUL unit with len 1 never finishes | stop at the first unit that does not fit | not executed | Names.NulNeverFinishes | Names.ConvertPrefix |
| hfsp_vnops.c:97 | the guard compares the record type with the table's size in bytes (20) | record type 5 reads past the five-entry table | compare with the number of entries (5) | not executed | Vnops.GuardAdmitsPastTable | Vnops.Vinit |
