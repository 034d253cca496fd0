/** The packed on-disk structures of hfsp.h and hfsp_btree.h, following
    Apple Technical Note TN1150 "HFS Plus Volume Format" (sections "Volume
    Header", "Fork Data Structure", "Node Descriptor" and "Header Record").
    Each structure has a decoder that reads its fields big-endian at fixed
    offsets and an encoder that lays the fields out back to back in
    declaration order; the round-trip lemmas show that the offsets are
    exactly those of the packed layout. */
module Layout {
  import opened Bytes

  // Volume signatures and versions (hfsp.h:13-24).
  const kHFSSigWord: bv16 := 0x4244           // 'BD'
  const kHFSPlusSigWord: bv16 := 0x482B       // 'H+'
  const kHFSXSigWord: bv16 := 0x4858          // 'HX'
  const kHFSPlusVersion: bv16 := 0x0004
  const kHFSXVersion: bv16 := 0x0005
  const kHFSPlusMountVersion: bv32 := 0x3130_2E30   // '10.0'
  const kHFSJMountVersion: bv32 := 0x4846_534A      // 'HFSJ'
  const kFSKMountVersion: bv32 := 0x4653_4B21       // 'FSK!'

  /** A volume the driver is meant for: HFS Plus with version 4, or HFSX
      with version 5 or later. */
  predicate KnownVolume(signature: bv16, version: bv16)
  {
    (signature == kHFSPlusSigWord && version == kHFSPlusVersion) ||
    (signature == kHFSXSigWord && version >= kHFSXVersion)
  }

  /** The signature is stored as its two ASCII letters, 'H' then '+' or
      'X' (or 'B','D' for a plain HFS volume), in the header's first two
      bytes. */
  lemma SignatureLetters(s: seq<byte>)
    requires |s| >= 2
    ensures BE16(s, 0) == kHFSPlusSigWord <==> s[0] == 'H' as byte && s[1] == '+' as byte
    ensures BE16(s, 0) == kHFSXSigWord <==> s[0] == 'H' as byte && s[1] == 'X' as byte
    ensures BE16(s, 0) == kHFSSigWord <==> s[0] == 'B' as byte && s[1] == 'D' as byte
  {
    assert s == [s[0], s[1]] + s[2..];
    assert BE16(s, 0) == BE16([s[0], s[1]], 0);
  }

  /** The last-mounted-version word is stored as its four ASCII letters:
      "10.0" for Mac OS X, "HFSJ" for a journaled volume, "FSK!" after a
      failed journal replay. */
  lemma MountVersionLetters(s: seq<byte>, o: nat)
    requires o + 4 <= |s|
    ensures BE32(s, o) == kHFSPlusMountVersion <==> s[o..o + 4] == ['1' as byte, '0' as byte, '.' as byte, '0' as byte]
    ensures BE32(s, o) == kHFSJMountVersion <==> s[o..o + 4] == ['H' as byte, 'F' as byte, 'S' as byte, 'J' as byte]
    ensures BE32(s, o) == kFSKMountVersion <==> s[o..o + 4] == ['F' as byte, 'S' as byte, 'K' as byte, '!' as byte]
  {
    var w := s[o..o + 4];
    assert w == [s[o], s[o + 1], s[o + 2], s[o + 3]];
    assert BE32(s, o) == BE32(w, 0);
  }

  const EXTENT_DESCRIPTOR_SIZE: nat := 8
  /** Descriptors in an HFSPlusExtentRecord. */
  const EXTENT_RECORD_LENGTH: nat := 8
  const FORK_DATA_SIZE: nat := 80
  const VOLUME_HEADER_SIZE: nat := 512
  const NODE_DESCRIPTOR_SIZE: nat := 14
  const HEADER_REC_SIZE: nat := 106

  /** HFSPlusExtentDescriptor: a run of allocation blocks. */
  datatype ExtentDescriptor = ExtentDescriptor(startBlock: bv32, blockCount: bv32)

  /** HFSPlusForkData. */
  datatype ForkData = ForkData(
    logicalSize: bv64,
    clumpSize: bv32,
    totalBlocks: bv32,
    extents: seq<ExtentDescriptor>)

  predicate ValidForkData(f: ForkData)
  {
    |f.extents| == EXTENT_RECORD_LENGTH
  }

  function DecodeExtent(s: seq<byte>, o: nat): ExtentDescriptor
    requires o + EXTENT_DESCRIPTOR_SIZE <= |s|
  {
    ExtentDescriptor(BE32(s, o), BE32(s, o + 4))
  }

  function EncodeExtent(e: ExtentDescriptor): (r: seq<byte>)
    ensures |r| == EXTENT_DESCRIPTOR_SIZE
  {
    Enc32(e.startBlock) + Enc32(e.blockCount)
  }

  /** The n descriptors stored back to back from s[o]. */
  function DecodeExtents(s: seq<byte>, o: nat, n: nat): (r: seq<ExtentDescriptor>)
    requires o + EXTENT_DESCRIPTOR_SIZE * n <= |s|
    ensures |r| == n
    decreases n
  {
    if n == 0 then [] else [DecodeExtent(s, o)] + DecodeExtents(s, o + EXTENT_DESCRIPTOR_SIZE, n - 1)
  }

  function EncodeExtents(es: seq<ExtentDescriptor>): (r: seq<byte>)
    ensures |r| == EXTENT_DESCRIPTOR_SIZE * |es|
  {
    if es == [] then [] else EncodeExtent(es[0]) + EncodeExtents(es[1..])
  }

  function DecodeForkData(s: seq<byte>, o: nat): (f: ForkData)
    requires o + FORK_DATA_SIZE <= |s|
    ensures ValidForkData(f)
  {
    ForkData(BE64(s, o), BE32(s, o + 8), BE32(s, o + 12),
             DecodeExtents(s, o + 16, EXTENT_RECORD_LENGTH))
  }

  function EncodeForkData(f: ForkData): (r: seq<byte>)
    requires ValidForkData(f)
    ensures |r| == FORK_DATA_SIZE
  {
    Enc64(f.logicalSize) + Enc32(f.clumpSize) + Enc32(f.totalBlocks) + EncodeExtents(f.extents)
  }

  // ---------------------------------------------------------------------
  // Round trips

  lemma DecodeEncodeExtent(e: ExtentDescriptor, pre: seq<byte>, post: seq<byte>)
    ensures DecodeExtent(pre + EncodeExtent(e) + post, |pre|) == e
  {
    var a, b := Enc32(e.startBlock), Enc32(e.blockCount);
    assert pre + EncodeExtent(e) + post == pre + a + (b + post);
    assert pre + EncodeExtent(e) + post == (pre + a) + b + post;
    BE32Enc32(e.startBlock, pre, b + post);
    BE32Enc32(e.blockCount, pre + a, post);
  }

  lemma EncodeDecodeExtent(s: seq<byte>, o: nat)
    requires o + EXTENT_DESCRIPTOR_SIZE <= |s|
    ensures EncodeExtent(DecodeExtent(s, o)) == s[o..o + EXTENT_DESCRIPTOR_SIZE]
  {
    Enc32BE32(s, o);
    Enc32BE32(s, o + 4);
    assert s[o..o + 8] == s[o..o + 4] + s[o + 4..o + 8];
  }

  lemma {:induction false} DecodeEncodeExtents(es: seq<ExtentDescriptor>, pre: seq<byte>, post: seq<byte>)
    ensures DecodeExtents(pre + EncodeExtents(es) + post, |pre|, |es|) == es
    decreases |es|
  {
    if es != [] {
      var head, tail := EncodeExtent(es[0]), EncodeExtents(es[1..]);
      assert pre + EncodeExtents(es) + post == pre + head + (tail + post);
      assert pre + EncodeExtents(es) + post == (pre + head) + tail + post;
      DecodeEncodeExtent(es[0], pre, tail + post);
      DecodeEncodeExtents(es[1..], pre + head, post);
    }
  }

  lemma {:induction false} EncodeDecodeExtents(s: seq<byte>, o: nat, n: nat)
    requires o + EXTENT_DESCRIPTOR_SIZE * n <= |s|
    ensures EncodeExtents(DecodeExtents(s, o, n)) == s[o..o + EXTENT_DESCRIPTOR_SIZE * n]
    decreases n
  {
    if n > 0 {
      var es := DecodeExtents(s, o, n);
      assert es[0] == DecodeExtent(s, o) && es[1..] == DecodeExtents(s, o + 8, n - 1);
      EncodeDecodeExtent(s, o);
      EncodeDecodeExtents(s, o + 8, n - 1);
      assert s[o..o + 8 * n] == s[o..o + 8] + s[o + 8..o + 8 * n];
    }
  }

  /** The i-th descriptor of a record sits EXTENT_DESCRIPTOR_SIZE * i bytes in. */
  lemma {:induction false} DecodeExtentsAt(s: seq<byte>, o: nat, n: nat, i: nat)
    requires o + EXTENT_DESCRIPTOR_SIZE * n <= |s| && i < n
    ensures DecodeExtents(s, o, n)[i] == DecodeExtent(s, o + EXTENT_DESCRIPTOR_SIZE * i)
    decreases n
  {
    if i > 0 {
      DecodeExtentsAt(s, o + EXTENT_DESCRIPTOR_SIZE, n - 1, i - 1);
    }
  }

  lemma DecodeEncodeForkData(f: ForkData, pre: seq<byte>, post: seq<byte>)
    requires ValidForkData(f)
    ensures DecodeForkData(pre + EncodeForkData(f) + post, |pre|) == f
  {
    var a, b, c, d := Enc64(f.logicalSize), Enc32(f.clumpSize), Enc32(f.totalBlocks), EncodeExtents(f.extents);
    Assoc4(pre, a, b, c, d, post);
    BE64Enc64(f.logicalSize, pre, b + c + d + post);
    BE32Enc32(f.clumpSize, pre + a, c + d + post);
    BE32Enc32(f.totalBlocks, pre + a + b, d + post);
    DecodeEncodeExtents(f.extents, pre + a + b + c, post);
  }

  lemma EncodeDecodeForkData(s: seq<byte>, o: nat)
    requires o + FORK_DATA_SIZE <= |s|
    ensures EncodeForkData(DecodeForkData(s, o)) == s[o..o + FORK_DATA_SIZE]
  {
    Enc64BE64(s, o);
    Enc32BE32(s, o + 8);
    Enc32BE32(s, o + 12);
    EncodeDecodeExtents(s, o + 16, 8);
    ForkSlices(s, o, Enc64(BE64(s, o)), Enc32(BE32(s, o + 8)), Enc32(BE32(s, o + 12)),
               EncodeExtents(DecodeExtents(s, o + 16, 8)));
  }

  lemma ForkSlices(s: seq<byte>, o: nat, a: seq<byte>, b: seq<byte>, c: seq<byte>, d: seq<byte>)
    requires o + FORK_DATA_SIZE <= |s|
    requires s[o..o + 8] == a && s[o + 8..o + 12] == b && s[o + 12..o + 16] == c && s[o + 16..o + 80] == d
    ensures s[o..o + FORK_DATA_SIZE] == a + b + c + d
  {
    assert s[o..o + 80] == s[o..o + 8] + s[o + 8..o + 12] + s[o + 12..o + 16] + s[o + 16..o + 80];
  }


  /** HFSPlusVolumeHeader (hfsp.h:43-77). The C structure declares the scalar
      fields signed; they are kept here as their raw 16-, 32- and 64-bit patterns. */
  datatype VolumeHeader = VolumeHeader(
    signature: bv16,
    version: bv16,
    attributes: bv32,
    lastMountedVersion: bv32,
    journalInfoBlock: bv32,
    createDate: bv32,
    modifyDate: bv32,
    backupDate: bv32,
    checkedDate: bv32,
    fileCount: bv32,
    folderCount: bv32,
    blockSize: bv32,
    totalBlocks: bv32,
    freeBlocks: bv32,
    nextAllocation: bv32,
    rsrcClumpSize: bv32,
    dataClumpSize: bv32,
    nextCatalogID: bv32,
    writeCount: bv32,
    encodingsBitmap: bv64,
    finderInfo: seq<byte>,
    allocationFile: ForkData,
    extentsFile: ForkData,
    catalogFile: ForkData,
    attributesFile: ForkData,
    startupFile: ForkData)

  predicate ValidVolumeHeader(h: VolumeHeader)
  {
    |h.finderInfo| == 32 &&
    ValidForkData(h.allocationFile) && ValidForkData(h.extentsFile) && ValidForkData(h.catalogFile) &&
    ValidForkData(h.attributesFile) && ValidForkData(h.startupFile)
  }

  /** The volume header in the 512 bytes read from byte offset 1024 of the
      volume (TN1150 "Volume Header"). */
  function DecodeVolumeHeader(s: seq<byte>): (h: VolumeHeader)
    requires |s| == VOLUME_HEADER_SIZE
    ensures ValidVolumeHeader(h)
  {
    VolumeHeader(
      BE16(s, 0),
      BE16(s, 2),
      BE32(s, 4),
      BE32(s, 8),
      BE32(s, 12),
      BE32(s, 16),
      BE32(s, 20),
      BE32(s, 24),
      BE32(s, 28),
      BE32(s, 32),
      BE32(s, 36),
      BE32(s, 40),
      BE32(s, 44),
      BE32(s, 48),
      BE32(s, 52),
      BE32(s, 56),
      BE32(s, 60),
      BE32(s, 64),
      BE32(s, 68),
      BE64(s, 72),
      s[80..112],
      DecodeForkData(s, 112),
      DecodeForkData(s, 192),
      DecodeForkData(s, 272),
      DecodeForkData(s, 352),
      DecodeForkData(s, 432))
  }

  function EncodeVolumeIdentity(h: VolumeHeader): (r: seq<byte>)
    ensures |r| == 16
  {
    Enc16(h.signature) + Enc16(h.version) + Enc32(h.attributes) + Enc32(h.lastMountedVersion) + Enc32(h.journalInfoBlock)
  }

  function EncodeVolumeDates(h: VolumeHeader): (r: seq<byte>)
    ensures |r| == 16
  {
    Enc32(h.createDate) + Enc32(h.modifyDate) + Enc32(h.backupDate) + Enc32(h.checkedDate)
  }

  function EncodeVolumeCounts(h: VolumeHeader): (r: seq<byte>)
    ensures |r| == 20
  {
    Enc32(h.fileCount) + Enc32(h.folderCount) + Enc32(h.blockSize) + Enc32(h.totalBlocks) + Enc32(h.freeBlocks)
  }

  function EncodeVolumeAllocation(h: VolumeHeader): (r: seq<byte>)
    ensures |r| == 28
  {
    Enc32(h.nextAllocation) + Enc32(h.rsrcClumpSize) + Enc32(h.dataClumpSize) + Enc32(h.nextCatalogID) + Enc32(h.writeCount) + Enc64(h.encodingsBitmap)
  }

  function EncodeSpecialForks(h: VolumeHeader): (r: seq<byte>)
    requires ValidVolumeHeader(h)
    ensures |r| == 400
  {
    EncodeForkData(h.allocationFile) + EncodeForkData(h.extentsFile) + EncodeForkData(h.catalogFile) + EncodeForkData(h.attributesFile) + EncodeForkData(h.startupFile)
  }

  /** The fields back to back in declaration order, with no padding. */
  function EncodeVolumeHeader(h: VolumeHeader): (r: seq<byte>)
    requires ValidVolumeHeader(h)
    ensures |r| == VOLUME_HEADER_SIZE
  {
    EncodeVolumeIdentity(h)
    + EncodeVolumeDates(h)
    + EncodeVolumeCounts(h)
    + EncodeVolumeAllocation(h)
    + h.finderInfo
    + EncodeSpecialForks(h)
  }

  lemma DecodeVolumeIdentity(h: VolumeHeader, pre: seq<byte>, post: seq<byte>)
    ensures var s := pre + EncodeVolumeIdentity(h) + post;
      BE16(s, |pre|) == h.signature &&
      BE16(s, |pre| + 2) == h.version &&
      BE32(s, |pre| + 4) == h.attributes &&
      BE32(s, |pre| + 8) == h.lastMountedVersion &&
      BE32(s, |pre| + 12) == h.journalInfoBlock
  {
    var p0, p1, p2, p3, p4 := Enc16(h.signature), Enc16(h.version), Enc32(h.attributes), Enc32(h.lastMountedVersion), Enc32(h.journalInfoBlock);
    Assoc5(pre, p0, p1, p2, p3, p4, post);
    BE16Enc16(h.signature, pre, p1 + p2 + p3 + p4 + post);
    BE16Enc16(h.version, pre + p0, p2 + p3 + p4 + post);
    BE32Enc32(h.attributes, pre + p0 + p1, p3 + p4 + post);
    BE32Enc32(h.lastMountedVersion, pre + p0 + p1 + p2, p4 + post);
    BE32Enc32(h.journalInfoBlock, pre + p0 + p1 + p2 + p3, post);
  }

  lemma DecodeVolumeDates(h: VolumeHeader, pre: seq<byte>, post: seq<byte>)
    ensures var s := pre + EncodeVolumeDates(h) + post;
      BE32(s, |pre|) == h.createDate &&
      BE32(s, |pre| + 4) == h.modifyDate &&
      BE32(s, |pre| + 8) == h.backupDate &&
      BE32(s, |pre| + 12) == h.checkedDate
  {
    var p0, p1, p2, p3 := Enc32(h.createDate), Enc32(h.modifyDate), Enc32(h.backupDate), Enc32(h.checkedDate);
    Assoc4(pre, p0, p1, p2, p3, post);
    BE32Enc32(h.createDate, pre, p1 + p2 + p3 + post);
    BE32Enc32(h.modifyDate, pre + p0, p2 + p3 + post);
    BE32Enc32(h.backupDate, pre + p0 + p1, p3 + post);
    BE32Enc32(h.checkedDate, pre + p0 + p1 + p2, post);
  }

  lemma DecodeVolumeCounts(h: VolumeHeader, pre: seq<byte>, post: seq<byte>)
    ensures var s := pre + EncodeVolumeCounts(h) + post;
      BE32(s, |pre|) == h.fileCount &&
      BE32(s, |pre| + 4) == h.folderCount &&
      BE32(s, |pre| + 8) == h.blockSize &&
      BE32(s, |pre| + 12) == h.totalBlocks &&
      BE32(s, |pre| + 16) == h.freeBlocks
  {
    var p0, p1, p2, p3, p4 := Enc32(h.fileCount), Enc32(h.folderCount), Enc32(h.blockSize), Enc32(h.totalBlocks), Enc32(h.freeBlocks);
    Assoc5(pre, p0, p1, p2, p3, p4, post);
    BE32Enc32(h.fileCount, pre, p1 + p2 + p3 + p4 + post);
    BE32Enc32(h.folderCount, pre + p0, p2 + p3 + p4 + post);
    BE32Enc32(h.blockSize, pre + p0 + p1, p3 + p4 + post);
    BE32Enc32(h.totalBlocks, pre + p0 + p1 + p2, p4 + post);
    BE32Enc32(h.freeBlocks, pre + p0 + p1 + p2 + p3, post);
  }

  lemma DecodeVolumeAllocation(h: VolumeHeader, pre: seq<byte>, post: seq<byte>)
    ensures var s := pre + EncodeVolumeAllocation(h) + post;
      BE32(s, |pre|) == h.nextAllocation &&
      BE32(s, |pre| + 4) == h.rsrcClumpSize &&
      BE32(s, |pre| + 8) == h.dataClumpSize &&
      BE32(s, |pre| + 12) == h.nextCatalogID &&
      BE32(s, |pre| + 16) == h.writeCount &&
      BE64(s, |pre| + 20) == h.encodingsBitmap
  {
    var p0, p1, p2, p3, p4, p5 := Enc32(h.nextAllocation), Enc32(h.rsrcClumpSize), Enc32(h.dataClumpSize), Enc32(h.nextCatalogID), Enc32(h.writeCount), Enc64(h.encodingsBitmap);
    Assoc6(pre, p0, p1, p2, p3, p4, p5, post);
    BE32Enc32(h.nextAllocation, pre, p1 + p2 + p3 + p4 + p5 + post);
    BE32Enc32(h.rsrcClumpSize, pre + p0, p2 + p3 + p4 + p5 + post);
    BE32Enc32(h.dataClumpSize, pre + p0 + p1, p3 + p4 + p5 + post);
    BE32Enc32(h.nextCatalogID, pre + p0 + p1 + p2, p4 + p5 + post);
    BE32Enc32(h.writeCount, pre + p0 + p1 + p2 + p3, p5 + post);
    BE64Enc64(h.encodingsBitmap, pre + p0 + p1 + p2 + p3 + p4, post);
  }

  lemma DecodeSpecialForks(h: VolumeHeader, pre: seq<byte>, post: seq<byte>)
    requires ValidVolumeHeader(h)
    ensures var s := pre + EncodeSpecialForks(h) + post;
      DecodeForkData(s, |pre|) == h.allocationFile &&
      DecodeForkData(s, |pre| + 80) == h.extentsFile &&
      DecodeForkData(s, |pre| + 160) == h.catalogFile &&
      DecodeForkData(s, |pre| + 240) == h.attributesFile &&
      DecodeForkData(s, |pre| + 320) == h.startupFile
  {
    var p0, p1, p2, p3, p4 := EncodeForkData(h.allocationFile), EncodeForkData(h.extentsFile), EncodeForkData(h.catalogFile), EncodeForkData(h.attributesFile), EncodeForkData(h.startupFile);
    Assoc5(pre, p0, p1, p2, p3, p4, post);
    DecodeEncodeForkData(h.allocationFile, pre, p1 + p2 + p3 + p4 + post);
    DecodeEncodeForkData(h.extentsFile, pre + p0, p2 + p3 + p4 + post);
    DecodeEncodeForkData(h.catalogFile, pre + p0 + p1, p3 + p4 + post);
    DecodeEncodeForkData(h.attributesFile, pre + p0 + p1 + p2, p4 + post);
    DecodeEncodeForkData(h.startupFile, pre + p0 + p1 + p2 + p3, post);
  }

  lemma VolumeIdentityAt(h: VolumeHeader)
    requires ValidVolumeHeader(h)
    ensures var s := EncodeVolumeHeader(h);
      BE16(s, 0) == h.signature &&
      BE16(s, 2) == h.version &&
      BE32(s, 4) == h.attributes &&
      BE32(s, 8) == h.lastMountedVersion &&
      BE32(s, 12) == h.journalInfoBlock
  {
    var g0, g1, g2, g3, g4, g5 := EncodeVolumeIdentity(h), EncodeVolumeDates(h), EncodeVolumeCounts(h), EncodeVolumeAllocation(h), h.finderInfo, EncodeSpecialForks(h);
    Assoc6([], g0, g1, g2, g3, g4, g5, []);
    Unwrap(g0 + g1 + g2 + g3 + g4 + g5);
    DecodeVolumeIdentity(h, [], g1 + g2 + g3 + g4 + g5 + []);
  }

  lemma VolumeDatesAt(h: VolumeHeader)
    requires ValidVolumeHeader(h)
    ensures var s := EncodeVolumeHeader(h);
      BE32(s, 16) == h.createDate &&
      BE32(s, 20) == h.modifyDate &&
      BE32(s, 24) == h.backupDate &&
      BE32(s, 28) == h.checkedDate
  {
    var g0, g1, g2, g3, g4, g5 := EncodeVolumeIdentity(h), EncodeVolumeDates(h), EncodeVolumeCounts(h), EncodeVolumeAllocation(h), h.finderInfo, EncodeSpecialForks(h);
    Assoc6([], g0, g1, g2, g3, g4, g5, []);
    Unwrap(g0 + g1 + g2 + g3 + g4 + g5);
    DecodeVolumeDates(h, [] + g0, g2 + g3 + g4 + g5 + []);
  }

  lemma VolumeCountsAt(h: VolumeHeader)
    requires ValidVolumeHeader(h)
    ensures var s := EncodeVolumeHeader(h);
      BE32(s, 32) == h.fileCount &&
      BE32(s, 36) == h.folderCount &&
      BE32(s, 40) == h.blockSize &&
      BE32(s, 44) == h.totalBlocks &&
      BE32(s, 48) == h.freeBlocks
  {
    var g0, g1, g2, g3, g4, g5 := EncodeVolumeIdentity(h), EncodeVolumeDates(h), EncodeVolumeCounts(h), EncodeVolumeAllocation(h), h.finderInfo, EncodeSpecialForks(h);
    Assoc6([], g0, g1, g2, g3, g4, g5, []);
    Unwrap(g0 + g1 + g2 + g3 + g4 + g5);
    DecodeVolumeCounts(h, [] + g0 + g1, g3 + g4 + g5 + []);
  }

  lemma VolumeAllocationAt(h: VolumeHeader)
    requires ValidVolumeHeader(h)
    ensures var s := EncodeVolumeHeader(h);
      BE32(s, 52) == h.nextAllocation &&
      BE32(s, 56) == h.rsrcClumpSize &&
      BE32(s, 60) == h.dataClumpSize &&
      BE32(s, 64) == h.nextCatalogID &&
      BE32(s, 68) == h.writeCount &&
      BE64(s, 72) == h.encodingsBitmap
  {
    var g0, g1, g2, g3, g4, g5 := EncodeVolumeIdentity(h), EncodeVolumeDates(h), EncodeVolumeCounts(h), EncodeVolumeAllocation(h), h.finderInfo, EncodeSpecialForks(h);
    Assoc6([], g0, g1, g2, g3, g4, g5, []);
    Unwrap(g0 + g1 + g2 + g3 + g4 + g5);
    DecodeVolumeAllocation(h, [] + g0 + g1 + g2, g4 + g5 + []);
  }

  lemma FinderInfoAt(h: VolumeHeader)
    requires ValidVolumeHeader(h)
    ensures var s := EncodeVolumeHeader(h);
      s[80..112] == h.finderInfo
  {
    var g0, g1, g2, g3, g4, g5 := EncodeVolumeIdentity(h), EncodeVolumeDates(h), EncodeVolumeCounts(h), EncodeVolumeAllocation(h), h.finderInfo, EncodeSpecialForks(h);
    Assoc6([], g0, g1, g2, g3, g4, g5, []);
    Unwrap(g0 + g1 + g2 + g3 + g4 + g5);
    Middle([] + g0 + g1 + g2 + g3, g4, g5 + []);
  }

  lemma SpecialForksAt(h: VolumeHeader)
    requires ValidVolumeHeader(h)
    ensures var s := EncodeVolumeHeader(h);
      DecodeForkData(s, 112) == h.allocationFile &&
      DecodeForkData(s, 192) == h.extentsFile &&
      DecodeForkData(s, 272) == h.catalogFile &&
      DecodeForkData(s, 352) == h.attributesFile &&
      DecodeForkData(s, 432) == h.startupFile
  {
    var g0, g1, g2, g3, g4, g5 := EncodeVolumeIdentity(h), EncodeVolumeDates(h), EncodeVolumeCounts(h), EncodeVolumeAllocation(h), h.finderInfo, EncodeSpecialForks(h);
    Assoc6([], g0, g1, g2, g3, g4, g5, []);
    Unwrap(g0 + g1 + g2 + g3 + g4 + g5);
    DecodeSpecialForks(h, [] + g0 + g1 + g2 + g3 + g4, []);
  }

  lemma DecodeVolumeHeaderFields(s: seq<byte>, h: VolumeHeader)
    requires |s| == VOLUME_HEADER_SIZE
    requires BE16(s, 0) == h.signature &&
      BE16(s, 2) == h.version &&
      BE32(s, 4) == h.attributes &&
      BE32(s, 8) == h.lastMountedVersion &&
      BE32(s, 12) == h.journalInfoBlock &&
      BE32(s, 16) == h.createDate &&
      BE32(s, 20) == h.modifyDate &&
      BE32(s, 24) == h.backupDate &&
      BE32(s, 28) == h.checkedDate &&
      BE32(s, 32) == h.fileCount &&
      BE32(s, 36) == h.folderCount &&
      BE32(s, 40) == h.blockSize &&
      BE32(s, 44) == h.totalBlocks &&
      BE32(s, 48) == h.freeBlocks &&
      BE32(s, 52) == h.nextAllocation &&
      BE32(s, 56) == h.rsrcClumpSize &&
      BE32(s, 60) == h.dataClumpSize &&
      BE32(s, 64) == h.nextCatalogID &&
      BE32(s, 68) == h.writeCount &&
      BE64(s, 72) == h.encodingsBitmap &&
      s[80..112] == h.finderInfo &&
      DecodeForkData(s, 112) == h.allocationFile &&
      DecodeForkData(s, 192) == h.extentsFile &&
      DecodeForkData(s, 272) == h.catalogFile &&
      DecodeForkData(s, 352) == h.attributesFile &&
      DecodeForkData(s, 432) == h.startupFile
    ensures DecodeVolumeHeader(s) == h
  {
  }

  lemma DecodeEncodeVolumeHeader(h: VolumeHeader)
    requires ValidVolumeHeader(h)
    ensures DecodeVolumeHeader(EncodeVolumeHeader(h)) == h
  {
    VolumeIdentityAt(h);
    VolumeDatesAt(h);
    VolumeCountsAt(h);
    VolumeAllocationAt(h);
    FinderInfoAt(h);
    SpecialForksAt(h);
    DecodeVolumeHeaderFields(EncodeVolumeHeader(h), h);
  }

  /** The other direction: re-encoding the decoded header gives back the
      512 bytes, so the decoder reads every byte and loses none. */
  lemma EncodeDecodeVolumeHeader(s: seq<byte>)
    requires |s| == VOLUME_HEADER_SIZE
    ensures EncodeVolumeHeader(DecodeVolumeHeader(s)) == s
  {
    var h := DecodeVolumeHeader(s);
    EncodeDecodeVolumeIdentity(s, h);
    EncodeDecodeVolumeDates(s, h);
    EncodeDecodeVolumeCounts(s, h);
    EncodeDecodeVolumeAllocation(s, h);
    EncodeDecodeSpecialForks(s, h);
    EncodeVolumeHeaderJoins(s, h);
  }

  /** The six encoded groups, laid end to end, rebuild the block they were read from. */
  lemma EncodeVolumeHeaderJoins(s: seq<byte>, h: VolumeHeader)
    requires |s| == VOLUME_HEADER_SIZE && ValidVolumeHeader(h)
    requires EncodeVolumeIdentity(h) == s[0..16] && EncodeVolumeDates(h) == s[16..32] &&
      EncodeVolumeCounts(h) == s[32..52] && EncodeVolumeAllocation(h) == s[52..80] &&
      h.finderInfo == s[80..112] && EncodeSpecialForks(h) == s[112..512]
    ensures EncodeVolumeHeader(h) == s
  {
    Join6(s, 0, 16, 32, 52, 80, 112, 512);
  }

  lemma EncodeDecodeVolumeIdentity(s: seq<byte>, h: VolumeHeader)
    requires |s| == VOLUME_HEADER_SIZE
    requires BE16(s, 0) == h.signature && BE16(s, 2) == h.version && BE32(s, 4) == h.attributes &&
      BE32(s, 8) == h.lastMountedVersion && BE32(s, 12) == h.journalInfoBlock
    ensures EncodeVolumeIdentity(h) == s[0..16]
  {
    Enc16BE16(s, 0);
    Enc16BE16(s, 2);
    Enc32BE32(s, 4);
    Enc32BE32(s, 8);
    Enc32BE32(s, 12);
    Join5(s, 0, 2, 4, 8, 12, 16);
  }

  lemma EncodeDecodeVolumeDates(s: seq<byte>, h: VolumeHeader)
    requires |s| == VOLUME_HEADER_SIZE
    requires BE32(s, 16) == h.createDate && BE32(s, 20) == h.modifyDate &&
      BE32(s, 24) == h.backupDate && BE32(s, 28) == h.checkedDate
    ensures EncodeVolumeDates(h) == s[16..32]
  {
    Enc32BE32(s, 16);
    Enc32BE32(s, 20);
    Enc32BE32(s, 24);
    Enc32BE32(s, 28);
    Join4(s, 16, 20, 24, 28, 32);
  }

  lemma EncodeDecodeVolumeCounts(s: seq<byte>, h: VolumeHeader)
    requires |s| == VOLUME_HEADER_SIZE
    requires BE32(s, 32) == h.fileCount && BE32(s, 36) == h.folderCount &&
      BE32(s, 40) == h.blockSize && BE32(s, 44) == h.totalBlocks && BE32(s, 48) == h.freeBlocks
    ensures EncodeVolumeCounts(h) == s[32..52]
  {
    Enc32BE32(s, 32);
    Enc32BE32(s, 36);
    Enc32BE32(s, 40);
    Enc32BE32(s, 44);
    Enc32BE32(s, 48);
    Join5(s, 32, 36, 40, 44, 48, 52);
  }

  lemma EncodeDecodeVolumeAllocation(s: seq<byte>, h: VolumeHeader)
    requires |s| == VOLUME_HEADER_SIZE
    requires BE32(s, 52) == h.nextAllocation && BE32(s, 56) == h.rsrcClumpSize &&
      BE32(s, 60) == h.dataClumpSize && BE32(s, 64) == h.nextCatalogID &&
      BE32(s, 68) == h.writeCount && BE64(s, 72) == h.encodingsBitmap
    ensures EncodeVolumeAllocation(h) == s[52..80]
  {
    Enc32BE32(s, 52);
    Enc32BE32(s, 56);
    Enc32BE32(s, 60);
    Enc32BE32(s, 64);
    Enc32BE32(s, 68);
    Enc64BE64(s, 72);
    Join6(s, 52, 56, 60, 64, 68, 72, 80);
  }

  lemma EncodeDecodeSpecialForks(s: seq<byte>, h: VolumeHeader)
    requires |s| == VOLUME_HEADER_SIZE && ValidVolumeHeader(h)
    requires DecodeForkData(s, 112) == h.allocationFile && DecodeForkData(s, 192) == h.extentsFile &&
      DecodeForkData(s, 272) == h.catalogFile && DecodeForkData(s, 352) == h.attributesFile &&
      DecodeForkData(s, 432) == h.startupFile
    ensures EncodeSpecialForks(h) == s[112..512]
  {
    EncodeDecodeForkData(s, 112);
    EncodeDecodeForkData(s, 192);
    EncodeDecodeForkData(s, 272);
    EncodeDecodeForkData(s, 352);
    EncodeDecodeForkData(s, 432);
    Join5(s, 112, 192, 272, 352, 432, 512);
  }

  // ---------------------------------------------------------------------
  // B-tree node descriptor and header record

  /** The 14 bytes that start every B-tree node, as raw bit patterns. hfsp.h:81-88
      declares every field signed; hfsp_btree.h:2-9 declares all but kind
      unsigned. Both describe the same bytes: they differ only in how a
      field is read as a number (NodeDescriptorView). */
  datatype NodeDescriptor = NodeDescriptor(
    fLink: bv32,
    bLink: bv32,
    kind: bv8,
    height: bv8,
    numRecords: bv16,
    reserved: bv16)

  function DecodeNodeDescriptor(s: seq<byte>, o: nat): NodeDescriptor
    requires o + NODE_DESCRIPTOR_SIZE <= |s|
  {
    NodeDescriptor(BE32(s, o), BE32(s, o + 4), s[o + 8], s[o + 9], BE16(s, o + 10), BE16(s, o + 12))
  }

  function EncodeNodeDescriptor(d: NodeDescriptor): (r: seq<byte>)
    ensures |r| == NODE_DESCRIPTOR_SIZE
  {
    Enc32(d.fLink) + Enc32(d.bLink) + [d.kind] + [d.height] + Enc16(d.numRecords) + Enc16(d.reserved)
  }

  lemma DecodeEncodeNodeDescriptor(d: NodeDescriptor, pre: seq<byte>, post: seq<byte>)
    ensures DecodeNodeDescriptor(pre + EncodeNodeDescriptor(d) + post, |pre|) == d
  {
    var p0, p1, p2, p3, p4, p5 := Enc32(d.fLink), Enc32(d.bLink), [d.kind], [d.height], Enc16(d.numRecords), Enc16(d.reserved);
    Assoc6(pre, p0, p1, p2, p3, p4, p5, post);
    BE32Enc32(d.fLink, pre, p1 + p2 + p3 + p4 + p5 + post);
    BE32Enc32(d.bLink, pre + p0, p2 + p3 + p4 + p5 + post);
    At8(d.kind, pre + p0 + p1, p3 + p4 + p5 + post);
    At8(d.height, pre + p0 + p1 + p2, p4 + p5 + post);
    BE16Enc16(d.numRecords, pre + p0 + p1 + p2 + p3, p5 + post);
    BE16Enc16(d.reserved, pre + p0 + p1 + p2 + p3 + p4, post);
  }

  /** The node descriptor's fields read as C integers. */
  datatype NodeDescriptorView = NodeDescriptorView(
    fLink: int, bLink: int, kind: int, height: int, numRecords: int, reserved: int)

  /** The fields as hfsp.h declares them: all signed. */
  function SignedView(d: NodeDescriptor): NodeDescriptorView
  {
    NodeDescriptorView(Signed32(d.fLink), Signed32(d.bLink), Signed8(d.kind), Signed8(d.height),
                       Signed16(d.numRecords), Signed16(d.reserved))
  }

  /** The fields as hfsp_btree.h declares them: kind signed, the rest unsigned. */
  function UnsignedView(d: NodeDescriptor): NodeDescriptorView
  {
    NodeDescriptorView(d.fLink as int, d.bLink as int, Signed8(d.kind), d.height as int,
                       d.numRecords as int, d.reserved as int)
  }

  /** The two declarations read the same numbers exactly when the node links
      are below 2^31, the height below 128 and both counts below 2^15. */
  lemma NodeDescriptorViewsAgree(d: NodeDescriptor)
    ensures SignedView(d) == UnsignedView(d) <==>
      d.fLink < 0x8000_0000 && d.bLink < 0x8000_0000 && d.height < 0x80 &&
      d.numRecords < 0x8000 && d.reserved < 0x8000
  {
    Signed32Agrees(d.fLink);
    Signed32Agrees(d.bLink);
    Signed8Agrees(d.height);
    Signed16Agrees(d.numRecords);
    Signed16Agrees(d.reserved);
  }

  /** BTHeaderRec, the first record of the header node (hfsp.h:92-108 and,
      with unsigned fields, hfsp_btree.h:11-27). reserved3 holds 16 words. */
  datatype HeaderRec = HeaderRec(
    treeDepth: bv16,
    rootNode: bv32,
    leafRecords: bv32,
    firstLeafNode: bv32,
    lastLeafNode: bv32,
    nodeSize: bv16,
    maxKeyLength: bv16,
    totalNodes: bv32,
    freeNodes: bv32,
    reserved1: bv16,
    clumpSize: bv32,
    btreeType: bv8,
    keyCompareType: bv8,
    attributes: bv32,
    reserved3: seq<bv32>)

  predicate ValidHeaderRec(h: HeaderRec)
  {
    |h.reserved3| == 16
  }

  /** The n 32-bit words stored back to back from s[o]. */
  function DecodeWords(s: seq<byte>, o: nat, n: nat): (r: seq<bv32>)
    requires o + 4 * n <= |s|
    ensures |r| == n
    decreases n
  {
    if n == 0 then [] else [BE32(s, o)] + DecodeWords(s, o + 4, n - 1)
  }

  function EncodeWords(ws: seq<bv32>): (r: seq<byte>)
    ensures |r| == 4 * |ws|
  {
    if ws == [] then [] else Enc32(ws[0]) + EncodeWords(ws[1..])
  }

  lemma {:induction false} DecodeEncodeWords(ws: seq<bv32>, pre: seq<byte>, post: seq<byte>)
    ensures DecodeWords(pre + EncodeWords(ws) + post, |pre|, |ws|) == ws
    decreases |ws|
  {
    if ws != [] {
      var head, tail := Enc32(ws[0]), EncodeWords(ws[1..]);
      assert pre + EncodeWords(ws) + post == pre + head + (tail + post);
      assert pre + EncodeWords(ws) + post == (pre + head) + tail + post;
      BE32Enc32(ws[0], pre, tail + post);
      DecodeEncodeWords(ws[1..], pre + head, post);
    }
  }

  function DecodeHeaderRec(s: seq<byte>): (h: HeaderRec)
    requires |s| == HEADER_REC_SIZE
    ensures ValidHeaderRec(h)
  {
    HeaderRec(BE16(s, 0), BE32(s, 2), BE32(s, 6), BE32(s, 10), BE32(s, 14),
              BE16(s, 18), BE16(s, 20), BE32(s, 22), BE32(s, 26), BE16(s, 30),
              BE32(s, 32), s[36], s[37], BE32(s, 38), DecodeWords(s, 42, 16))
  }

  function EncodeHeaderTree(h: HeaderRec): (r: seq<byte>)
    ensures |r| == 18
  {
    Enc16(h.treeDepth) + Enc32(h.rootNode) + Enc32(h.leafRecords) + Enc32(h.firstLeafNode) + Enc32(h.lastLeafNode)
  }

  function EncodeHeaderNodes(h: HeaderRec): (r: seq<byte>)
    ensures |r| == 14
  {
    Enc16(h.nodeSize) + Enc16(h.maxKeyLength) + Enc32(h.totalNodes) + Enc32(h.freeNodes) + Enc16(h.reserved1)
  }

  function EncodeHeaderKeys(h: HeaderRec): (r: seq<byte>)
    ensures |r| == 10
  {
    Enc32(h.clumpSize) + [h.btreeType] + [h.keyCompareType] + Enc32(h.attributes)
  }

  function EncodeHeaderRec(h: HeaderRec): (r: seq<byte>)
    requires ValidHeaderRec(h)
    ensures |r| == HEADER_REC_SIZE
  {
    EncodeHeaderTree(h)
    + EncodeHeaderNodes(h)
    + EncodeHeaderKeys(h)
    + EncodeWords(h.reserved3)
  }

  lemma DecodeHeaderTree(h: HeaderRec, pre: seq<byte>, post: seq<byte>)
    ensures var s := pre + EncodeHeaderTree(h) + post;
      BE16(s, |pre|) == h.treeDepth &&
      BE32(s, |pre| + 2) == h.rootNode &&
      BE32(s, |pre| + 6) == h.leafRecords &&
      BE32(s, |pre| + 10) == h.firstLeafNode &&
      BE32(s, |pre| + 14) == h.lastLeafNode
  {
    var p0, p1, p2, p3, p4 := Enc16(h.treeDepth), Enc32(h.rootNode), Enc32(h.leafRecords), Enc32(h.firstLeafNode), Enc32(h.lastLeafNode);
    Assoc5(pre, p0, p1, p2, p3, p4, post);
    BE16Enc16(h.treeDepth, pre, p1 + p2 + p3 + p4 + post);
    BE32Enc32(h.rootNode, pre + p0, p2 + p3 + p4 + post);
    BE32Enc32(h.leafRecords, pre + p0 + p1, p3 + p4 + post);
    BE32Enc32(h.firstLeafNode, pre + p0 + p1 + p2, p4 + post);
    BE32Enc32(h.lastLeafNode, pre + p0 + p1 + p2 + p3, post);
  }

  lemma DecodeHeaderNodes(h: HeaderRec, pre: seq<byte>, post: seq<byte>)
    ensures var s := pre + EncodeHeaderNodes(h) + post;
      BE16(s, |pre|) == h.nodeSize &&
      BE16(s, |pre| + 2) == h.maxKeyLength &&
      BE32(s, |pre| + 4) == h.totalNodes &&
      BE32(s, |pre| + 8) == h.freeNodes &&
      BE16(s, |pre| + 12) == h.reserved1
  {
    var p0, p1, p2, p3, p4 := Enc16(h.nodeSize), Enc16(h.maxKeyLength), Enc32(h.totalNodes), Enc32(h.freeNodes), Enc16(h.reserved1);
    Assoc5(pre, p0, p1, p2, p3, p4, post);
    BE16Enc16(h.nodeSize, pre, p1 + p2 + p3 + p4 + post);
    BE16Enc16(h.maxKeyLength, pre + p0, p2 + p3 + p4 + post);
    BE32Enc32(h.totalNodes, pre + p0 + p1, p3 + p4 + post);
    BE32Enc32(h.freeNodes, pre + p0 + p1 + p2, p4 + post);
    BE16Enc16(h.reserved1, pre + p0 + p1 + p2 + p3, post);
  }

  lemma DecodeHeaderKeys(h: HeaderRec, pre: seq<byte>, post: seq<byte>)
    ensures var s := pre + EncodeHeaderKeys(h) + post;
      BE32(s, |pre|) == h.clumpSize &&
      s[|pre| + 4] == h.btreeType &&
      s[|pre| + 5] == h.keyCompareType &&
      BE32(s, |pre| + 6) == h.attributes
  {
    var p0, p1, p2, p3 := Enc32(h.clumpSize), [h.btreeType], [h.keyCompareType], Enc32(h.attributes);
    Assoc4(pre, p0, p1, p2, p3, post);
    BE32Enc32(h.clumpSize, pre, p1 + p2 + p3 + post);
    At8(h.btreeType, pre + p0, p2 + p3 + post);
    At8(h.keyCompareType, pre + p0 + p1, p3 + post);
    BE32Enc32(h.attributes, pre + p0 + p1 + p2, post);
  }

  lemma HeaderTreeAt(h: HeaderRec)
    requires ValidHeaderRec(h)
    ensures var s := EncodeHeaderRec(h);
      BE16(s, 0) == h.treeDepth &&
      BE32(s, 2) == h.rootNode &&
      BE32(s, 6) == h.leafRecords &&
      BE32(s, 10) == h.firstLeafNode &&
      BE32(s, 14) == h.lastLeafNode
  {
    var g0, g1, g2, g3 := EncodeHeaderTree(h), EncodeHeaderNodes(h), EncodeHeaderKeys(h), EncodeWords(h.reserved3);
    var post := g1 + g2 + g3;
    assert EncodeHeaderRec(h) == [] + g0 + post + [];
    DecodeHeaderTree(h, [], post + []);
    assert [] + g0 + (post + []) == [] + g0 + post + [];
  }

  lemma HeaderNodesAt(h: HeaderRec)
    requires ValidHeaderRec(h)
    ensures var s := EncodeHeaderRec(h);
      BE16(s, 18) == h.nodeSize &&
      BE16(s, 20) == h.maxKeyLength &&
      BE32(s, 22) == h.totalNodes &&
      BE32(s, 26) == h.freeNodes &&
      BE16(s, 30) == h.reserved1
  {
    var g0, g1, g2, g3 := EncodeHeaderTree(h), EncodeHeaderNodes(h), EncodeHeaderKeys(h), EncodeWords(h.reserved3);
    Assoc4([], g0, g1, g2, g3, []);
    Unwrap(g0 + g1 + g2 + g3);
    DecodeHeaderNodes(h, [] + g0, g2 + g3 + []);
  }

  lemma HeaderKeysAt(h: HeaderRec)
    requires ValidHeaderRec(h)
    ensures var s := EncodeHeaderRec(h);
      BE32(s, 32) == h.clumpSize &&
      s[36] == h.btreeType &&
      s[37] == h.keyCompareType &&
      BE32(s, 38) == h.attributes
  {
    var g0, g1, g2, g3 := EncodeHeaderTree(h), EncodeHeaderNodes(h), EncodeHeaderKeys(h), EncodeWords(h.reserved3);
    Assoc4([], g0, g1, g2, g3, []);
    Unwrap(g0 + g1 + g2 + g3);
    DecodeHeaderKeys(h, [] + g0 + g1, g3 + []);
  }

  lemma HeaderReservedAt(h: HeaderRec)
    requires ValidHeaderRec(h)
    ensures var s := EncodeHeaderRec(h);
      DecodeWords(s, 42, 16) == h.reserved3
  {
    var g0, g1, g2, g3 := EncodeHeaderTree(h), EncodeHeaderNodes(h), EncodeHeaderKeys(h), EncodeWords(h.reserved3);
    Assoc4([], g0, g1, g2, g3, []);
    Unwrap(g0 + g1 + g2 + g3);
    DecodeEncodeWords(h.reserved3, [] + g0 + g1 + g2, []);
  }

  lemma DecodeHeaderRecFields(s: seq<byte>, h: HeaderRec)
    requires |s| == HEADER_REC_SIZE
    requires BE16(s, 0) == h.treeDepth &&
      BE32(s, 2) == h.rootNode &&
      BE32(s, 6) == h.leafRecords &&
      BE32(s, 10) == h.firstLeafNode &&
      BE32(s, 14) == h.lastLeafNode &&
      BE16(s, 18) == h.nodeSize &&
      BE16(s, 20) == h.maxKeyLength &&
      BE32(s, 22) == h.totalNodes &&
      BE32(s, 26) == h.freeNodes &&
      BE16(s, 30) == h.reserved1 &&
      BE32(s, 32) == h.clumpSize &&
      s[36] == h.btreeType &&
      s[37] == h.keyCompareType &&
      BE32(s, 38) == h.attributes &&
      DecodeWords(s, 42, 16) == h.reserved3
    ensures DecodeHeaderRec(s) == h
  {
  }

  lemma DecodeEncodeHeaderRec(h: HeaderRec)
    requires ValidHeaderRec(h)
    ensures DecodeHeaderRec(EncodeHeaderRec(h)) == h
  {
    HeaderTreeAt(h);
    HeaderNodesAt(h);
    HeaderKeysAt(h);
    HeaderReservedAt(h);
    DecodeHeaderRecFields(EncodeHeaderRec(h), h);
  }

  lemma {:induction false} EncodeDecodeWords(s: seq<byte>, o: nat, n: nat)
    requires o + 4 * n <= |s|
    ensures EncodeWords(DecodeWords(s, o, n)) == s[o..o + 4 * n]
    decreases n
  {
    if n > 0 {
      var ws := DecodeWords(s, o, n);
      assert ws[0] == BE32(s, o) && ws[1..] == DecodeWords(s, o + 4, n - 1);
      Enc32BE32(s, o);
      EncodeDecodeWords(s, o + 4, n - 1);
      assert s[o..o + 4 * n] == s[o..o + 4] + s[o + 4..o + 4 * n];
    }
  }

  /** Re-encoding the decoded header record gives back its 106 bytes, so
      the decoder reads every byte and loses none. */
  lemma EncodeDecodeHeaderRec(s: seq<byte>)
    requires |s| == HEADER_REC_SIZE
    ensures EncodeHeaderRec(DecodeHeaderRec(s)) == s
  {
    var h := DecodeHeaderRec(s);
    DecodeHeaderRecReads(s);
    EncodeDecodeReserved(s);
    EncodeHeaderRecFields(s, h);
  }

  /** The reserved words of a decoded header record encode back to the bytes they came from. */
  lemma EncodeDecodeReserved(s: seq<byte>)
    requires |s| == HEADER_REC_SIZE
    ensures EncodeWords(DecodeHeaderRec(s).reserved3) == s[42..106]
  {
    EncodeDecodeWords(s, 42, 16);
  }

  /** The fixed-width fields of a decoded header record are the big-endian reads at their offsets. */
  lemma DecodeHeaderRecReads(s: seq<byte>)
    requires |s| == HEADER_REC_SIZE
    ensures var h := DecodeHeaderRec(s);
      BE16(s, 0) == h.treeDepth && BE32(s, 2) == h.rootNode && BE32(s, 6) == h.leafRecords &&
      BE32(s, 10) == h.firstLeafNode && BE32(s, 14) == h.lastLeafNode &&
      BE16(s, 18) == h.nodeSize && BE16(s, 20) == h.maxKeyLength && BE32(s, 22) == h.totalNodes &&
      BE32(s, 26) == h.freeNodes && BE16(s, 30) == h.reserved1 &&
      BE32(s, 32) == h.clumpSize && s[36] == h.btreeType && s[37] == h.keyCompareType &&
      BE32(s, 38) == h.attributes
  {
  }

  /** Any record whose fields are the ones read from s, and whose reserved words encode to
      the tail of s, encodes back to s. */
  lemma EncodeHeaderRecFields(s: seq<byte>, h: HeaderRec)
    requires |s| == HEADER_REC_SIZE && ValidHeaderRec(h)
    requires BE16(s, 0) == h.treeDepth && BE32(s, 2) == h.rootNode && BE32(s, 6) == h.leafRecords &&
      BE32(s, 10) == h.firstLeafNode && BE32(s, 14) == h.lastLeafNode
    requires BE16(s, 18) == h.nodeSize && BE16(s, 20) == h.maxKeyLength && BE32(s, 22) == h.totalNodes &&
      BE32(s, 26) == h.freeNodes && BE16(s, 30) == h.reserved1
    requires BE32(s, 32) == h.clumpSize && s[36] == h.btreeType && s[37] == h.keyCompareType &&
      BE32(s, 38) == h.attributes
    requires EncodeWords(h.reserved3) == s[42..106]
    ensures EncodeHeaderRec(h) == s
  {
    EncodeDecodeHeaderTree(s, h);
    EncodeDecodeHeaderNodes(s, h);
    EncodeDecodeHeaderKeys(s, h);
    EncodeHeaderRecJoins(s, h);
  }

  /** The four encoded groups, laid end to end, rebuild the record they were read from. */
  lemma EncodeHeaderRecJoins(s: seq<byte>, h: HeaderRec)
    requires |s| == HEADER_REC_SIZE && ValidHeaderRec(h)
    requires EncodeHeaderTree(h) == s[0..18] && EncodeHeaderNodes(h) == s[18..32] &&
      EncodeHeaderKeys(h) == s[32..42] && EncodeWords(h.reserved3) == s[42..106]
    ensures EncodeHeaderRec(h) == s
  {
    Join4(s, 0, 18, 32, 42, 106);
  }

  lemma EncodeDecodeHeaderTree(s: seq<byte>, h: HeaderRec)
    requires |s| == HEADER_REC_SIZE
    requires BE16(s, 0) == h.treeDepth && BE32(s, 2) == h.rootNode && BE32(s, 6) == h.leafRecords &&
      BE32(s, 10) == h.firstLeafNode && BE32(s, 14) == h.lastLeafNode
    ensures EncodeHeaderTree(h) == s[0..18]
  {
    Enc16BE16(s, 0);
    Enc32BE32(s, 2);
    Enc32BE32(s, 6);
    Enc32BE32(s, 10);
    Enc32BE32(s, 14);
    Join5(s, 0, 2, 6, 10, 14, 18);
  }

  lemma EncodeDecodeHeaderNodes(s: seq<byte>, h: HeaderRec)
    requires |s| == HEADER_REC_SIZE
    requires BE16(s, 18) == h.nodeSize && BE16(s, 20) == h.maxKeyLength && BE32(s, 22) == h.totalNodes &&
      BE32(s, 26) == h.freeNodes && BE16(s, 30) == h.reserved1
    ensures EncodeHeaderNodes(h) == s[18..32]
  {
    Enc16BE16(s, 18);
    Enc16BE16(s, 20);
    Enc32BE32(s, 22);
    Enc32BE32(s, 26);
    Enc16BE16(s, 30);
    Join5(s, 18, 20, 22, 26, 30, 32);
  }

  lemma EncodeDecodeHeaderKeys(s: seq<byte>, h: HeaderRec)
    requires |s| == HEADER_REC_SIZE
    requires BE32(s, 32) == h.clumpSize && s[36] == h.btreeType && s[37] == h.keyCompareType &&
      BE32(s, 38) == h.attributes
    ensures EncodeHeaderKeys(h) == s[32..42]
  {
    Enc32BE32(s, 32);
    Enc32BE32(s, 38);
    assert s[36..37] == [h.btreeType] && s[37..38] == [h.keyCompareType];
    Join4(s, 32, 36, 37, 38, 42);
  }

  // ---------------------------------------------------------------------
  // Reassociation helpers

  lemma Middle(pre: seq<byte>, x: seq<byte>, post: seq<byte>)
    ensures (pre + x + post)[|pre|..|pre| + |x|] == x
  {
  }

  lemma Unwrap(x: seq<byte>)
    ensures [] + x + [] == x
  {
  }

  lemma Assoc4(pre: seq<byte>, a0: seq<byte>, a1: seq<byte>, a2: seq<byte>, a3: seq<byte>, post: seq<byte>)
    ensures var s := pre + (a0 + a1 + a2 + a3) + post;
      s == (pre) + a0 + (a1 + a2 + a3 + post) &&
      s == (pre + a0) + a1 + (a2 + a3 + post) &&
      s == (pre + a0 + a1) + a2 + (a3 + post) &&
      s == (pre + a0 + a1 + a2) + a3 + (post)
  {
  }

  lemma Assoc5(pre: seq<byte>, a0: seq<byte>, a1: seq<byte>, a2: seq<byte>, a3: seq<byte>, a4: seq<byte>, post: seq<byte>)
    ensures var s := pre + (a0 + a1 + a2 + a3 + a4) + post;
      s == (pre) + a0 + (a1 + a2 + a3 + a4 + post) &&
      s == (pre + a0) + a1 + (a2 + a3 + a4 + post) &&
      s == (pre + a0 + a1) + a2 + (a3 + a4 + post) &&
      s == (pre + a0 + a1 + a2) + a3 + (a4 + post) &&
      s == (pre + a0 + a1 + a2 + a3) + a4 + (post)
  {
  }

  lemma Assoc6(pre: seq<byte>, a0: seq<byte>, a1: seq<byte>, a2: seq<byte>, a3: seq<byte>, a4: seq<byte>, a5: seq<byte>, post: seq<byte>)
    ensures var s := pre + (a0 + a1 + a2 + a3 + a4 + a5) + post;
      s == (pre) + a0 + (a1 + a2 + a3 + a4 + a5 + post) &&
      s == (pre + a0) + a1 + (a2 + a3 + a4 + a5 + post) &&
      s == (pre + a0 + a1) + a2 + (a3 + a4 + a5 + post) &&
      s == (pre + a0 + a1 + a2) + a3 + (a4 + a5 + post) &&
      s == (pre + a0 + a1 + a2 + a3) + a4 + (a5 + post) &&
      s == (pre + a0 + a1 + a2 + a3 + a4) + a5 + (post)
  {
  }
  /** A slice is the concatenation of the slices it splits into. */
  lemma Join2(s: seq<byte>, i0: nat, i1: nat, i2: nat)
    requires i0 <= i1 <= i2 <= |s|
    ensures s[i0..i2] == s[i0..i1] + s[i1..i2]
  {
  }

  lemma Join4(s: seq<byte>, i0: nat, i1: nat, i2: nat, i3: nat, i4: nat)
    requires i0 <= i1 <= i2 <= i3 <= i4 <= |s|
    ensures s[i0..i4] == s[i0..i1] + s[i1..i2] + s[i2..i3] + s[i3..i4]
  {
    Join2(s, i0, i1, i2);
    Join2(s, i0, i2, i3);
    Join2(s, i0, i3, i4);
  }

  lemma Join5(s: seq<byte>, i0: nat, i1: nat, i2: nat, i3: nat, i4: nat, i5: nat)
    requires i0 <= i1 <= i2 <= i3 <= i4 <= i5 <= |s|
    ensures s[i0..i5] == s[i0..i1] + s[i1..i2] + s[i2..i3] + s[i3..i4] + s[i4..i5]
  {
    Join4(s, i0, i1, i2, i3, i4);
    Join2(s, i0, i4, i5);
  }

  lemma Join6(s: seq<byte>, i0: nat, i1: nat, i2: nat, i3: nat, i4: nat, i5: nat, i6: nat)
    requires i0 <= i1 <= i2 <= i3 <= i4 <= i5 <= i6 <= |s|
    ensures s[i0..i6] == s[i0..i1] + s[i1..i2] + s[i2..i3] + s[i3..i4] + s[i4..i5] + s[i5..i6]
  {
    Join5(s, i0, i1, i2, i3, i4, i5);
    Join2(s, i0, i5, i6);
  }
}
