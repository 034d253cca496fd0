/** The file-system operations of hfsp_vfsops.c that compute something:
    the volume-header fields mount keeps, the in-memory fork vget_fork
    builds from an on-disk fork, the counts statfs reports, and the
    MNT_LOCAL flag mount sets and unmount clears. Path lookup, GEOM,
    locking and vnode allocation are outcomes passed in as parameters. */
module Vfsops {
  import opened Bytes
  import opened Hfsp
  import opened Layout
  import Extents

  // ---------------------------------------------------------------------
  // hfsp_mount

  /** The device block and length of the volume-header read: block 2 of
      512 bytes, byte offset 1024 (TN1150 "Volume Header"), exactly one
      encoded volume header. */
  const HEADER_BLOCK: int := 2
  const HEADER_READ_SIZE: int := 512

  /** The three be32toh reads of hfsp_vfsops.c:121-123, at the byte offsets
      of the fields in the packed header: the result is the volume header's
      block size, total blocks and free blocks, each read as a signed
      32-bit number. */
  method HeaderCounts(header: seq<byte>) returns (blockSize: i32, totalBlocks: i32, freeBlocks: i32)
    requires |header| == VOLUME_HEADER_SIZE
    ensures var h := DecodeVolumeHeader(header);
      blockSize == Signed32(h.blockSize) && totalBlocks == Signed32(h.totalBlocks) &&
      freeBlocks == Signed32(h.freeBlocks)
  {
    blockSize := Signed32(BE32(header, 40));
    totalBlocks := Signed32(BE32(header, 44));
    freeBlocks := Signed32(BE32(header, 48));
  }

  /** hfsp_vfsops.c:134: MNT_LOCAL is added to the mount's flags. */
  method MarkLocal(mp: Mount)
    modifies mp
    ensures mp.flag == old(mp.flag) | MNT_LOCAL
    ensures mp.data == old(mp.data) && mp.fsid == old(mp.fsid)
  {
    mp.flag := mp.flag | MNT_LOCAL;
  }

  /** hfsp_vfsops.c:119-134 once the counts are read: a fresh zero-filled
      hfspmount holding them and the device becomes the mount's data, the
      fsid is the device number and the file-system type number, and
      MNT_LOCAL is added to the flags. */
  method InstallMount(mp: Mount, devvp: Vnode, blockSize: i32, totalBlocks: i32, freeBlocks: i32)
    modifies mp
    ensures mp.data != null && fresh(mp.data)
    ensures && mp.data.blockSize == blockSize
      && mp.data.totalBlocks == totalBlocks
      && mp.data.freeBlocks == freeBlocks
      && mp.data.fileCount == 0
      && mp.data.signature == 0 && mp.data.version == 0
      && mp.data.dev == devvp.rdev && mp.data.devvp == devvp
      && mp.fsid == (devvp.rdev.udev, mp.typeNum)
      && mp.flag == old(mp.flag) | MNT_LOCAL
  {
    var hmp := new HfspMount.Zeroed();
    hmp.blockSize := blockSize;
    hmp.totalBlocks := totalBlocks;
    hmp.freeBlocks := freeBlocks;
    mp.data := hmp;
    mp.fsid := (devvp.rdev.udev, mp.typeNum);
    hmp.dev := devvp.rdev;
    hmp.devvp := devvp;
    MarkLocal(mp);
  }

  /** hfsp_mount (hfsp_vfsops.c:45-151) from the point where the device is
      open. read is the read it issues, 512 bytes at device block 2;
      readError is its result and header the 512 bytes it returns. On a read error the mount is left alone
      and the error is the result. Otherwise a zero-filled hfspmount
      keeps the header's block size and block counts, read big-endian into
      signed 32-bit fields, together with the device; the mount's fsid is
      the device number and the file-system type number, and MNT_LOCAL is
      added to its flags. */
  method VfsMount(mp: Mount, devvp: Vnode, readError: int, header: seq<byte>)
      returns (error: int, read: Extents.ReadRequest)
    requires |header| == VOLUME_HEADER_SIZE
    modifies mp
    ensures read == Extents.ReadRequest(devvp, HEADER_BLOCK, HEADER_READ_SIZE)
    ensures HEADER_READ_SIZE == VOLUME_HEADER_SIZE
    ensures readError != 0 ==>
      error == readError && mp.data == old(mp.data) && mp.flag == old(mp.flag) && mp.fsid == old(mp.fsid)
    ensures readError == 0 ==> error == 0 && mp.data != null && fresh(mp.data)
    ensures readError == 0 ==> var h := DecodeVolumeHeader(header);
      && mp.data.blockSize == Signed32(h.blockSize)
      && mp.data.totalBlocks == Signed32(h.totalBlocks)
      && mp.data.freeBlocks == Signed32(h.freeBlocks)
      && mp.data.fileCount == 0
      && mp.data.signature == 0 && mp.data.version == 0
      && mp.data.dev == devvp.rdev && mp.data.devvp == devvp
      && mp.fsid == (devvp.rdev.udev, mp.typeNum)
      && mp.flag == old(mp.flag) | MNT_LOCAL
  {
    read := Extents.ReadRequest(devvp, HEADER_BLOCK, HEADER_READ_SIZE);
    if readError != 0 {
      return readError, read;
    }
    var blockSize, totalBlocks, freeBlocks := HeaderCounts(header);
    InstallMount(mp, devvp, blockSize, totalBlocks, freeBlocks);
    return 0, read;
  }

  // ---------------------------------------------------------------------
  // hfsp_statfs

  /** struct statfs: the counts hfsp_statfs writes, all uint64_t. */
  class StatFs {
    var bsize: int
    var blocks: int
    var bfree: int
    var files: int

    constructor ()
      ensures bsize == 0 && blocks == 0 && bfree == 0 && files == 0
    {
      bsize, blocks, bfree, files := 0, 0, 0, 0;
    }
  }

  /** A signed 32-bit value stored in a uint64_t: negative values wrap
      modulo 2^64. */
  function ToU64(x: i32): u64
  {
    x % 0x1_0000_0000_0000_0000
  }

  /** A count decoded from the volume header and reported by statfs is
      the header's value when its top bit is clear; with the top bit set,
      the signed field sign-extends it into the upper 32 bits. */
  lemma ReportedCount(x: bv32)
    ensures ToU64(Signed32(x)) == x as int <==> x < 0x8000_0000
    ensures x >= 0x8000_0000 ==> ToU64(Signed32(x)) == x as int + 0xFFFF_FFFF_0000_0000
  {
    Signed32Agrees(x);
    var v := Signed32(x);
    if x >= 0x8000_0000 {
      assert v == x as int - 0x1_0000_0000 && v < 0;
      assert ToU64(v) == v + 0x1_0000_0000_0000_0000;
    } else {
      assert v >= 0 && ToU64(v) == v;
    }
  }

  /** hfsp_statfs (hfsp_vfsops.c:203-217): block size, total and free
      blocks and file count of the hfspmount, widened into the statfs
      fields; the result is 0. */
  method VfsStatfs(mp: Mount, sbp: StatFs) returns (r: int)
    requires mp.data != null
    modifies sbp
    ensures r == 0
    ensures sbp.bsize == ToU64(mp.data.blockSize) && sbp.blocks == ToU64(mp.data.totalBlocks)
    ensures sbp.bfree == ToU64(mp.data.freeBlocks) && sbp.files == ToU64(mp.data.fileCount)
  {
    var hfsmp := mp.data;
    sbp.bsize := ToU64(hfsmp.blockSize);
    sbp.blocks := ToU64(hfsmp.totalBlocks);
    sbp.bfree := ToU64(hfsmp.freeBlocks);
    sbp.files := ToU64(hfsmp.fileCount);
    return 0;
  }

  // ---------------------------------------------------------------------
  // hfsp_unmount

  /** hfsp_unmount (hfsp_vfsops.c:219-240): the hfspmount is released, the
      mount's data pointer is cleared and MNT_LOCAL is taken out of its
      flags; the result is 0. */
  method VfsUnmount(mp: Mount) returns (r: int)
    modifies mp
    ensures r == 0 && mp.data == null
    ensures mp.flag == old(mp.flag) & !MNT_LOCAL && mp.fsid == old(mp.fsid)
  {
    mp.data := null;
    mp.flag := mp.flag & !MNT_LOCAL;
    return 0;
  }

  /** Mount adds MNT_LOCAL and unmount removes it and nothing else, so a
      mount that was not local before is restored to its flags. */
  lemma LocalFlagRoundTrip(f: bv64)
    ensures (f | MNT_LOCAL) & MNT_LOCAL == MNT_LOCAL
    ensures f & MNT_LOCAL == 0 <==> (f | MNT_LOCAL) & !MNT_LOCAL == f
  {
  }

  // ---------------------------------------------------------------------
  // hfsp_vget_fork

  /** The in-memory fork (struct hfsp_fork with its inline extents). */
  datatype MemFork = MemFork(size: u64, totalBlocks: u32, extents: seq<Extent>)

  /** An on-disk extent descriptor as the in-memory hfsp_extent_descriptor. */
  function MemExtent(e: ExtentDescriptor): Extent
  {
    Extent(e.startBlock as int, e.blockCount as int)
  }

  /** The in-memory fork for an on-disk HFSPlusForkData: the logical size,
      the block total and the eight extents; clumpSize is not kept. */
  function MemForkOf(f: ForkData): (m: MemFork)
    requires ValidForkData(f)
    ensures |m.extents| == HFSP_FIRSTEXTENT_SIZE
  {
    MemFork(f.logicalSize as int, f.totalBlocks as int,
            seq(HFSP_FIRSTEXTENT_SIZE, i requires 0 <= i < HFSP_FIRSTEXTENT_SIZE => MemExtent(f.extents[i])))
  }

  /** Reading a fork back from its on-disk bytes gives the in-memory
      fork of the fork written, and the clump size, which the in-memory
      fork has no field for, makes no difference to it. */
  lemma MemForkDropsClump(f: ForkData, clumpSize: bv32)
    requires ValidForkData(f)
    ensures MemForkOf(DecodeForkData(EncodeForkData(f), 0)) == MemForkOf(f)
    ensures MemForkOf(f.(clumpSize := clumpSize)) == MemForkOf(f)
  {
    assert EncodeForkData(f) == [] + EncodeForkData(f) + [];
    DecodeEncodeForkData(f, [], []);
  }

  /** The loop of hfsp_vfsops.c:165-169: each of the eight on-disk
      extents, start block and block count, into the inode's array. */
  method CopyExtents(extents: array<Extent>, f: ForkData)
    requires ValidForkData(f) && extents.Length == HFSP_FIRSTEXTENT_SIZE
    modifies extents
    ensures extents[..] == MemForkOf(f).extents
  {
    for i := 0 to HFSP_FIRSTEXTENT_SIZE
      invariant forall k :: 0 <= k < i ==> extents[k] == MemExtent(f.extents[k])
    {
      extents[i] := Extent(f.extents[i].startBlock as int, f.extents[i].blockCount as int);
    }
  }

  /** hfsp_vfsops.c:163-169: the fork's logical size, block total and
      eight extents into the inode; nothing else of the inode changes. */
  method CopyFork(ip: Inode, f: ForkData)
    requires ValidForkData(f) && ip.firstExtents.Length == HFSP_FIRSTEXTENT_SIZE
    modifies ip, ip.firstExtents
    ensures MemFork(ip.forkSize, ip.forkTotalBlocks, ip.firstExtents[..]) == MemForkOf(f)
    ensures ip.mount == old(ip.mount) && ip.vp == old(ip.vp)
    ensures ip.cnid == old(ip.cnid) && ip.record == old(ip.record)
  {
    ip.forkSize := f.logicalSize as int;
    ip.forkTotalBlocks := f.totalBlocks as int;
    CopyExtents(ip.firstExtents, f);
  }

  /** hfsp_vget_fork(mp, fork, vpp) (hfsp_vfsops.c:153-193). fork is the
      80-byte on-disk fork; getnewvnodeError and insmntqueError are the
      outcomes of those two kernel calls. A fresh zero-filled inode gets
      the fork's size, block total and eight extents, decoded big-endian;
      if either kernel call fails, *vpp is null and its error is the
      result. Otherwise *vpp is a new vnode whose data is that inode, and
      the result is 0. */
  method VgetFork(mp: Mount, fork: seq<byte>, getnewvnodeError: int, insmntqueError: int)
      returns (error: int, vp: Vnode?)
    requires |fork| == FORK_DATA_SIZE
    ensures getnewvnodeError != 0 ==> error == getnewvnodeError && vp == null
    ensures getnewvnodeError == 0 && insmntqueError != 0 ==> error == insmntqueError && vp == null
    ensures getnewvnodeError == 0 && insmntqueError == 0 ==>
      && error == 0 && vp != null && fresh(vp)
      && vp.data != null && fresh(vp.data) && fresh(vp.data.firstExtents)
      && MemFork(vp.data.forkSize, vp.data.forkTotalBlocks, vp.data.firstExtents[..]) == MemForkOf(DecodeForkData(fork, 0))
      && vp.data.mount == null
  {
    var ip := new Inode.Zeroed();
    CopyFork(ip, DecodeForkData(fork, 0));
    if getnewvnodeError != 0 {
      return getnewvnodeError, null;
    }
    var v := new Vnode(Dev(0));
    v.data := ip;
    if insmntqueError != 0 {
      return insmntqueError, null;
    }
    return 0, v;
  }
}
