/** The extent mapper hfsp_bread_inode, in its two variants: the one in
    hfsp_inode.c, which scales the allocation block to device sectors and
    sizes the read to whole sectors, and the older one in hfsp_btree.c,
    which reads the allocation block itself with the caller's size. Both
    turn a byte offset in a fork into an allocation block by walking the
    fork's eight inline extents. Instead of calling bread, each returns the
    read it would issue. */
module Extents {
  import opened Hfsp

  // ---------------------------------------------------------------------
  // Specification of the walk

  /** Allocation blocks held by the extents before index i. */
  function BlocksBefore(es: seq<Extent>, i: nat): nat
    requires i <= |es|
  {
    if i == 0 then 0 else BlocksBefore(es, i - 1) + es[i - 1].blockCount
  }

  /** Index of the extent holding fork block b, found by peeling off the
      leading extents; None when b lies beyond all of them. */
  function ExtentIndex(es: seq<Extent>, b: nat): (r: Option<nat>)
    ensures r.Some? ==> r.value < |es|
  {
    if es == [] then None
    else if b < es[0].blockCount then Some(0)
    else match ExtentIndex(es[1..], b - es[0].blockCount)
      case None => None
      case Some(i) => Some(i + 1)
  }

  /** The allocation block that holds fork block b, if an extent holds it. */
  function MapBlock(es: seq<Extent>, b: nat): Option<int>
  {
    match ExtentIndex(es, b)
    case None => None
    case Some(i) => Some(es[i].startBlock + (b - BlocksBefore(es, i)))
  }

  lemma {:induction false} BlocksBeforeTail(es: seq<Extent>, i: nat)
    requires 0 < |es| && i < |es|
    ensures BlocksBefore(es, i + 1) == es[0].blockCount + BlocksBefore(es[1..], i)
    decreases i
  {
    if i > 0 {
      BlocksBeforeTail(es, i - 1);
    }
  }

  lemma {:induction false} BlocksBeforeMonotone(es: seq<Extent>, i: nat, j: nat)
    requires i <= j <= |es|
    ensures BlocksBefore(es, i) <= BlocksBefore(es, j)
    decreases j
  {
    if i < j {
      BlocksBeforeMonotone(es, i, j - 1);
    }
  }

  /** Extent i is selected exactly when fork block b lies between the blocks
      of the extents before it and those up to and including it. */
  lemma {:induction false} ExtentIndexIff(es: seq<Extent>, b: nat, i: nat)
    requires i < |es|
    ensures ExtentIndex(es, b) == Some(i) <==> BlocksBefore(es, i) <= b < BlocksBefore(es, i + 1)
    decreases |es|
  {
    BlocksBeforeTail(es, i);
    if i > 0 {
      BlocksBeforeTail(es, i - 1);
      BlocksBeforeMonotone(es, 1, i);
      assert BlocksBefore(es, 1) == es[0].blockCount;
      if b >= es[0].blockCount {
        ExtentIndexIff(es[1..], b - es[0].blockCount, i - 1);
      }
    }
  }

  /** No extent is selected exactly when b is at or past the blocks of all
      extents: the walk has no overflow-extents lookup. */
  lemma {:induction false} ExtentIndexNone(es: seq<Extent>, b: nat)
    ensures ExtentIndex(es, b) == None <==> BlocksBefore(es, |es|) <= b
    decreases |es|
  {
    if es != [] {
      BlocksBeforeTail(es, |es| - 1);
      if b >= es[0].blockCount {
        ExtentIndexNone(es[1..], b - es[0].blockCount);
      }
    }
  }

  /** The selected extent is the first whose running block total exceeds b:
      every earlier extent ends at or before b, and it does not. */
  lemma SelectedIsFirst(es: seq<Extent>, b: nat, i: nat)
    requires ExtentIndex(es, b) == Some(i)
    ensures b < BlocksBefore(es, i + 1)
    ensures forall j :: 0 < j <= i ==> BlocksBefore(es, j) <= b
  {
    ExtentIndexIff(es, b, i);
    forall j | 0 < j <= i
      ensures BlocksBefore(es, j) <= b
    {
      BlocksBeforeMonotone(es, j, i);
    }
  }

  /** An extent with no blocks is never selected. */
  lemma EmptyExtentNeverSelected(es: seq<Extent>, b: nat, i: nat)
    requires i < |es| && es[i].blockCount == 0
    ensures ExtentIndex(es, b) != Some(i)
  {
    ExtentIndexIff(es, b, i);
  }

  /** The mapped block lies inside the selected extent. */
  lemma MapBlockInExtent(es: seq<Extent>, b: nat)
    requires ExtentIndex(es, b).Some?
    ensures var i := ExtentIndex(es, b).value;
      MapBlock(es, b).Some? &&
      es[i].startBlock <= MapBlock(es, b).value < es[i].startBlock + es[i].blockCount
  {
    var i := ExtentIndex(es, b).value;
    ExtentIndexIff(es, b, i);
  }

  // ---------------------------------------------------------------------
  // The walk as the C code does it

  /** The for-loop shared by both variants: accumulate block counts over
      the inline extents until one reaches past blkOffset. */
  method LocateBlock(extents: array<Extent>, blkOffset: nat) returns (found: bool, blk: int)
    requires extents.Length == HFSP_FIRSTEXTENT_SIZE
    ensures found <==> MapBlock(extents[..], blkOffset).Some?
    ensures found ==> blk == MapBlock(extents[..], blkOffset).value
  {
    ghost var es := extents[..];
    var blkCount := 0;
    var i := 0;
    found, blk := false, 0;
    while i < HFSP_FIRSTEXTENT_SIZE
      invariant 0 <= i <= HFSP_FIRSTEXTENT_SIZE
      invariant blkCount == BlocksBefore(es, i) <= blkOffset
    {
      var ep := extents[i];
      if blkCount + ep.blockCount > blkOffset {
        found := true;
        blk := ep.startBlock + (blkOffset - blkCount);
        ExtentIndexIff(es, blkOffset, i);
        return;
      }
      blkCount := blkCount + ep.blockCount;
      i := i + 1;
    }
    ExtentIndexNone(es, blkOffset);
  }

  /** The read a variant would hand to bread: vnode, block number, length. */
  datatype ReadRequest = ReadRequest(vp: Vnode, blkno: int, size: int)

  /** What hfsp_bread_inode does: fail with an errno before reading, or issue a read. */
  datatype MapResult = MapError(errno: int) | Issue(req: ReadRequest)

  /** Read length of hfsp_inode.c:26 as written: the requested size rounded
      DOWN to whole device sectors, and at least one sector. */
  function TruncatedReadLength(size: nat, physBlockSize: nat): int
    requires physBlockSize > 0
  {
    (if size / physBlockSize < 1 then 1 else size / physBlockSize) * physBlockSize
  }

  /** The rounding down reads less than was asked for whenever the size is
      more than a sector and not a whole number of sectors. */
  lemma TruncatedReadLengthShort(size: nat, physBlockSize: nat)
    requires physBlockSize > 0 && size > physBlockSize && size % physBlockSize != 0
    ensures TruncatedReadLength(size, physBlockSize) < size
  {
    var q := size / physBlockSize;
    assert size == q * physBlockSize + size % physBlockSize;
  }

  /** The read length the "physical block size granularity" of
      hfsp_inode.c:11-16 calls for: the size rounded UP to whole sectors. */
  function ReadLength(size: nat, physBlockSize: nat): int
    requires physBlockSize > 0
  {
    var sectors := (size + physBlockSize - 1) / physBlockSize;
    (if sectors < 1 then 1 else sectors) * physBlockSize
  }

  /** The corrected length is the least positive multiple of the sector
      size that covers the request. */
  lemma ReadLengthCovers(size: nat, physBlockSize: nat)
    requires physBlockSize > 0
    ensures ReadLength(size, physBlockSize) % physBlockSize == 0
    ensures size <= ReadLength(size, physBlockSize)
    ensures physBlockSize <= ReadLength(size, physBlockSize)
    ensures size > 0 ==> ReadLength(size, physBlockSize) < size + physBlockSize
  {
    var n := (size + physBlockSize - 1) / physBlockSize;
    assert size + physBlockSize - 1 == n * physBlockSize + (size + physBlockSize - 1) % physBlockSize;
    if n >= 1 {
      MulAtLeast(n, physBlockSize);
      MultipleMod(n, physBlockSize);
    } else {
      MultipleMod(1, physBlockSize);
    }
  }

  /** Both lengths agree when the request is a whole number of sectors. */
  lemma ReadLengthsAgree(size: nat, physBlockSize: nat)
    requires physBlockSize > 0 && size % physBlockSize == 0
    ensures ReadLength(size, physBlockSize) == TruncatedReadLength(size, physBlockSize)
  {
    var p := physBlockSize;
    var q, k := size / p, (size + p - 1) / p;
    assert size == q * p;
    assert size + p - 1 == k * p + (size + p - 1) % p;
    if q - k >= 1 {
      MulAtLeast(q - k, p);
    } else if k - q >= 1 {
      MulAtLeast(k - q, p);
    }
  }

  lemma MulAtLeast(a: int, m: int)
    requires a >= 1 && m > 0
    ensures a * m >= m
  {
    assert a * m == (a - 1) * m + m;
  }

  lemma MultipleMod(n: int, m: int)
    requires m > 0
    ensures (n * m) % m == 0
  {
    var q, r := (n * m) / m, (n * m) % m;
    assert n * m == q * m + r;
    assert (n - q) * m == r;
    if n - q >= 1 {
      MulAtLeast(n - q, m);
    } else if q - n >= 1 {
      MulAtLeast(q - n, m);
    }
  }

  /** hfsp_bread_inode of hfsp_inode.c as written: EBADF when the range
      passes the end of the fork, EINVAL when no inline extent holds the
      block, and otherwise a read on the inode's vnode at the allocation
      block scaled to device sectors, for the size rounded DOWN to whole
      sectors (TruncatedReadLength). */
  method BreadInode(ip: Inode, fileOffset: u64, size: int) returns (r: MapResult)
    requires ip.mount != null && ip.vp != null
    requires ip.firstExtents.Length == HFSP_FIRSTEXTENT_SIZE
    requires ip.mount.blockSize > 0 && ip.mount.physBlockSize > 0
    requires 0 <= size < 0x8000_0000 && fileOffset + size < 0x1_0000_0000_0000_0000
    ensures fileOffset + size > ip.forkSize ==> r == MapError(EBADF)
    ensures fileOffset + size <= ip.forkSize ==>
      var bs, phys := ip.mount.blockSize, ip.mount.physBlockSize;
      match MapBlock(ip.firstExtents[..], fileOffset / bs)
      case None => r == MapError(EINVAL)
      case Some(blk) => r == Issue(ReadRequest(ip.vp, blk * (bs / phys), TruncatedReadLength(size, phys)))
  {
    var vp := ip.vp;
    var hmp := ip.mount;
    var sizeBread := TruncatedReadLength(size, hmp.physBlockSize);
    var blkOffsetFile := fileOffset / hmp.blockSize;
    var blkFactor := hmp.blockSize / hmp.physBlockSize;
    if fileOffset + size > ip.forkSize {
      return MapError(EBADF);
    }
    var found, blk := LocateBlock(ip.firstExtents, blkOffsetFile);
    if !found {
      return MapError(EINVAL);
    }
    r := Issue(ReadRequest(vp, blk * blkFactor, sizeBread));
  }

  /** hfsp_bread_inode of hfsp_inode.c with the read length corrected: the
      same errors and the same first sector, but a read of the request
      rounded UP to whole sectors, which covers every byte asked for. */
  method BreadInodeRoundedUp(ip: Inode, fileOffset: u64, size: int) returns (r: MapResult)
    requires ip.mount != null && ip.vp != null
    requires ip.firstExtents.Length == HFSP_FIRSTEXTENT_SIZE
    requires ip.mount.blockSize > 0 && ip.mount.physBlockSize > 0
    requires 0 <= size < 0x8000_0000 && fileOffset + size < 0x1_0000_0000_0000_0000
    ensures fileOffset + size > ip.forkSize ==> r == MapError(EBADF)
    ensures fileOffset + size <= ip.forkSize ==>
      var bs, phys := ip.mount.blockSize, ip.mount.physBlockSize;
      match MapBlock(ip.firstExtents[..], fileOffset / bs)
      case None => r == MapError(EINVAL)
      case Some(blk) => r == Issue(ReadRequest(ip.vp, blk * (bs / phys), ReadLength(size, phys)))
    ensures r.Issue? ==>
      var phys := ip.mount.physBlockSize;
      size <= r.req.size && phys <= r.req.size && r.req.size % phys == 0
  {
    r := BreadInode(ip, fileOffset, size);
    if r.Issue? {
      ReadLengthCovers(size, ip.mount.physBlockSize);
      r := Issue(r.req.(size := ReadLength(size, ip.mount.physBlockSize)));
    }
  }

  /** hfsp_bread_inode of hfsp_btree.c, with the running total starting at
      zero: the same walk, but the read goes to the device vnode at the
      allocation block number itself, with the caller's size. */
  method BreadInodeDevice(devvp: Vnode, ip: Inode, fileOffset: u64, size: int) returns (r: MapResult)
    requires ip.mount != null
    requires ip.firstExtents.Length == HFSP_FIRSTEXTENT_SIZE
    requires ip.mount.blockSize > 0
    requires 0 <= size < 0x8000_0000 && fileOffset + size < 0x1_0000_0000_0000_0000
    ensures fileOffset + size > ip.forkSize ==> r == MapError(EBADF)
    ensures fileOffset + size <= ip.forkSize ==>
      match MapBlock(ip.firstExtents[..], fileOffset / ip.mount.blockSize)
      case None => r == MapError(EINVAL)
      case Some(blk) => r == Issue(ReadRequest(devvp, blk, size))
  {
    var hmp := ip.mount;
    var blkOffsetFile := fileOffset / hmp.blockSize;
    if fileOffset + size > ip.forkSize {
      return MapError(EBADF);
    }
    var found, blk := LocateBlock(ip.firstExtents, blkOffsetFile);
    if !found {
      return MapError(EINVAL);
    }
    r := Issue(ReadRequest(devvp, blk, size));
  }

  /** The sector BreadInode reads from starts at byte blk * blockSize of
      the device, the first byte of the allocation block that holds
      fileOffset, when the block size is a whole number of sectors. */
  lemma ScaledReadStartsAtBlock(es: seq<Extent>, fileOffset: nat, blockSize: nat, physBlockSize: nat)
    requires blockSize > 0 && physBlockSize > 0 && blockSize % physBlockSize == 0
    requires MapBlock(es, fileOffset / blockSize).Some?
    ensures var blk := MapBlock(es, fileOffset / blockSize).value;
      blk * (blockSize / physBlockSize) * physBlockSize == blk * blockSize
  {
    var blk := MapBlock(es, fileOffset / blockSize).value;
    var f := blockSize / physBlockSize;
    assert f * physBlockSize == blockSize;
    calc {
      blk * f * physBlockSize;
      blk * (f * physBlockSize);
      blk * blockSize;
    }
  }
}
