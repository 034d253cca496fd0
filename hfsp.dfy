/** The in-memory objects the HFS Plus driver works on: the per-mount
    structure (struct hfspmount, hfsp.h:129-140), the in-memory inode with
    its fork (struct hfsp_inode, struct hfsp_fork, struct
    hfsp_extent_descriptor), and the parts of the FreeBSD kernel objects it
    reads and writes (struct vnode, struct mount, errno values). Fields hold
    the numbers the C code stores, with the range of their C type. */
module Hfsp {

  // errno values of FreeBSD's <sys/errno.h>.
  const EBADF: int := 9
  const ENOMEM: int := 12
  const EINVAL: int := 22

  datatype Option<T> = None | Some(value: T)

  type u32 = x: int | 0 <= x < 0x1_0000_0000
  type u64 = x: int | 0 <= x < 0x1_0000_0000_0000_0000
  type i16 = x: int | -0x8000 <= x < 0x8000
  type i32 = x: int | -0x8000_0000 <= x < 0x8000_0000

  /** Extents held inline in a fork (HFSP_FIRSTEXTENT_SIZE). */
  const HFSP_FIRSTEXTENT_SIZE: nat := 8
  /** Catalog node ID of the root folder (HFSP_ROOT_FOLDER_CNID). */
  const HFSP_ROOT_FOLDER_CNID: int := 2
  /** Catalog record type of a folder record (HFSP_FOLDER_RECORD). */
  const HFSP_FOLDER_RECORD: int := 1

  /** enum vtype of <sys/vnode.h>. */
  datatype VType = VNON | VREG | VDIR | VBLK | VCHR | VLNK | VSOCK | VFIFO | VBAD | VMARKER

  /** VV_ROOT in vnode.v_vflag: the vnode is the root of its file system. */
  const VV_ROOT: bv32 := 0x0001

  /** MNT_LOCAL in mount.mnt_flag: the file system is stored locally. */
  const MNT_LOCAL: bv64 := 0x1000

  /** struct hfsp_extent_descriptor (hfsp.h:111-114). */
  datatype Extent = Extent(startBlock: u32, blockCount: u32)

  /** The folder part of a catalog record (hr_folder). */
  datatype FolderRecord = FolderRecord(
    valence: u32,
    lstAccessDate: u32,
    lstChangeTime: u32,
    lstModifyDate: u32)

  /** The catalog record an inode was built from (struct hfsp_record). */
  datatype Record = Record(rtype: int, cnid: u32, folder: FolderRecord)

  /** A device (struct cdev), known to the model by its dev2udev number. */
  datatype Dev = Dev(udev: nat)

  /** struct vnode: only the fields the driver touches. */
  class Vnode {
    var vtype: VType
    var vflag: bv32
    var rdev: Dev
    var data: Inode?

    constructor (rdev: Dev)
      ensures vtype == VNON && vflag == 0 && this.rdev == rdev && data == null
    {
      vtype := VNON;
      vflag := 0;
      this.rdev := rdev;
      data := null;
    }
  }

  /** struct hfspmount (hfsp.h:129-140). physBlockSize is the
      hm_physBlockSize that hfsp_inode.c reads; the shown structure does
      not declare it. */
  class HfspMount {
    var signature: i16
    var version: i16
    var blockSize: i32
    var totalBlocks: i32
    var freeBlocks: i32
    var fileCount: i32
    var physBlockSize: int
    var dev: Dev
    var devvp: Vnode?

    /** malloc(..., M_ZERO): every field zero, every pointer null. */
    constructor Zeroed()
      ensures signature == 0 && version == 0
      ensures blockSize == 0 && totalBlocks == 0 && freeBlocks == 0 && fileCount == 0
      ensures physBlockSize == 0 && dev == Dev(0) && devvp == null
    {
      signature, version := 0, 0;
      blockSize, totalBlocks, freeBlocks, fileCount := 0, 0, 0, 0;
      physBlockSize := 0;
      dev := Dev(0);
      devvp := null;
    }
  }

  /** The in-memory inode, with the fields the .c files use: hi_fork's
      size and totalBlocks (struct hfsp_fork, hfsp.h:116-119), the eight
      inline extents they reach as hi_fork.first_extents, hi_cnid,
      hi_record, hi_mount and hi_vp. struct hfsp_inode itself is not
      declared in the sources, and struct hfsp_fork as declared has no
      first_extents member; both are modelled from their uses. */
  class Inode {
    var forkSize: u64
    var forkTotalBlocks: u32
    const firstExtents: array<Extent>
    var cnid: u32
    var record: Record
    var mount: HfspMount?
    var vp: Vnode?

    /** uma_zalloc(..., M_ZERO): every field zero, every pointer null. */
    constructor Zeroed()
      ensures forkSize == 0 && forkTotalBlocks == 0 && cnid == 0
      ensures fresh(firstExtents) && firstExtents.Length == HFSP_FIRSTEXTENT_SIZE
      ensures forall i :: 0 <= i < firstExtents.Length ==> firstExtents[i] == Extent(0, 0)
      ensures record == Record(0, 0, FolderRecord(0, 0, 0, 0))
      ensures mount == null && vp == null
    {
      forkSize, forkTotalBlocks, cnid := 0, 0, 0;
      firstExtents := new Extent[HFSP_FIRSTEXTENT_SIZE](_ => Extent(0, 0));
      record := Record(0, 0, FolderRecord(0, 0, 0, 0));
      mount := null;
      vp := null;
    }
  }

  /** struct mount: the private data pointer, the flags and the file system id. */
  class Mount {
    var data: HfspMount?
    var flag: bv64
    var fsid: (int, int)
    /** mnt_vfc->vfc_typenum, the type number of the registered file system. */
    const typeNum: int

    constructor (flag: bv64, typeNum: int)
      ensures data == null && this.flag == flag && fsid == (0, 0) && this.typeNum == typeNum
    {
      data := null;
      this.flag := flag;
      fsid := (0, 0);
      this.typeNum := typeNum;
    }
  }
}
