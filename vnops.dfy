/** The vnode side of an inode (hfsp_vnops.c): the vnode type a catalog
    record type maps to (hfsp_record2vtype, hfsp_vinit) and the attributes
    hfsp_getattr reports for it. */
module Vnops {
  import opened Hfsp

  /** hfsp_record2vtype (hfsp_vnops.c:21), indexed by catalog record type. */
  const RECORD2VTYPE: seq<VType> := [VNON, VDIR, VCHR, VNON, VNON]

  /** sizeof(hfsp_record2vtype): five enum vtype entries of four bytes each
      (an enum has the size of an int on the platforms FreeBSD supports). */
  const RECORD2VTYPE_BYTES: int := 5 * 4

  // ---------------------------------------------------------------------
  // hfsp_vinit

  /** The vnode type for record type t: the table entry for the five types
      it covers, VBAD for every other type. Folders are directories,
      type 2 is a character device, and types 0, 3 and 4 have no type. */
  function RecordVType(t: int): (v: VType)
    ensures v == VDIR <==> t == HFSP_FOLDER_RECORD
    ensures v == VCHR <==> t == 2
    ensures v == VNON <==> t == 0 || t == 3 || t == 4
    ensures v == VBAD <==> !(0 <= t < |RECORD2VTYPE|)
  {
    if 0 <= t < |RECORD2VTYPE| then RECORD2VTYPE[t] else VBAD
  }

  /** The type hfsp_vinit picks as written (hfsp_vnops.c:97-100): the guard
      compares t with the table's size in bytes, 20, not with its five
      entries. Negative types are huge once the comparison converts them
      to size_t, and get VBAD like the types from 20 on; the types 5 to 19
      pass the guard and read past the end of the table, which gives no
      defined value (None). */
  function VTypeAsWritten(t: int): Option<VType>
  {
    if 0 <= t < RECORD2VTYPE_BYTES then
      if t < |RECORD2VTYPE| then Some(RECORD2VTYPE[t]) else None
    else Some(VBAD)
  }

  /** The guard as written lets record type 5 through, and the table has
      no entry for it. */
  lemma GuardAdmitsPastTable()
    ensures 0 <= 5 < RECORD2VTYPE_BYTES && 5 >= |RECORD2VTYPE|
    ensures VTypeAsWritten(5) == None && RecordVType(5) == VBAD
  {
  }

  /** The code as written and the corrected mapping agree on every record
      type except the fifteen types 5-19 that the byte-size guard admits. */
  lemma VTypeAgreesOutsideGap(t: int)
    ensures VTypeAsWritten(t) == Some(RecordVType(t)) <==> !(|RECORD2VTYPE| <= t < RECORD2VTYPE_BYTES)
  {
  }

  /** hfsp_vinit(vp, ip) (hfsp_vnops.c:94-104) with the guard on the
      table's five entries: the vnode type comes from the record type, and
      the vnode of the root folder gets VV_ROOT added to its flags. */
  method Vinit(vp: Vnode, ip: Inode)
    modifies vp
    ensures vp.vtype == RecordVType(ip.record.rtype)
    ensures vp.vflag == if ip.cnid == HFSP_ROOT_FOLDER_CNID then old(vp.vflag) | VV_ROOT else old(vp.vflag)
    ensures vp.rdev == old(vp.rdev) && vp.data == old(vp.data)
  {
    var t := ip.record.rtype;
    if 0 <= t < |RECORD2VTYPE| {
      vp.vtype := RECORD2VTYPE[t];
    } else {
      vp.vtype := VBAD;
    }
    if ip.cnid == HFSP_ROOT_FOLDER_CNID {
      vp.vflag := vp.vflag | VV_ROOT;
    }
  }

  /** Marking the root sets VV_ROOT and no other flag. */
  lemma RootMarkKeepsOtherFlags(f: bv32)
    ensures (f | VV_ROOT) & VV_ROOT == VV_ROOT
    ensures (f | VV_ROOT) & !VV_ROOT == f & !VV_ROOT
  {
  }

  // ---------------------------------------------------------------------
  // hfsp_getattr

  /** struct timespec. */
  datatype Timespec = Timespec(sec: int, nsec: int)

  /** struct vattr: the fields hfsp_getattr writes. */
  class Vattr {
    var fsid: int
    var fileid: int
    var atime: Timespec
    var ctime: Timespec
    var mtime: Timespec
    var size: int
    var vtype: VType

    constructor ()
      ensures fsid == 0 && fileid == 0 && size == 0 && vtype == VNON
      ensures atime == Timespec(0, 0) && ctime == Timespec(0, 0) && mtime == Timespec(0, 0)
    {
      fsid, fileid, size, vtype := 0, 0, 0, VNON;
      atime, ctime, mtime := Timespec(0, 0), Timespec(0, 0), Timespec(0, 0);
    }
  }

  /** hrfo_valence + 2, computed in the 32-bit unsigned type of the
      valence before it is widened into va_size. */
  function FolderSize(valence: u32): u32
  {
    (valence + 2) % 0x1_0000_0000
  }

  /** A folder's size counts its entries plus "." and "..", except that
      the 32-bit sum wraps for the two largest valences. */
  lemma FolderSizeCountsDots(valence: u32)
    ensures valence < 0xFFFF_FFFE ==> FolderSize(valence) == valence + 2
    ensures valence >= 0xFFFF_FFFE ==> FolderSize(valence) == valence + 2 - 0x1_0000_0000
    ensures FolderSize(valence) < 2 <==> valence >= 0xFFFF_FFFE
  {
  }

  /** hfsp_getattr (hfsp_vnops.c:23-45): the file system id is the mount's
      device, the file id is the record's catalog node id and the type is
      the vnode's. A folder record also gives the access, change and
      modification seconds with zero nanoseconds, and the size; other
      records leave those fields as they were. The result is always 0. */
  method Getattr(vp: Vnode, vap: Vattr) returns (r: int)
    requires vp.data != null && vp.data.mount != null
    modifies vap
    ensures r == 0
    ensures vap.fsid == vp.data.mount.dev.udev && vap.fileid == vp.data.record.cnid && vap.vtype == vp.vtype
    ensures var rec := vp.data.record;
      if rec.rtype == HFSP_FOLDER_RECORD then
        && vap.atime == Timespec(rec.folder.lstAccessDate, 0)
        && vap.ctime == Timespec(rec.folder.lstChangeTime, 0)
        && vap.mtime == Timespec(rec.folder.lstModifyDate, 0)
        && vap.size == FolderSize(rec.folder.valence)
      else
        && vap.atime == old(vap.atime) && vap.ctime == old(vap.ctime)
        && vap.mtime == old(vap.mtime) && vap.size == old(vap.size)
  {
    var ip := vp.data;
    var recp := ip.record;
    vap.fsid := ip.mount.dev.udev;
    vap.fileid := recp.cnid;
    if recp.rtype == HFSP_FOLDER_RECORD {
      vap.atime := Timespec(recp.folder.lstAccessDate, 0);
      vap.ctime := Timespec(recp.folder.lstChangeTime, 0);
      vap.mtime := Timespec(recp.folder.lstModifyDate, 0);
      vap.size := FolderSize(recp.folder.valence);
    }
    vap.vtype := vp.vtype;
    return 0;
  }
}
