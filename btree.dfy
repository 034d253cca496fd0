/** hfsp_btree_open (hfsp_btree.c:51-78): read the front of a B-tree
    file's header node, node 0 of the tree, through the unscaled extent
    mapper, and view its bytes as a node descriptor followed by the
    header record. */
module BTree {
  import opened Bytes
  import opened Hfsp
  import opened Layout
  import opened Extents

  /** sizeof(BTNodeDescriptor) + sizeof(BTHeaderRec): 14 + 106 bytes. */
  const HEADER_NODE_READ: nat := NODE_DESCRIPTOR_SIZE + HEADER_REC_SIZE

  /** The node descriptor and the header record at the front of the
      header node. */
  datatype HeaderNode = HeaderNode(descriptor: NodeDescriptor, header: HeaderRec)

  /** The two views hfsp_btree.c:74-75 lays over the buffer: the node
      descriptor at its first byte and the header record at the byte
      right after the descriptor. */
  function DecodeHeaderNode(buf: seq<byte>): (n: HeaderNode)
    requires |buf| == HEADER_NODE_READ
    ensures ValidHeaderRec(n.header)
  {
    HeaderNode(DecodeNodeDescriptor(buf, 0), DecodeHeaderRec(buf[NODE_DESCRIPTOR_SIZE..]))
  }

  /** A header node laid out as TN1150 "B-Tree Header Node" prescribes,
      a descriptor and then the header record, reads back as both. */
  lemma DecodeEncodeHeaderNode(d: NodeDescriptor, h: HeaderRec)
    requires ValidHeaderRec(h)
    ensures |EncodeNodeDescriptor(d) + EncodeHeaderRec(h)| == HEADER_NODE_READ
    ensures DecodeHeaderNode(EncodeNodeDescriptor(d) + EncodeHeaderRec(h)) == HeaderNode(d, h)
  {
    var buf := EncodeNodeDescriptor(d) + EncodeHeaderRec(h);
    assert buf == [] + EncodeNodeDescriptor(d) + EncodeHeaderRec(h);
    DecodeEncodeNodeDescriptor(d, [], EncodeHeaderRec(h));
    assert buf[NODE_DESCRIPTOR_SIZE..] == EncodeHeaderRec(h);
    DecodeEncodeHeaderRec(h);
  }

  /** struct hfsp_btree, whose fields no shown header declares. */
  class Btree {
    constructor ()
    {
    }
  }

  /** The caller's struct hfsp_btree * that btreepp points at. */
  class BtreePtr {
    var target: Btree?

    constructor (target: Btree?)
      ensures this.target == target
    {
      this.target := target;
    }
  }

  /** hfsp_btree_open(mp, ip, btreepp). mallocOk is the outcome of the
      malloc at hfsp_btree.c:65, ioError the error bread gives back and
      buf the bytes it leaves in the buffer. An allocation failure gives
      ENOMEM and a null *btreepp; otherwise the first 120 bytes of the
      fork are requested from the device and the error of that request is
      the result. The header node is decoded only from a buffer that bread
      filled; on every other path no buffer exists. *btreepp is not
      written on success, as in the source. */
  method BTreeOpen(mp: Mount, ip: Inode, btreepp: BtreePtr, mallocOk: bool, ioError: int, buf: seq<byte>)
      returns (error: int, read: Option<ReadRequest>, node: Option<HeaderNode>)
    requires mp.data != null && mp.data.devvp != null
    requires ip.mount != null && ip.mount.blockSize > 0
    requires ip.firstExtents.Length == HFSP_FIRSTEXTENT_SIZE
    requires |buf| == HEADER_NODE_READ
    modifies btreepp
    ensures !mallocOk ==> error == ENOMEM && btreepp.target == null && read == None && node == None
    ensures mallocOk ==> btreepp.target == old(btreepp.target)
    ensures mallocOk && HEADER_NODE_READ > ip.forkSize ==> error == EBADF && read == None && node == None
    ensures mallocOk && HEADER_NODE_READ <= ip.forkSize ==>
      match MapBlock(ip.firstExtents[..], 0)
      case None => error == EINVAL && read == None && node == None
      case Some(blk) =>
        read == Some(ReadRequest(mp.data.devvp, blk, HEADER_NODE_READ)) && error == ioError &&
        node == if ioError == 0 then Some(DecodeHeaderNode(buf)) else None
  {
    var hmp := mp.data;
    var devvp := hmp.devvp;
    if !mallocOk {
      btreepp.target := null;
      return ENOMEM, None, None;
    }
    var r := BreadInodeDevice(devvp, ip, 0, HEADER_NODE_READ);
    match r {
      case MapError(e) =>
        return e, None, None;
      case Issue(req) =>
        error, read := ioError, Some(req);
        node := if ioError == 0 then Some(DecodeHeaderNode(buf)) else None;
    }
  }

  /** The request hfsp_btree_open makes starts at fork offset 0, so it
      reads allocation block startBlock of the first extent that holds
      any blocks: the first block of the B-tree file, its header node. */
  lemma HeaderNodeIsFirstBlock(es: seq<Extent>)
    requires MapBlock(es, 0).Some?
    ensures exists i ::
      && 0 <= i < |es| && es[i].blockCount > 0
      && MapBlock(es, 0).value == es[i].startBlock
      && (forall j :: 0 <= j < i ==> es[j].blockCount == 0)
  {
    var i := ExtentIndex(es, 0).value;
    ExtentIndexIff(es, 0, i);
    forall j | 0 <= j < i
      ensures es[j].blockCount == 0
    {
      BlocksBeforeMonotone(es, j + 1, i);
    }
  }
}
