/** Values stored in the index file: node layouts, the metadata record, record ids,
    the page file itself, and the faults an operation can end with. */
module BTreeTypes {

  datatype Option<+T> = None | Some(value: T)

  /** Byte widths of the BadgerDB page layer that fix the node capacities. */
  const PageSize: int := 8192
  const IntBytes: int := 4
  const PageIdBytes: int := 4
  const RecordIdBytes: int := 8

  /** INTARRAYLEAFSIZE: key / record-id slots of an integer leaf. */
  const LeafSize: nat := (PageSize - PageIdBytes) / (IntBytes + RecordIdBytes)
  /** INTARRAYNONLEAFSIZE: key slots of an integer internal node (it has one more child slot). */
  const NonLeafSize: nat := (PageSize - IntBytes - PageIdBytes) / (IntBytes + PageIdBytes)

  /** Key value that marks an unused slot of a key array. */
  const EmptyKey: int := -1

  type PageId = nat

  /** `PageId()`: the invalid page number, never handed out by allocation. */
  const NullPage: PageId := 0

  /** Type tag of the indexed attribute; only INTEGER is supported. */
  datatype AttrType = Integer | Double | String

  /** Location of an indexed record in the relation (page and slot). */
  datatype RecordId = RecordId(pageNumber: PageId, slotNumber: nat)

  const NullRid: RecordId := RecordId(NullPage, 0)

  type NodeKeys = s: seq<int> | |s| == NonLeafSize witness seq(NonLeafSize, _ => EmptyKey)
  type NodeChildren = s: seq<PageId> | |s| == NonLeafSize + 1 witness seq(NonLeafSize + 1, _ => NullPage)
  type LeafKeys = s: seq<int> | |s| == LeafSize witness seq(LeafSize, _ => EmptyKey)
  type LeafRids = s: seq<RecordId> | |s| == LeafSize witness seq(LeafSize, _ => NullRid)

  /** NonLeafNodeInt: level 1 means the children are leaves. */
  datatype InternalNode = InternalNode(level: int, keys: NodeKeys, children: NodeChildren)

  /** LeafNodeInt: parallel key and record-id arrays and the right sibling's page. */
  datatype LeafNode = LeafNode(keys: LeafKeys, rids: LeafRids, rightSibPageNo: PageId)

  /** IndexMetaInfo: identity of the index and the current root page. */
  datatype IndexMeta = IndexMeta(relationName: string, attrByteOffset: int, attrType: AttrType, rootPageNo: PageId)

  /** What one record of a page of the index file holds. */
  datatype Record = MetaRecord(meta: IndexMeta) | InternalRecord(node: InternalNode) | LeafRecord(leaf: LeafNode)

  /** A page is the list of records inserted into it, oldest first. */
  type Page = seq<Record>

  /** The index file as the buffer pool presents it: allocated page ids and their contents. */
  type PageFile = map<PageId, Page>

  /** How an operation can end abnormally.
      InvalidPage: reading a page that is not allocated.
      Rethrow: the bare `throw;` for a leaf at page 0 (no InvalidPageException is raised).
      UnreadableRecord: the page holds no record of the kind being decoded.
      BadIndexInfo: an existing file was built for another relation or attribute. */
  datatype Fault = InvalidPage | Rethrow | UnreadableRecord | BadIndexInfo

  datatype Outcome<+T> = Done(value: T) | Threw(fault: Fault)

  /** A value-initialised internal node: every key slot empty, every child slot the null page. */
  function EmptyInternal(): InternalNode
  {
    InternalNode(0, seq(NonLeafSize, _ => EmptyKey), seq(NonLeafSize + 1, _ => NullPage))
  }

  /** A value-initialised leaf: every key slot empty, no right sibling. */
  function EmptyLeaf(): LeafNode
  {
    LeafNode(seq(LeafSize, _ => EmptyKey), seq(LeafSize, _ => NullRid), NullPage)
  }

  /** Leaf and internal-node occupancy chosen by the constructor for an attribute type. */
  function Occupancies(t: AttrType): (r: (nat, nat))
    ensures r.0 <= LeafSize && r.1 <= NonLeafSize
    ensures t == Integer <==> r.1 > 0
    ensures t == Integer <==> r.0 > 0
    ensures t == Integer ==> r == (LeafSize, NonLeafSize)
  {
    match t
    case Integer => (LeafSize, NonLeafSize)
    case Double => (0, 0)
    case String => (0, 0)
  }
}
