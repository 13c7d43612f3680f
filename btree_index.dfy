/** The index object: the page file it works on, the allocation counter, the occupancies
    chosen for its key type, and the operations that read and update them. */
module BTree {
  import opened BTreeTypes
  import opened KeyPosition
  import opened Traversal
  import opened IndexFilename

  /** m_headerPageNum: the page that holds the metadata record. */
  const HeaderPageNum: PageId := 1
  /** Root page id that injectIndexMetadata records before any node exists. */
  const InitialRootPageNum: PageId := 2

  /** The allocated page ids are exactly the non-null ids below the allocation counter:
      pages are handed out in order and none is ever removed. */
  ghost predicate FileIds(file: PageFile, nextPage: PageId)
  {
    NullPage < nextPage && forall p :: p in file <==> NullPage < p < nextPage
  }

  /** The comparison verifyFile makes between a stored record and the requested index. */
  predicate SameIdentity(meta: IndexMeta, relationName: string, attrByteOffset: int, attrType: AttrType)
  {
    meta.attrByteOffset == attrByteOffset && meta.attrType == attrType && meta.relationName == relationName
  }

  /** The root the first insertion writes: key in slot 0, level 1, the leaf as child 0. */
  function BootstrapRoot(key: int, leafId: PageId): InternalNode
  {
    InternalNode(1, EmptyInternal().keys[0 := key], EmptyInternal().children[0 := leafId])
  }

  /** The leaf the first insertion writes: the pair in slot 0 and no right sibling. */
  function BootstrapLeaf(key: int, rid: RecordId): LeafNode
  {
    LeafNode(EmptyLeaf().keys[0 := key], EmptyLeaf().rids[0 := rid], NullPage)
  }

  /** What treeSearch hands back: whether a stored leaf was found, and the leaf. */
  datatype SearchHit = SearchHit(found: bool, leaf: LeafNode)

  function SearchReply(d: Descent): Outcome<SearchHit>
  {
    match d
    case Reached(leaf, _) => Done(SearchHit(true, leaf))
    case Missing(_) => Done(SearchHit(false, EmptyLeaf()))
    case Failed(f) => Threw(f)
  }

  /** A search from the root the first insertion built, with a non-zero occupancy and a
      first key other than -1: keys below the first key find the first leaf; any key at or
      above it selects child slot 1, which still holds the null page, so the leaf read ends
      in the bare rethrow. With occupancy 0, or a first key of -1 (which reads as an empty
      slot), every key goes to child 0. */
  lemma SearchAfterBootstrap(file: PageFile, key0: int, leafId: PageId, leaf: LeafNode, key: int, occupancy: nat)
    requires occupancy <= NonLeafSize
    requires ReadLeaf(file, leafId) == Done(leaf)
    ensures PathBounded(file, key, BootstrapRoot(key0, leafId), occupancy, 0)
    ensures Descend(file, key, BootstrapRoot(key0, leafId), occupancy, 0) ==
      if occupancy > 0 && key0 != EmptyKey && key0 <= key then Failed(Rethrow) else Reached(leaf, leafId)
  {
    if occupancy > 0 {
      KeyPosSingleKey(key, BootstrapRoot(key0, leafId).keys, occupancy);
    }
  }

  class BTreeIndex {
    const attrByteOffset: int
    const attrType: AttrType
    var leafOccupancy: nat
    var nodeOccupancy: nat
    /** The index file as seen through the buffer pool. */
    var pages: PageFile
    /** The page id the next allocation hands out. */
    var nextPage: PageId
    var isInitialized: bool

    /** The file's ids are consistent with the counter, the occupancies are those of the key
        type, and the header page holds a metadata record for this offset and type. */
    ghost predicate Valid()
      reads this
    {
      FileIds(pages, nextPage) &&
      (leafOccupancy, nodeOccupancy) == Occupancies(attrType) &&
      ReadMeta(pages, HeaderPageNum).Done? &&
      ReadMeta(pages, HeaderPageNum).value.attrByteOffset == attrByteOffset &&
      ReadMeta(pages, HeaderPageNum).value.attrType == attrType
    }

    /** The metadata record of the header page. */
    ghost function Meta(): IndexMeta
      reads this
      requires Valid()
    {
      ReadMeta(pages, HeaderPageNum).value
    }

    /** The constructor's member initialisation, with the occupancies its switch gives the key
        type, over an opened file. */
    constructor (attrByteOffset: int, attrType: AttrType, file: PageFile, nextPage: PageId)
      ensures this.attrByteOffset == attrByteOffset && this.attrType == attrType
      ensures attrType == Integer ==> leafOccupancy == LeafSize && nodeOccupancy == NonLeafSize
      ensures attrType != Integer ==> leafOccupancy == 0 && nodeOccupancy == 0
      ensures pages == file && this.nextPage == nextPage && !isInitialized
    {
      this.attrByteOffset := attrByteOffset;
      this.attrType := attrType;
      var occupancies := Occupancies(attrType);
      leafOccupancy, nodeOccupancy := occupancies.0, occupancies.1;
      pages := file;
      this.nextPage := nextPage;
      isInitialized := false;
    }

    /** insertNode: allocates the next page id, holding no record yet. */
    method InsertNode() returns (pid: PageId)
      requires FileIds(pages, nextPage)
      modifies this`pages, this`nextPage
      ensures FileIds(pages, nextPage)
      ensures pid == old(nextPage) && pid !in old(pages) && pid != NullPage
      ensures pages == old(pages)[pid := []] && nextPage == pid + 1
    {
      pid := nextPage;
      pages := pages[pid := []];
      nextPage := nextPage + 1;
    }

    /** writePage: appends the record to an allocated page; on a page that holds no
        record yet it becomes the record every reader decodes. */
    method WritePage(rec: Record, pid: PageId)
      requires pid in pages
      modifies this`pages
      ensures pages == old(pages)[pid := old(pages)[pid] + [rec]]
      ensures old(pages)[pid] == [] ==> pages[pid] == [rec]
    {
      pages := pages[pid := pages[pid] + [rec]];
    }

    /** injectIndexMetadata: allocates a page and writes the metadata record on it, with
        root page 2. On a new file that page is the header page and the index is valid. */
    method InjectIndexMetadata(relName: string)
      requires FileIds(pages, nextPage)
      requires (leafOccupancy, nodeOccupancy) == Occupancies(attrType)
      modifies this`pages, this`nextPage
      ensures FileIds(pages, nextPage) && nextPage == old(nextPage) + 1
      ensures pages == old(pages)[old(nextPage) := [MetaRecord(IndexMeta(relName, attrByteOffset, attrType, InitialRootPageNum))]]
      ensures old(nextPage) == HeaderPageNum ==>
        Valid() && Meta() == IndexMeta(relName, attrByteOffset, attrType, InitialRootPageNum)
    {
      var meta := IndexMeta(relName, attrByteOffset, attrType, InitialRootPageNum);
      var pid := InsertNode();
      WritePage(MetaRecord(meta), pid);
    }

    /** verifyFile: whether the header record names this relation, offset and type. */
    method VerifyFile(relName: string) returns (r: Outcome<bool>)
      ensures r.Done? <==> ReadMeta(pages, HeaderPageNum).Done?
      ensures r.Done? ==> (r.value <==> SameIdentity(ReadMeta(pages, HeaderPageNum).value, relName, attrByteOffset, attrType))
      ensures r.Threw? ==> r.fault == ReadMeta(pages, HeaderPageNum).fault
    {
      var header := ReadMeta(pages, HeaderPageNum);
      match header
      case Threw(f) =>
        r := Threw(f);
      case Done(meta) =>
        r := Done(SameIdentity(meta, relName, attrByteOffset, attrType));
    }

    /** getRootPageId: the root page id stored in the header record. */
    method GetRootPageId() returns (root: PageId)
      requires Valid()
      ensures root == Meta().rootPageNo
    {
      root := ReadMeta(pages, HeaderPageNum).value.rootPageNo;
    }

    /** setRootPage: rewrites the header record with a new root; the relation name, offset
        and type it records stay as they were, and no other page changes. */
    method SetRootPage(pid: PageId)
      requires Valid()
      modifies this`pages
      ensures Valid()
      ensures Meta() == old(Meta()).(rootPageNo := pid)
      ensures pages == old(pages)[HeaderPageNum := old(pages)[HeaderPageNum][0 := MetaRecord(old(Meta()).(rootPageNo := pid))]]
    {
      var meta := ReadMeta(pages, HeaderPageNum).value;
      pages := pages[HeaderPageNum := pages[HeaderPageNum][0 := MetaRecord(meta.(rootPageNo := pid))]];
    }

    /** treeSearch: descends from `node`; a found leaf changes nothing, an unallocated leaf
        child leads to one new page holding an empty leaf (not linked anywhere), and any
        other fault propagates with nothing changed. */
    method TreeSearch(key: int, node: InternalNode, ghost h: nat) returns (r: Outcome<SearchHit>)
      requires Valid()
      requires PathBounded(pages, key, node, nodeOccupancy, h)
      modifies this`pages, this`nextPage
      ensures Valid()
      ensures var d := Descend(old(pages), key, node, nodeOccupancy, h);
        r == SearchReply(d) && (pages, nextPage) == AfterSearch(old(pages), old(nextPage), d)
      decreases h
    {
      var pos := GetKeyPosition(key, node.keys, nodeOccupancy);
      if node.level == 1 {
        var leaf := ReadLeaf(pages, node.children[pos]);
        match leaf
        case Done(l) =>
          r := Done(SearchHit(true, l));
        case Threw(f) =>
          if f == InvalidPage {
            var newPage := InsertNode();
            WritePage(LeafRecord(EmptyLeaf()), newPage);
            assert pages == old(pages)[newPage := [LeafRecord(EmptyLeaf())]];
            r := Done(SearchHit(false, EmptyLeaf()));
          } else {
            r := Threw(f);
          }
      } else {
        var child := ReadInternal(pages, node.children[pos]);
        match child
        case Done(next) =>
          r := TreeSearch(key, next, h - 1);
        case Threw(f) =>
          r := Threw(f);
      }
    }

    /** search: the descent from the root page recorded in the header. */
    method Search(key: int, ghost h: nat) returns (r: Outcome<SearchHit>)
      requires Valid()
      requires RootBounded(pages, Meta().rootPageNo, key, nodeOccupancy, h)
      modifies this`pages, this`nextPage
      ensures Valid()
      ensures var d := SearchFrom(old(pages), old(Meta().rootPageNo), key, nodeOccupancy, h);
        r == SearchReply(d) && (pages, nextPage) == AfterSearch(old(pages), old(nextPage), d)
    {
      var rootId := GetRootPageId();
      var root := ReadInternal(pages, rootId);
      match root
      case Threw(f) =>
        r := Threw(f);
      case Done(node) =>
        r := TreeSearch(key, node, h);
    }

    /** insertEntry. The first call builds a level-1 root holding the key, with one leaf
        holding the pair, and points the header at the root. Later calls only search: the
        found leaf and every internal node stay as they were, and the one possible page
        change is the empty leaf a search allocates for a missing child. */
    method InsertEntry(key: int, rid: RecordId, ghost h: nat) returns (r: Outcome<()>)
      requires Valid()
      requires isInitialized ==> RootBounded(pages, Meta().rootPageNo, key, nodeOccupancy, h)
      modifies this`pages, this`nextPage, this`isInitialized
      ensures Valid()
      ensures !old(isInitialized) ==>
        var rootId := old(nextPage);
        var leafId := rootId + 1;
        r == Done(()) && isInitialized && nextPage == old(nextPage) + 2 &&
        Meta() == old(Meta()).(rootPageNo := rootId) &&
        pages == old(pages)[rootId := [InternalRecord(BootstrapRoot(key, leafId))]]
                           [leafId := [LeafRecord(BootstrapLeaf(key, rid))]]
                           [HeaderPageNum := old(pages)[HeaderPageNum][0 := MetaRecord(old(Meta()).(rootPageNo := rootId))]]
      ensures old(isInitialized) ==>
        var d := SearchFrom(old(pages), old(Meta().rootPageNo), key, nodeOccupancy, h);
        isInitialized &&
        r == (if d.Failed? then Threw(d.fault) else Done(())) &&
        (pages, nextPage) == AfterSearch(old(pages), old(nextPage), d)
    {
      if isInitialized {
        var rootId := GetRootPageId();
        var rootNode := ReadInternal(pages, rootId);
        if rootNode.Threw? {
          r := Threw(rootNode.fault);
          return;
        }
        var hit := Search(key, h);
        if hit.Threw? {
          r := Threw(hit.fault);
          return;
        }
        if hit.value.found {
          var numOfKeys := CountOccupied(hit.value.leaf.keys, leafOccupancy);
          if numOfKeys < leafOccupancy - 1 {
            // insertEntry's "add key here" branch is empty
          }
        }
        r := Done(());
      } else {
        var rootId := InsertNode();
        var leafId := InsertNode();
        WritePage(InternalRecord(BootstrapRoot(key, leafId)), rootId);
        SetRootPage(rootId);
        WritePage(LeafRecord(BootstrapLeaf(key, rid)), leafId);
        isInitialized := true;
        r := Done(());
      }
    }
  }

  /** The constructor's file handling. With no existing file a new one is created and the
      metadata record written on its first page; an existing file is kept only if its header
      names the same relation, offset and type (BadIndexInfo otherwise). Either way the
      index file name is the relation name, a dot and the offset. */
  method Open(relationName: string, attrByteOffset: int, attrType: AttrType, existing: Option<(PageFile, PageId)>)
    returns (outIndexName: string, r: Outcome<BTreeIndex>)
    requires existing.Some? ==> FileIds(existing.value.0, existing.value.1)
    ensures outIndexName == MakeIndexFilename(relationName, attrByteOffset)
    ensures r.Done? ==>
      fresh(r.value) && r.value.Valid() && !r.value.isInitialized &&
      r.value.attrByteOffset == attrByteOffset && r.value.attrType == attrType &&
      SameIdentity(r.value.Meta(), relationName, attrByteOffset, attrType)
    ensures existing.None? ==>
      r.Done? && r.value.nextPage == HeaderPageNum + 1 &&
      r.value.pages == map[HeaderPageNum := [MetaRecord(IndexMeta(relationName, attrByteOffset, attrType, InitialRootPageNum))]]
    ensures existing.Some? ==>
      match ReadMeta(existing.value.0, HeaderPageNum)
      case Threw(f) => r == Threw(f)
      case Done(meta) =>
        if SameIdentity(meta, relationName, attrByteOffset, attrType)
        then r.Done? && r.value.pages == existing.value.0 && r.value.nextPage == existing.value.1
        else r == Threw(BadIndexInfo)
  {
    outIndexName := MakeIndexFilename(relationName, attrByteOffset);
    if existing.Some? {
      var (file, next) := existing.value;
      var index := new BTreeIndex(attrByteOffset, attrType, file, next);
      var same := index.VerifyFile(relationName);
      match same
      case Threw(f) =>
        r := Threw(f);
      case Done(ok) =>
        if !ok {
          r := Threw(BadIndexInfo);
        } else {
          r := Done(index);
        }
    } else {
      var index := new BTreeIndex(attrByteOffset, attrType, map[], HeaderPageNum);
      index.InjectIndexMetadata(relationName);
      r := Done(index);
    }
  }

  /** A new integer index over its first two insertions: the first puts the root on page 2,
      the page the header named from the start; the second, with a key at or above a first
      key other than -1, ends in the bare rethrow, and otherwise finds the first leaf and
      leaves the file (`afterFirst`) as the first insertion left it. */
  method FirstTwoInsertions(relationName: string, attrByteOffset: int, k0: int, rid0: RecordId, k1: int, rid1: RecordId)
    returns (root: PageId, second: Outcome<()>, index: BTreeIndex, afterFirst: PageFile)
    ensures root == InitialRootPageNum
    ensures k0 != EmptyKey && k0 <= k1 ==> second == Threw(Rethrow)
    ensures !(k0 != EmptyKey && k0 <= k1) ==> second == Done(()) && index.pages == afterFirst
  {
    var name, created := Open(relationName, attrByteOffset, Integer, None);
    index := created.value;
    var first := index.InsertEntry(k0, rid0, 0);
    afterFirst := index.pages;
    root := index.GetRootPageId();
    var leafId := InitialRootPageNum + 1;
    assert ReadInternal(index.pages, root) == Done(BootstrapRoot(k0, leafId));
    assert ReadLeaf(index.pages, leafId) == Done(BootstrapLeaf(k0, rid0));
    SearchAfterBootstrap(index.pages, k0, leafId, BootstrapLeaf(k0, rid0), k1, index.nodeOccupancy);
    second := index.InsertEntry(k1, rid1, 0);
  }
}
