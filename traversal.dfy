/** Reading nodes out of the page file, and the root-to-leaf descent that treeSearch
    performs, stated as functions of the page file. */
module Traversal {
  import opened BTreeTypes
  import opened KeyPosition

  /** getNodeFromPageId: decodes the page's first record as an internal node. */
  function ReadInternal(file: PageFile, pid: PageId): (r: Outcome<InternalNode>)
    ensures r == Threw(InvalidPage) <==> pid !in file
    ensures r.Done? ==> pid in file && |file[pid]| > 0 && file[pid][0] == InternalRecord(r.value)
    ensures pid in file && |file[pid]| > 0 && file[pid][0].InternalRecord? ==> r == Done(file[pid][0].node)
  {
    if pid !in file then Threw(InvalidPage)
    else if |file[pid]| == 0 || !file[pid][0].InternalRecord? then Threw(UnreadableRecord)
    else Done(file[pid][0].node)
  }

  /** getLeafNodeFromPageId: page 0 is refused with a bare rethrow before any read;
      otherwise the page's first record is decoded as a leaf. */
  function ReadLeaf(file: PageFile, pid: PageId): (r: Outcome<LeafNode>)
    ensures r == Threw(Rethrow) <==> pid == NullPage
    ensures r == Threw(InvalidPage) <==> pid != NullPage && pid !in file
    ensures r.Done? ==> pid != NullPage && pid in file && |file[pid]| > 0 && file[pid][0] == LeafRecord(r.value)
    ensures pid != NullPage && pid in file && |file[pid]| > 0 && file[pid][0].LeafRecord? ==> r == Done(file[pid][0].leaf)
  {
    if pid == NullPage then Threw(Rethrow)
    else if pid !in file then Threw(InvalidPage)
    else if |file[pid]| == 0 || !file[pid][0].LeafRecord? then Threw(UnreadableRecord)
    else Done(file[pid][0].leaf)
  }

  /** Decodes the page's first record as the index metadata. */
  function ReadMeta(file: PageFile, pid: PageId): (r: Outcome<IndexMeta>)
    ensures r == Threw(InvalidPage) <==> pid !in file
    ensures r.Done? ==> pid in file && |file[pid]| > 0 && file[pid][0] == MetaRecord(r.value)
    ensures pid in file && |file[pid]| > 0 && file[pid][0].MetaRecord? ==> r == Done(file[pid][0].meta)
  {
    if pid !in file then Threw(InvalidPage)
    else if |file[pid]| == 0 || !file[pid][0].MetaRecord? then Threw(UnreadableRecord)
    else Done(file[pid][0].meta)
  }

  /** Where a descent ends: at a stored leaf (and its page), at a child page of a
      level-1 node that is not allocated, or with a fault that escapes the search. */
  datatype Descent = Reached(leaf: LeafNode, at: PageId) | Missing(child: PageId) | Failed(fault: Fault)

  /** The descent for `key` from `node` meets a level-1 node within h internal hops
      (or stops at an unreadable child before that). */
  predicate PathBounded(file: PageFile, key: int, node: InternalNode, occupancy: nat, h: nat)
    requires occupancy <= NonLeafSize
    decreases h
  {
    node.level == 1 ||
    (h > 0 &&
     match ReadInternal(file, node.children[KeyPos(key, node.keys, occupancy)])
     case Done(next) => PathBounded(file, key, next, occupancy, h - 1)
     case Threw(_) => true)
  }

  /** treeSearch: follow the child at the key position until a level-1 node, then read
      the leaf child. Only InvalidPage on that leaf is caught (and becomes Missing). */
  function Descend(file: PageFile, key: int, node: InternalNode, occupancy: nat, h: nat): (d: Descent)
    requires occupancy <= NonLeafSize
    requires PathBounded(file, key, node, occupancy, h)
    ensures d.Reached? ==> d.at != NullPage && d.at in file && |file[d.at]| > 0 && file[d.at][0] == LeafRecord(d.leaf)
    ensures d.Missing? ==> d.child != NullPage && d.child !in file
    ensures d.Reached? ==> OnPath(file, key, node, occupancy, h, d.at)
    ensures d.Missing? ==> OnPath(file, key, node, occupancy, h, d.child)
    ensures var child := node.children[KeyPos(key, node.keys, occupancy)];
      node.level == 1 ==>
        (ReadLeaf(file, child).Done? ==> d == Reached(ReadLeaf(file, child).value, child)) &&
        (child != NullPage && child !in file ==> d == Missing(child)) &&
        (child == NullPage ==> d == Failed(Rethrow))
    ensures var child := node.children[KeyPos(key, node.keys, occupancy)];
      node.level != 1 ==>
        (ReadInternal(file, child).Threw? ==> d == Failed(ReadInternal(file, child).fault)) &&
        (ReadInternal(file, child).Done? ==> d == Descend(file, key, ReadInternal(file, child).value, occupancy, h - 1))
    decreases h
  {
    var child := node.children[KeyPos(key, node.keys, occupancy)];
    if node.level == 1 then
      match ReadLeaf(file, child)
      case Done(leaf) => Reached(leaf, child)
      case Threw(f) => if f == InvalidPage then Missing(child) else Failed(f)
    else
      match ReadInternal(file, child)
      case Done(next) => Descend(file, key, next, occupancy, h - 1)
      case Threw(f) => Failed(f)
  }

  /** The search starting at the root page id. */
  predicate RootBounded(file: PageFile, root: PageId, key: int, occupancy: nat, h: nat)
    requires occupancy <= NonLeafSize
  {
    match ReadInternal(file, root)
    case Done(node) => PathBounded(file, key, node, occupancy, h)
    case Threw(_) => true
  }

  /** search: read the root node, then descend. */
  function SearchFrom(file: PageFile, root: PageId, key: int, occupancy: nat, h: nat): (d: Descent)
    requires occupancy <= NonLeafSize
    requires RootBounded(file, root, key, occupancy, h)
    ensures root !in file ==> d == Failed(InvalidPage)
    ensures ReadInternal(file, root).Done? ==> d == Descend(file, key, ReadInternal(file, root).value, occupancy, h)
    ensures d.Reached? ==> d.at != NullPage && d.at in file && |file[d.at]| > 0 && file[d.at][0] == LeafRecord(d.leaf)
    ensures d.Missing? ==> d.child != NullPage && d.child !in file
    ensures !d.Failed? ==>
      (ReadInternal(file, root).Done? &&
       OnPath(file, key, ReadInternal(file, root).value, occupancy, h, if d.Reached? then d.at else d.child))
  {
    match ReadInternal(file, root)
    case Done(node) => Descend(file, key, node, occupancy, h)
    case Threw(f) => Failed(f)
  }

  /** The page file and next free page after a search ended in `d`: a missing leaf
      child causes one freshly allocated page holding an empty leaf, and nothing else changes. */
  function AfterSearch(file: PageFile, nextPage: PageId, d: Descent): (r: (PageFile, PageId))
    requires nextPage !in file
    ensures r.0.Keys == if d.Missing? then file.Keys + {nextPage} else file.Keys
    ensures r.1 == if d.Missing? then nextPage + 1 else nextPage
    ensures forall p :: p in file ==> r.0[p] == file[p]
    ensures d.Missing? ==> ReadLeaf(r.0, nextPage) == (if nextPage == NullPage then Threw(Rethrow) else Done(EmptyLeaf()))
  {
    if d.Missing? then (file[nextPage := [LeafRecord(EmptyLeaf())]], nextPage + 1)
    else (file, nextPage)
  }

  /** The newly allocated empty leaf is not linked into its parent: searching again for the same key
      from the same node misses again, unless the dangling child id is the very page that
      was just allocated. */
  lemma {:induction false} LazyLeafNotLinked(file: PageFile, key: int, node: InternalNode, occupancy: nat, h: nat, newPage: PageId)
    requires occupancy <= NonLeafSize
    requires PathBounded(file, key, node, occupancy, h)
    requires newPage !in file && newPage != NullPage
    requires Descend(file, key, node, occupancy, h).Missing?
    ensures var file' := file[newPage := [LeafRecord(EmptyLeaf())]];
      var child := Descend(file, key, node, occupancy, h).child;
      PathBounded(file', key, node, occupancy, h) &&
      Descend(file', key, node, occupancy, h) == (if child == newPage then Reached(EmptyLeaf(), newPage) else Missing(child))
    decreases h
  {
    var file' := file[newPage := [LeafRecord(EmptyLeaf())]];
    var child := node.children[KeyPos(key, node.keys, occupancy)];
    if node.level != 1 {
      var next := ReadInternal(file, child).value;
      assert ReadInternal(file', child) == Done(next);
      LazyLeafNotLinked(file, key, next, occupancy, h - 1, newPage);
    }
  }

  /** Page p is read by the descent from `node`: an internal node on the way down or the
      leaf child of the level-1 node (the start node is given by value and is not read). */
  predicate OnPath(file: PageFile, key: int, node: InternalNode, occupancy: nat, h: nat, p: PageId)
    requires occupancy <= NonLeafSize
    requires PathBounded(file, key, node, occupancy, h)
    decreases h
  {
    var child := node.children[KeyPos(key, node.keys, occupancy)];
    child == p ||
    (node.level != 1 &&
     match ReadInternal(file, child)
     case Done(next) => OnPath(file, key, next, occupancy, h - 1, p)
     case Threw(_) => false)
  }

  /** The descent reads only the pages on its path: rewriting any other page leaves its
      outcome unchanged. */
  lemma {:induction false} DescendReadsOnlyPath(file: PageFile, key: int, node: InternalNode, occupancy: nat, h: nat, p: PageId, pg: Page)
    requires occupancy <= NonLeafSize
    requires PathBounded(file, key, node, occupancy, h)
    requires !OnPath(file, key, node, occupancy, h, p)
    ensures PathBounded(file[p := pg], key, node, occupancy, h)
    ensures Descend(file[p := pg], key, node, occupancy, h) == Descend(file, key, node, occupancy, h)
    decreases h
  {
    var child := node.children[KeyPos(key, node.keys, occupancy)];
    assert ReadInternal(file[p := pg], child) == ReadInternal(file, child);
    assert ReadLeaf(file[p := pg], child) == ReadLeaf(file, child);
    if node.level != 1 && ReadInternal(file, child).Done? {
      DescendReadsOnlyPath(file, key, ReadInternal(file, child).value, occupancy, h - 1, p, pg);
    }
  }
}
