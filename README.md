# BadgerDB B+Tree index: navigation and root bookkeeping

This project models the integer-keyed B+Tree index of `src/btree.cpp` in Dafny and proves
properties of the model. The index file is a map from page id to page. A page is the list of
records inserted into it: a metadata record, an internal node or a leaf. A freshly allocated
page holds no record, and allocation hands out the ids in order from a counter.

What is modelled:

- **Node layout** (`BTreeTypes`). Internal nodes have a level, 1023 key slots and 1024 child
  slots. Leaves have 682 key slots, 682 record-id slots and a right sibling. An unused key slot
  holds `-1`, so a stored key of -1 cannot be told apart from an empty slot. The capacities come from the BadgerDB widths: 8192-byte pages, 4-byte `int` and
  `PageId`, 8-byte `RecordId`. The constructor's switch gives these occupancies only to INTEGER
  keys and 0 to the other types.
- **Key position** (`KeyPosition`). `getKeyPosition` is a loop, proved equal to a recursive
  definition. That definition is characterised as "one past the last occupied slot whose key is
  `<=` the search key". The position is bounded by the occupancy and monotone in the key. On a
  packed, sorted array it equals the number of stored keys `<=` the key, so equal keys route to
  the right. The leaf key count of `insertEntry` is also a loop, proved equal to the number of
  non-sentinel slots.
- **Descent** (`Traversal`). `treeSearch` and `search` are specified by a function of the page
  file. A found leaf is exactly the leaf stored at the page the search read. An unallocated leaf
  child is the only fault that is caught: it leads to one new page holding an empty leaf.
  Nothing links that page into the parent, so a repeated search misses again, unless the
  dangling child id is the page just allocated. The descent reads only the pages on its path.
- **Metadata store and index object** (`BTree`). `injectIndexMetadata` records root page 2.
  `setRootPage` changes only the root field of the header record. `verifyFile` compares the
  offset, the type and the relation name. The constructor's file handling either creates a new
  file or accepts an existing one whose header matches; otherwise it raises BadIndexInfo. The
  file name is the relation name, a dot and the decimal offset, and a lemma proves that this
  name determines both parts. The first `insertEntry` builds the level-1 root and the first
  leaf. Later calls only search.

A consequence proved from the code as written: `getLeafNodeFromPageId(0)` executes a bare
`throw;` rather than raising InvalidPageException, so treeSearch's handler never sees it. After
the first insertion of a key `k0` other than -1, child slot 1 of the root still holds page 0. A
second insertion with a key `>= k0` therefore ends in that rethrow instead of allocating a leaf
(`SearchAfterBootstrap`, `FirstTwoInsertions`). A first key of -1 sits in a slot that reads as
empty, so every later key routes to the first leaf. Outside any exception handler a bare `throw;`
calls `std::terminate`. During the constructor's bulk load, which runs inside the
FileNotFoundException handler, it rethrows that exception. The model records both cases as the
fault `Rethrow`. This rests on the assumption, stated below, that a value-initialised node holds
page 0 in its child slots.

`btree.h` is not part of this model. It defines the node structs, the capacities and the
`isInitialized` member. The model assumes:

- a value-initialised node has every key slot `-1`, every child, record id and sibling slot 0
  (`PageId()`) and level 0;
- `isInitialized` is false after construction;
- a page's node is its first record;
- `insertRecord` accepts a page-sized node record. With the capacities above an internal-node
  record takes 4 + 1023·4 + 1024·4 = 8192 bytes and a leaf record 682·12 + 4 = 8188 bytes, as
  large as the page itself. If the page layer refused them, every `writePage` would raise, and
  the first insertion (src/btree.cpp:275, 283) and the lazily created leaf (src/btree.cpp:159)
  would never complete. `SearchAfterBootstrap` and `FirstTwoInsertions` rest on this assumption.

## Model

| member | source | states |
|---|---|---|
| `BTreeTypes.Occupancies` | src/btree.cpp:193-204 | INTEGER gets the full leaf and node capacities, the other types 0, and occupancies never exceed the array capacities, so a key position always indexes a child slot |
| `KeyPosition.KeyPos` | src/btree.cpp:136-147 | the key position never exceeds the number of slots scanned |
| `KeyPosition.GetKeyPosition` | src/btree.cpp:136-147 | the forward scan that skips `-1` slots returns exactly the recursive key position |
| `KeyPosition.KeyPosIsLastMatch` | src/btree.cpp:138-145 | a non-zero position sits just after an occupied slot with a key `<=` the search key, and every later slot is empty or holds a larger key; a zero position means no occupied slot qualifies |
| `KeyPosition.KeyPosPassesSmallerKeys` | src/btree.cpp:142-144 | every occupied slot holding a key `<=` the search key, including an equal one, lies left of the position, so duplicates route right |
| `KeyPosition.KeyPosMonotone` | src/btree.cpp:136-147 | for any array, a larger search key never yields a smaller position |
| `KeyPosition.KeyPosCountsKeys` | src/btree.cpp:136-147 | on an array whose occupied slots form a sorted prefix, the position equals the number of stored keys `<=` the search key |
| `KeyPosition.KeyPosSingleKey` | src/btree.cpp:136-147 | when only slot 0 is occupied, the position is 1 exactly when that key is `<=` the search key, else 0 |
| `KeyPosition.OccupiedCount` | src/btree.cpp:291-296 | the number of non-sentinel slots is at most the number of slots scanned, so the count never exceeds the leaf occupancy |
| `KeyPosition.CountOccupied` | src/btree.cpp:291-296 | the counting loop returns the number of non-`-1` slots among the first occupancy slots |
| `KeyPosition.PackedOccupiedCount` | src/btree.cpp:291-296 | on a packed array the count is the number of stored keys; sentinel slots never count |
| `IndexFilename.MakeIndexFilename` | src/btree.cpp:28-33 | the name is the relation name, `.`, then the offset in decimal, which holds no further dot; `SplitIndexFilename` recovers both parts |
| `IndexFilename.IntDecimalRoundTrip` | src/btree.cpp:31 | the decimal text written for the offset reads back as the same integer, negative values included |
| `IndexFilename.IndexFilenameRoundTrip` | src/btree.cpp:28-33 | splitting the file name at its last dot gives back the relation name and the offset |
| `IndexFilename.IndexFilenameInjective` | src/btree.cpp:28-33 | two different (relation, offset) pairs never share an index file name |
| `Traversal.ReadInternal` | src/btree.cpp:112-118 | an unallocated page raises InvalidPage; a page whose first record is a node decodes to exactly that node, and any decoded node is the page's first record |
| `Traversal.ReadLeaf` | src/btree.cpp:120-130 | page 0 is refused with the bare rethrow before any read; another unallocated page raises InvalidPage; a non-null page whose first record is a leaf decodes to exactly that leaf, and any decoded leaf is the page's first record |
| `Traversal.ReadMeta` | src/btree.cpp:71-77 | a missing header page raises InvalidPage; a page whose first record is metadata decodes to exactly that record, and any metadata returned is the page's first record |
| `Traversal.Descend` | src/btree.cpp:149-167 | a reached leaf is the first record of an allocated, non-null page; a missing child is a non-null, unallocated page id; either page lies on the key's path; at a level-1 node a stored leaf child is reached, a non-null unallocated child is missing, and child page 0 fails with the rethrow; above level 1 it continues from the node stored at the key-position child, and a fault reading that child propagates uncaught |
| `Traversal.SearchFrom` | src/btree.cpp:132-134 | a missing root page fails with InvalidPage; a readable root is descended from, and the result is a stored leaf or a missing child on the key's path from it |
| `Traversal.AfterSearch` | src/btree.cpp:156-161 | with the counter's page unallocated, a missing leaf child adds exactly one page, at the counter, holding an empty leaf, and advances the counter by one; every other outcome leaves file and counter as they were, and no existing page changes |
| `Traversal.LazyLeafNotLinked` | src/btree.cpp:154-161 | after the empty leaf is allocated, the same search misses again at the same child, unless that child id is the page just allocated |
| `Traversal.DescendReadsOnlyPath` | src/btree.cpp:149-167 | rewriting a page off the search path does not change the search's outcome |
| `BTree.SearchAfterBootstrap` | src/btree.cpp:149-167 | from the root built by the first insertion, with a non-zero node occupancy and a first key other than -1, keys below the first key reach the first leaf and keys at or above it end in the bare rethrow (child slot 1 is page 0); with occupancy 0 or a first key of -1 every key reaches the first leaf |
| `BTree.BTreeIndex.constructor` | src/btree.cpp:177-204 | sets offset and type, gives leaf and node occupancy only to INTEGER keys, and starts uninitialised |
| `BTree.BTreeIndex.InsertNode` | src/btree.cpp:92-98 | allocates the next page id, previously unallocated and non-null, with no record; nothing else changes |
| `BTree.BTreeIndex.WritePage` | src/btree.cpp:100-110 | appends the record to the page; on a page with no record it becomes the page's only record, the one every reader decodes |
| `BTree.BTreeIndex.InjectIndexMetadata` | src/btree.cpp:51-69 | writes the metadata record with root 2 on a newly allocated page; on a new file that is the header page, so the index becomes valid and its root reads back as 2 |
| `BTree.BTreeIndex.VerifyFile` | src/btree.cpp:35-49 | true exactly when the stored offset, type and relation name all equal the requested ones; an unreadable header propagates its fault |
| `BTree.BTreeIndex.GetRootPageId` | src/btree.cpp:71-77 | returns the root page id stored in the header record |
| `BTree.BTreeIndex.SetRootPage` | src/btree.cpp:79-90 | afterwards the header's root is the new id, relation name, offset and type are unchanged, and no other page changes |
| `BTree.BTreeIndex.TreeSearch` | src/btree.cpp:149-167 | a found leaf is returned with `true` and changes no page; an unallocated leaf child gives `false`, an empty leaf and exactly one new page holding it; any other fault propagates with nothing changed |
| `BTree.BTreeIndex.Search` | src/btree.cpp:132-134 | the descent starts at the root id read from the header, with the same effects as TreeSearch |
| `BTree.BTreeIndex.InsertEntry` | src/btree.cpp:256-307 | first call: a level-1 root on the next page with the key in slot 0 and the leaf as child 0, a leaf holding the pair with no right sibling, the header pointing at the root, and `isInitialized` set; later calls change no existing page, and their only page effect is the empty leaf a search may allocate |
| `BTree.Open` | src/btree.cpp:206-228 | the file name is relation, dot, offset; a new file gets the header on page 1 with root 2; an existing file is accepted exactly when its header matches, else BadIndexInfo |
| `BTree.FirstTwoInsertions` | src/btree.cpp:256-285 | on a new integer index the first insertion puts the root on page 2, the page the header named from the start; when the first key is not -1, a second key at or above it ends in the rethrow; any other second key succeeds and leaves the file as the first insertion left it |

## Left out

- Buffer-pool pins, unpins, dirty flags and `flushFile` (src/btree.cpp:229) are I/O plumbing with no effect on page contents in this model.
- Opening or creating the `BlobFile` is not modelled. `BTree.Open` receives the existing file, or none, as a parameter.
- Byte-level serialisation through `reinterpret_cast` is not modelled. Records are Dafny values. A page whose first record is not of the expected kind, or that holds no record, yields the fault `UnreadableRecord`, because the model does not interpret foreign bytes.
- The page layer's record-size limit for `insertRecord` is not modelled; page.h is not part of this model.
- The write of the header page to page `pId` in `setRootPage` (src/btree.cpp:87) is left out. Only the header-record update is modelled, and that write looks like a slip rather than intended behaviour.
- The bulk-load `FileScan` loop of the constructor (src/btree.cpp:216-227) is relation I/O. A caller can replay it with `InsertEntry`.
- `startScan`, `scanNext`, `endScan` and the destructor have empty bodies (src/btree.cpp:237-247, 317-344), and their scan-state members are not modelled.
- Leaf and internal splits and promotion are not implemented in the source. The "add key here" branch (src/btree.cpp:297-299) and the loop at src/btree.cpp:303-305 are empty. The model computes the key count and changes nothing.
- DOUBLE and STRING keys are unsupported. Only their zero occupancies are modelled.
- Keys, offsets and page ids are unbounded integers. The source's 32-bit `int`/`PageId` widths never matter here, because the code only compares keys. `insertEntry`'s reading of the key bytes as an `int` is modelled by passing an `int` key.
- The relation name is an unbounded string. The fixed-size `char` array of the metadata record (bounds of `strcpy`/`strcmp`) is not modelled.
- TreeSearch, Search, InsertEntry: these require that the descent for the key meets a level-1 node within a given number of internal hops (`PathBounded`). On a page file whose internal nodes form a cycle along the path, the source recurses without end.
- BTree.Open: requires that an existing file's allocated pages are exactly the ids from 1 up to its counter. The page layer allocates in order and never frees, so such a file is the only kind the code produces; a hand-edited file with gaps is not modelled.
- BTree.BTreeIndex.WritePage: requires an allocated page. Every caller writes to a page it has just allocated, so the InvalidPage that `readPage` would raise otherwise is not modelled.
