# A verified model of the disk-page B-tree and B+ tree

The repository has two disk indexes, a B-tree and a B+ tree, that share one engine: slotted pages of bytes, two cell
formats, an insert that splits full nodes by move-up or copy-up, and a pager that writes through an LRU cache whose
pages the engine changes in place. This project models that stack, from the bytes of a page to whole runs of inserts,
lookups and range scans, and proves that it behaves like one finite map from int64 keys to byte strings. Where it does
not, because the code meets a case it does not handle, the project proves what happens and exactly when.

## How the model is built

| layer | files | what it is |
|---|---|---|
| records | `Bytes`, `Seqs`, `Records` | little-endian numbers, sorted record sequences, search, sorted insertion |
| bytes of a page | `Layout`, `PageOps` | what a page's bytes mean (`Repr`), and the page operations on an `array<byte>`, in place |
| the tree as a value | `TreeModel` | the tree that a set of pages stands for, and the effect of one insert on it, splits included |
| laws of that tree | `Order`, `Contents`, `Shape`, `FixedLength`, `Database` | search order, records, depth, page ids, leaf chain, fill, height; over all runs |
| cache and file | `Lru`, `Recency`, `Pager` | the linked-list cache as a class, refining a recency list; the pager as a class |
| the engine | `Refine`, `Search`, `Shared` | the tree class: its methods change page buffers, and end with the pages holding the `TreeModel` result |
| the indexes | `BTree`, `BPTree`, `ListIndex`, `EndToEnd` | the two range iterators, the chain lookup, the list index, and programs that use them |
| cases not handled | `Cases` | the complete list of them, for one insert and for whole runs |
| the cases one by one | `ShortPage`, `TightPage`, `HalfPage`, `FilledPage`, `RootPage`, `PageCapacity` | cells written without room: the bytes left on the page, and when they read right |
| | `Lengthening`, `LengthenTree`, `LengthenPages`, `Trace`, `Resident` | a longer value in an internal node: tree, file and cache afterwards |
| | `Misplaced`, `MisplacedPages`, `MisplacedRoot` | repeated separators: records and leaf chain afterwards, up to the root |
| | `GeometryNeeded` | the page geometry is not only enough but needed |
| inputs that lead there | `Examples`, `PageExamples`, `HalfExamples`, `RepeatedKeys` | concrete runs of inserts |

`TreeModel.Insert` describes one insert as the code does it: same search, same room test, same split point, same page
ids. It answers `Failed` where the code enters one of the five cases below. `Shared.PageTree.Insert` is the page-level
code; it is proved to have that effect for every cache capacity, 0 included, and every other operation is proved to
answer from the same tree. The theorems about `TreeModel` then hold for the pages. For the five cases the page-level
code is modelled and proved apart, with the same page operations.

## Cases the code does not handle

Values may have any lengths in the model. `TreeModel.Insert` gives no answer exactly when one of five guards holds on
the search path, and never two of them (`Cases.InsertFailsExactly`); a run of inserts fails exactly when one of its
inserts meets such a case (`Cases.RunFailsExactly`). Every other insert does what the interface promises.

A guard says that the code takes a step without checking that it can. Some of these steps turn out right nevertheless:
`PageExamples.HandledAnyway` is an insert that the model refuses and the code handles. The items below name the lemmas
that say exactly when.

1. **The room test forgets the slot** (`TightRoom`; `TightPage`). `doInsert` compares the free space with the cell, not
   with the cell and its two-byte slot. With no or one byte left, an appended cell has its first bytes overwritten by
   its own slot: the key of a B+ tree record, or the child pointer of an internal cell, changes. The page reads right
   exactly when those bytes happen to be the slot's, and in a leaf of a B-tree always (`TightAppendExactly`,
   `SlotAgreesInNumbers`); such a B-tree leaf takes no other cell until it splits (`TightThenFull`). `Examples.TightRun`
   stores key 2 and `PageExamples.TightReads` reads key 15. An insert further left writes its first bytes over the slot
   of the last record. The slot stays right exactly when the bytes agree, and then the page reads right; if not, the
   other records still do, unless the new child's page id is patched into the last cell of an internal node: it then
   lands where the damaged slot leads (`TightInsertExactly`, `LastAgreesInNumbers`). The page can read right with a
   wrong slot: `PageExamples.SecondCopy` has a copy of the last record inside a value, at the very offset that the slot
   then holds. With values of one length the case arises exactly when `(P - 13) mod (cell + 2) >= cell`
   (`FixedLength.TightExactly`).
2. **A longer value for a key in an internal B-tree node** (`LongerInside`; `Lengthening`, `LengthenPages`). `insertRec`
   deletes the cell, and with it the pointer to its left child, and does not write the page. On the page in the file
   the key is then stored twice; on the page in the cache the left subtree is gone. Reads see the cached page exactly
   when the search below touches fewer other pages than the cache has room for: for a node of height h, when
   `h - 1 + (pages allocated below)` is less than the capacity (`LengthenTree.ViewInNumbers`). The result is right
   exactly when they do and the left subtree is empty (`Lengthening.DbExactly`, `LengthenPages.InsertLonger`). Later
   reads see the file as soon as the page leaves the cache (`LengthenPages.ReadLater`). All this is about inserts that
   meet no second case below or above the node. `PageExamples.LostUpdate` needs five inserts: two records are left of
   four with room for two pages, and five records are stored with less.
3. **A half that does not fit** (`LargeHalf`; `PageCapacity`, `HalfPage`, `FilledPage`). `splitNode` splits by cell
   count, and appends without a room test. No bytes of a page represent a node that needs more than a page without
   overlap (`PageCapacity.OnlyFittingNodes`), but a page can still read right. A half over by at most two bytes does so
   exactly when the last cell starts with the bytes of its slot, or in a B-tree leaf in any case
   (`FilledPage.HalfReadsExactly`, `FilledPage.SplitReadsExactly`). For any half whose cells but the last stay behind
   the header, however many of them lie over slots: the code panics exactly when the cells alone need more than the
   page; each slot is right exactly when all later cells agree with it, and each record exactly when its own and all
   later slots, the count and the link agree with it; and the half reads right exactly when each record with a right
   slot stands, each record with a wrong slot happens to stand where that slot leads, and the page type is right
   (`FilledPage.HalfExactly`). When an earlier cell begins in the header, the next one is placed from what that cell
   left of the free pointer, and as long as that is intact a cell of more than twelve bytes makes the code panic
   (`FilledPage.NextInHeader`). `Examples.OversizedRun` needs four inserts, and `PageExamples.OversizedHalf` shows that
   its page does not read right; in `HalfExamples.TwentyOver` eight slots and another record are damaged; in
   `HalfExamples.FreePointerLost` the cells need more than the page, and the code does not panic, since a key has
   overwritten the free pointer.
4. **Repeated separators in a B+ tree** (`RepeatedKey`; `Misplaced`, `MisplacedRoot`). A leaf with one record and no
   room for its longer value splits into an empty leaf and a leaf with the record, which repeats a separator. Later the
   second search of a parent, for the promoted key, can pass the right neighbour, and half of a node is linked in too
   far to the right. In the whole tree the records are still right; the leaves are a chain from left to right exactly
   unless a promoted key equals the separator to its child's right (`MisplacedRoot.DatabaseExactly`), and the pages
   hold that tree (`MisplacedPages.InsertResumed`). `RepeatedKeys`
   gives eight inserts on 64-byte pages after which a scan from 15 starts with key 10, and one more insert stores a key
   twice.
5. **A record that fits no page** (`LargeRoot`; `RootPage`). In a B-tree it moves up as the median of a leaf, both
   halves fit, and `Insert` appends it to an empty root page without a room test. The root reads right exactly when the
   cell stays on the page and agrees with what it overlaps: its slot, the cell count, the page type, the rightmost
   pointer; when the cell begins before the page the code panics (`RootPage.RootReadsExactly`). On 64-byte pages the
   first insert does it with 38 bytes or more (`PageExamples.HugeRun`, `PageExamples.HugeRoot`).

None of the five arises when all values have one length and the page geometry fits it (`EndToEnd.FixedRunCompletes`);
the benchmarks' 4, 8 and 16 KiB pages with 128-byte values do (`FixedLength.BenchmarkGeometry`). With room for two
cells of each kind on a page, the geometry is also needed: otherwise some run of inserts fails
(`GeometryNeeded.GeometryExactly`).

Two places where code and comments differ, and the model follows the code: `Height` says it follows the first child and
follows the rightmost one, and `ListIndex.Get` reports an absent key as an error where the interface promises nil.

## Scope

Page sizes from 13 to 65535 bytes, page ids below `InvalidPage`, keys in the int64 range. Reads and writes of the file
succeed; the file is a sequence of pages. One client; no insert while an iterator is in use.

## Model

| member | source | states |
|---|---|---|
| `Bytes.FromToLE` | src/dbms/index/btpage/page.go:51-58 | Reading back a little-endian number of n bytes gives the number that was written, for every width |
| `Layout.ReprUnique` | src/dbms/index/btpage/page.go:3-9 | The bytes of a page represent at most one node: kind, cells in slot order, child and leaf links, free pointer |
| `Layout.BodyInsert` | src/dbms/index/shared/tree.go:201-211 | A new cell just below the free pointer with its slot at index i gives the old cells in order with the new one at i, still disjoint and in bounds |
| `PageOps.InitPage` | src/dbms/index/btpage/page.go:40-48 | Whatever the buffer held, it now represents an empty node of the given kind |
| `PageOps.WriteCell` | src/dbms/index/btree/btree.go:41-46 | The cell's fields stand at the offset in the accessor's format, and no byte outside the cell changes |
| `PageOps.OverwriteValue` | src/dbms/index/bptree/bptree.go:76-83 | Cell i has the new value, which is no longer than the old one; key, child and every other cell are unchanged |
| `PageOps.DeleteCell` | src/dbms/index/shared/tree.go:73-79 | The page represents the node without cell i; the free pointer is not moved back |
| `PageOps.AppendCell` | src/dbms/index/shared/tree.go:65-71 | On a page with room for cell and slot the page represents the node with the cell added at the end |
| `PageOps.InsertCell` | src/dbms/index/shared/tree.go:201-221 | Shifting slots, allocating, writing and patching the child pointer insert exactly one cell at idx; a node's child idx keeps its page and gets the new page as right neighbour |
| `PageOps.ReadCellRight` | src/dbms/index/bptree/bptree.go:44-56 | Decoding slot i of a page gives cell i of the node the page represents |
| `PageOps.ChildRight` | src/dbms/index/shared/tree.go:81-87 | The child pointer read at idx is the node's child idx, the rightmost pointer at the end |
| `Shared.FindIdx` | src/dbms/index/shared/tree.go:91-103 | Binary search on the page's bytes gives the lower bound, or the upper bound in internal B+ tree nodes, of the key |
| `Shared.Redistribute` | src/dbms/index/shared/tree.go:259-295 | The two buffers represent the lower and the upper half of the cells, with the promoted cell in neither (or, for copy-up leaves, first in the right one), the right child links and, for copy-up leaves, the leaf links |
| `Lru.LruCache.MoveToFront` | src/dbms/pager/pager.go:226-245 | Relinking one entry keeps the list doubly linked without repetition, with that entry first and the others in their order |
| `Lru.LruCache.Evict` | src/dbms/pager/pager.go:247-259 | Exactly the last entry leaves the list and the index, which stay in bijection |
| `Lru.LruCache.Get` | src/dbms/pager/pager.go:191-198 | A hit returns the cached page and makes it the most recently used; a miss changes nothing |
| `Lru.LruCache.Put` | src/dbms/pager/pager.go:200-212 | The page is stored as the most recently used one, and above the capacity exactly the least recently used one goes |
| `Lru.LruCache.Size` | src/dbms/pager/pager.go:209-211 | The index has as many ids as the list has entries |
| `Recency.CachedIsRecent` | src/dbms/pager/pager.go:170-259 | After any run of accesses the cache holds the most recently used distinct pages, as many as its capacity allows, in order of last use |
| `Recency.RecentMeans` | src/dbms/pager/pager.go:173-189 | The recency order lists exactly the accessed ids, by falling time of last access |
| `Recency.LargerCacheHoldsMore` | src/dbms/pager/pager.go:177-189 | At every moment a larger cache holds all that a smaller one holds, and the size never exceeds the capacity |
| `Pager.Pager.Allocate` | src/dbms/pager/pager.go:78-88 | The new id is the old page count, its page is all zeros, and every other page is unchanged |
| `Pager.Pager.Read` | src/dbms/pager/pager.go:91-101 | The buffer has the file's bytes, from cache or file; the cache still agrees with the file; the ids cached follow the LRU rule |
| `Pager.Pager.Write` | src/dbms/pager/pager.go:104-107 | The file changes at that id only, and a page changed in place before is in agreement with the file again |
| `Pager.Pager.Close` | src/dbms/pager/pager.go:110-113 | The header page records the page count, and no other page changes |
| `TreeModel.InsertAt` | src/dbms/index/shared/tree.go:236-241 | The elements before i stay, the new one is at i, the others move up by one |
| `Order.InsertOrdered` | src/dbms/index/shared/tree.go:149-190 | An insert into a tree in search order gives a tree, or two halves around a promoted key, in search order in the same range |
| `Contents.SplitLeafEntries` | src/dbms/index/shared/tree.go:253-280 | Left half, promoted record (for move-up) and right half are together exactly the records before the split |
| `Contents.InsertEntries` | src/dbms/index/shared/tree.go:149-222 | The records after an insert, through any cascade of splits, are the old ones with the key set to the value |
| `Contents.EntriesSorted` | src/dbms/index/shared/tree.go:89-103 | In a tree in search order the records come in strictly increasing key order inside the tree's range |
| `Shape.InsertUniform` | src/dbms/index/shared/tree.go:227-306 | All leaves of the result, or of both halves, lie at the depth they had |
| `Shape.InsertPages` | src/dbms/index/shared/tree.go:255-299 | The result uses each old page as often as before and each newly allocated page once: none is lost, shared or leaked |
| `Shape.InsertChained` | src/dbms/index/bptree/bptree.go:87-90 | The leaves of the result are linked from left to right, with the first leaf and the end of the chain unchanged |
| `Shape.LeavesHoldEntries` | src/dbms/index/bptree/bptree.go:163-181 | The leaves of a B+ tree, read left to right, hold exactly the records of the tree |
| `Database.InsertKeeps` | src/dbms/index/shared/tree.go:131-147 | An insert keeps the database invariant (order, one depth, each page once, leaf chain) and is one map update, new root included |
| `Database.RunKeeps` | src/dbms/index/index.go:7-9 | Every database reached by inserts satisfies the invariant and holds exactly the map that the inserts build |
| `Database.InsertHeight` | src/dbms/index/shared/tree.go:131-147 | An insert leaves the height alone, or adds one exactly when the root splits |
| `Database.TreesAgree` | src/dbms/index/index_test.go:193-203 | After the same inserts a B-tree and a B+ tree, on pages of any sizes, hold the same record sequence |
| `Database.RunNeverFails` | src/bench/dataset.go:26-32 | With values of one length and a fitting geometry no insert of any run fails, and every page keeps its fill bounds: at least half full below the root |
| `Database.RunHeight` | src/dbms/index/shared/tree.go:253-295 | A database of height h >= 2 stores at least 2(c/2+1)^(h-1) - 1 keys (B-tree) or 2(c/2+1)^(h-2) times half a leaf (B+ tree) |
| `FixedLength.InsertFixed` | src/dbms/index/shared/tree.go:198-306 | With values of one length an insert never enters an unhandled case, and its nodes keep at least half of the capacity, the root aside |
| `FixedLength.HeightBound` | src/dbms/index/shared/tree.go:348-360 | The least number of records of a tree of height h, by node capacity |
| `FixedLength.BenchmarkGeometry` | src/main.go:24 | Pages of 4096, 8192 and 16384 bytes with 128-byte values have the geometry that the room test needs, for both trees |
| `FixedLength.PageBound` | src/dbms/index/shared/tree.go:255 | A tree has at most two pages for each record, and one when empty |
| `FixedLength.TightExactly` | src/dbms/index/shared/tree.go:201 | With cells of one size the room test accepts a cell without room for its slot exactly when (P - 13) mod (cell + 2) >= cell |
| `Refine.HoldsFrame` | src/dbms/index/shared/tree.go:180-187 | A file that keeps the tree's own pages still holds the tree, whatever happens to the other pages |
| `Refine.LeafSplitNodes` | src/dbms/index/shared/tree.go:259-280 | The halves, links and promoted key that the code computes from a leaf's cells are those of the tree-level split |
| `Refine.InnerSplitNodes` | src/dbms/index/shared/tree.go:282-295 | The same for an internal node: left and right cells, both rightmost pointers, promoted cell |
| `Shared.PageTree.Open` | src/dbms/index/bptree/bptree.go:98-116 | A new file gets the empty tree on page 2; a closed file is reopened with the same tree and page count |
| `Shared.PageTree.Close` | src/dbms/index/bptree/bptree.go:146-149 | The file names the root and the page count, and still holds the tree |
| `Shared.PageTree.SplitNode` | src/dbms/index/shared/tree.go:227-306 | Page id holds the left half, a newly allocated page the right half, no other page changes, and key and value of the middle cell are reported |
| `Shared.PageTree.InsertRec` | src/dbms/index/shared/tree.go:149-190 | The pages under id end up holding what the tree-level insert makes of the tree they held; only its pages and new ones change; the promoted key and new page are reported exactly on a split |
| `Shared.PageTree.Insert` | src/dbms/index/shared/tree.go:131-147 | For any cache capacity: cache and file agree again, the pages hold the tree-level result, and the map is the old one with key set to value |
| `Shared.PageTree.Get` | src/dbms/index/shared/tree.go:106-127 | The answer is the map's: the stored value, or none for an absent key |
| `Shared.PageTree.FindLeaf` | src/dbms/index/shared/tree.go:309-323 | The leaf found has only smaller keys to its left, and no smaller key to its right |
| `Shared.PageTree.Height` | src/dbms/index/shared/tree.go:348-360 | Following rightmost pointers counts the depth at which all leaves lie |
| `Shared.PageTree.CountLeaves` | src/dbms/index/shared/tree.go:363-383 | The recursive count equals the number of leaves, and so the length of the leaf chain |
| `Search.LookupBelow` | src/dbms/index/shared/tree.go:113-125 | A key not held in an internal node has the same answer in the child that the search picks |
| `BPTree.ChainOfTree` | src/dbms/index/bptree/bptree.go:87-90 | In every stored B+ tree the next-leaf links of the pages visit exactly the leaves in order and end; their records are the tree's, strictly increasing |
| `BPTree.ChainLookup` | src/dbms/index/bptree/bptree.go:123-140 | Stopping at the first record not below the key, or going on to the next leaf, never changes the answer |
| `BPTree.Get` | src/dbms/index/bptree/bptree.go:118-142 | Descent and chain walk give the map's answer |
| `BPTree.RangeIterator.constructor` | src/dbms/index/bptree/bptree.go:163-181 | The records to come are those from the first key at or above start on |
| `BPTree.RangeIterator.Next` | src/dbms/index/bptree/bptree.go:183-210 | True exactly when a record is left and not beyond end; it is then the next one, and only it is passed |
| `BPTree.Scan` | src/dbms/index/bptree/bptree.go:163-210 | Repeated Next gives exactly the records with start <= key <= end, each once, ascending |
| `BTree.Pop` | src/dbms/index/btree/btree.go:149-153 | Leaving an exhausted node changes neither the records to come nor the nodes to visit |
| `BTree.Push` | src/dbms/index/btree/btree.go:156-160 | Going down to a child keeps the records to come and leaves strictly fewer nodes to visit |
| `BTree.DescendOne` | src/dbms/index/btree/btree.go:106-124 | Each frame of the descent to start leaves behind only smaller records, and keeps every other one to come |
| `BTree.RangeIterator.constructor` | src/dbms/index/btree/btree.go:106-124 | The frame stack stands before the first record at or above start |
| `BTree.RangeIterator.Next` | src/dbms/index/btree/btree.go:127-179 | Terminates; true exactly when a record is left and not beyond end; it is then the in-order next one, and only it is passed |
| `BTree.Scan` | src/dbms/index/btree/btree.go:106-179 | Repeated Next gives exactly the records with start <= key <= end, each once, ascending |
| `ListIndex.ListPutIsUpdate` | src/dbms/index/listindex/listindex.go:32-41 | An insert into the list is one map update and keeps the keys distinct |
| `ListIndex.ListIndex.Insert` | src/dbms/index/listindex/listindex.go:32-41 | The loop replaces the value of the first record with the key, or appends |
| `ListIndex.ListIndex.Get` | src/dbms/index/listindex/listindex.go:43-50 | The first record with the key, or none |
| `ListIndex.ListIterator.Next` | src/dbms/index/listindex/listindex.go:81-90 | True exactly when a record of the range is left; it is then the next one in list order |
| `ListIndex.TreeAgreesWithList` | src/dbms/index/listindex/listindex.go:32-90 | After the same inserts every range of a tree is the key-sorted permutation of the list's range, and every lookup agrees, absent keys included |
| `EndToEnd.Build` | src/dbms/index/index_test.go:138-177 | Opening a new file and inserting gives, for any cache capacity, the pages of the run's tree |
| `EndToEnd.GetAfterReopen` | src/dbms/index/bptree/bptree.go:98-149 | Insert, close, reopen with another cache capacity, look up: the answer of the map that the inserts build |
| `EndToEnd.RangesAgree` | src/dbms/index/index_test.go:86-136 | The same inserts into both trees and the list: equal sorted ranges from the trees, a permutation from the list, holding exactly the map's pairs in the range |
| `EndToEnd.FixedRunCompletes` | src/bench/dataset.go:17-40 | With values of one length and a fitting geometry, any run of fewer than 2^31 - 2 inserts completes with at most two pages for each insert |
| `TightPage.HarmlessExactly` | src/dbms/index/shared/tree.go:201-211 | An appended cell without room for its slot reads back right if and only if the overlapping bytes agree; a B-tree leaf record always does |
| `ShortPage.ForceAppend` | src/dbms/index/shared/tree.go:65-71 | On any page, with room or without: the bytes that AppendCell leaves, as four writes of which the later ones win |
| `ShortPage.ReprReads` | src/dbms/index/shared/tree.go:89-127 | A page that represents a node reads as that node |
| `ShortPage.AppendReadsExactly` | src/dbms/index/shared/tree.go:65-71 | After AppendCell of a cell that begins behind the old slots, or on a page without cells, the page reads as its node with the cell added if and only if every two writes agree on the bytes they share and that are read later |
| `TightPage.ForceInsert` | src/dbms/index/shared/tree.go:198-222 | On any page whose cell fits without its slot: the bytes that doInsert leaves, child-pointer patch included |
| `TightPage.TightAppendExactly` | src/dbms/index/shared/tree.go:201-220 | An append that the room test accepts reads right, page and all, if and only if its slot agrees with the bytes of the record it overwrites |
| `TightPage.SlotAgreesInNumbers` | src/dbms/index/shared/tree.go:201-211 | That is always so in a B-tree leaf, and elsewhere exactly when the low bytes of the first field are those of the offset |
| `TightPage.TightThenFull` | src/dbms/index/shared/tree.go:198-224 | A B-tree leaf after such an append reads right, and the room test refuses every further cell, after a deletion or not: the next insert splits it |
| `TightPage.AppendedReadsBlotted` | src/dbms/index/shared/tree.go:201-220 | What is read back for the appended cell: its first bytes are those of its slot |
| `TightPage.TightInsertExactly` | src/dbms/index/shared/tree.go:201-220 | An insert before the last cell, in leaves and internal nodes: the last slot is right if and only if the bytes agree, and then the page reads right; otherwise all records but the last read right, except that the child-pointer patch of a last cell lands where the damaged slot leads |
| `TightPage.LastAgreesInNumbers` | src/dbms/index/shared/tree.go:201-211 | The bytes agree exactly when the new cell starts with the bytes of the last slot, both or the high one |
| `PageCapacity.OnlyFittingNodes` | src/dbms/index/shared/tree.go:253-295 | No bytes of a page represent a node whose cells and slots need more than the page |
| `PageCapacity.SplitFailsOnlyThen` | src/dbms/index/shared/tree.go:253-280 | Where the tree-level leaf split fails, no file holds the two halves |
| `PageCapacity.SplitInnerFailsOnlyThen` | src/dbms/index/shared/tree.go:282-295 | The same for an internal node and its two sets of children |
| `HalfPage.ForceHalf` | src/dbms/index/shared/tree.go:259-295 | Clearing a page and appending a half, with room or without: the bytes left on the page, or a panic |
| `HalfPage.ForceSplit` | src/dbms/index/shared/tree.go:253-300 | The same for both halves of a split, links included |
| `FilledPage.HalfReadsExactly` | src/dbms/index/shared/tree.go:259-295 | A half over by at most two bytes reads right if and only if it fits, or its last cell starts with the bytes of its slot, or is a record of a B-tree leaf |
| `FilledPage.HalfExactly` | src/dbms/index/shared/tree.go:259-295 | A half whose cells but the last stay behind the header, in leaves and internal nodes: a panic exactly when the cells need more than the page; which slots are right and which records stand, each as an if-and-only-if on the bytes that overlap; the page reads right if and only if the page type is right, each record with a right slot stands, and each other one is found where its wrong slot leads |
| `FilledPage.FillableExactly` | src/dbms/index/shared/tree.go:259-295 | Such a half is written without a panic if and only if its cells alone need no more than the page, which has room for one slot |
| `FilledPage.NextInHeader` | src/dbms/index/btpage/page.go:108-112 | After a cell that begins in the header the next one is placed from the free pointer as that cell has left it: a panic exactly when it does not fit below that, or that is beyond the page; with the free pointer intact, a panic for every cell of more than twelve bytes |
| `FilledPage.SplitReadsExactly` | src/dbms/index/shared/tree.go:253-300 | Of a split with halves over by at most two bytes each page reads as its half if and only if that half fits or ends in a harmless cell, in leaves and internal nodes |
| `RootPage.ForceRoot` | src/dbms/index/shared/tree.go:136-144 | The page part of a root split with any promoted cell: the bytes on the new root, or a panic exactly when the cell is larger than a page |
| `RootPage.RootReadsExactly` | src/dbms/index/shared/tree.go:136-144 | The new root reads right if and only if its cell stays on the page and agrees with slot, count, page type and rightmost pointer where it overlaps them |
| `Cases.InsertFailsExactly` | src/dbms/index/shared/tree.go:131-306 | An insert into a reachable database has no answer in the model if and only if one of the five guards holds on its search path or for the new root; never two of them; which tree each case belongs to |
| `Cases.RunFailsExactly` | src/dbms/index/index.go:7-9 | A run of inserts fails if and only if one of its inserts meets one of the five cases in the database that the inserts before it built |
| `GeometryNeeded.GeometryExactly` | src/dbms/index/shared/tree.go:198-306 | On pages with room for two cells of each kind, every run with values of one length completes if and only if the geometry fits |
| `Resident.StaysCached` | src/dbms/pager/pager.go:170-259 | A page just used is still cached after other accesses if and only if these are to fewer distinct pages than the capacity |
| `Resident.TouchedCount` | src/dbms/index/shared/tree.go:149-222 | An insert reads and writes as many distinct pages as its search path has nodes, and one more for each page it allocates |
| `Lengthening.LengthenExactly` | src/dbms/index/shared/tree.go:165-190 | A longer value for a key in an internal B-tree node: the records are right if and only if the left subtree is empty and the cached page is the one read; else one record too many, or the left subtree's too few |
| `Lengthening.LengthenedExactly` | src/dbms/index/shared/tree.go:149-190 | The same for the result of insertRec at any node above, through any cascade of splits |
| `Lengthening.DbExactly` | src/dbms/index/shared/tree.go:131-147 | The same for the whole insert, new root included |
| `LengthenTree.ViewInNumbers` | src/dbms/index/shared/tree.go:170-190 | The page in the cache is the one that reads see, if and only if the height below the node plus the number of pages allocated there is less than the cache capacity |
| `LengthenTree.LengthenedPages` | src/dbms/index/shared/tree.go:165-190 | The tree that reads see uses each old and each new page once, without the pages of the left subtree when the cached page is the one read: these are leaked |
| `LengthenPages.LengthenRec` | src/dbms/index/shared/tree.go:149-190 | insertRec in that case, for any cache capacity: which tree reads see, which one the file holds, and which page is left changed in the cache only |
| `LengthenPages.InsertLonger` | src/dbms/index/shared/tree.go:131-147 | Insert in that case: the records are right if and only if the node stays cached and nothing is to the left of the cell; otherwise how many records too many or too few, in cache and file |
| `LengthenPages.ReadLater` | src/dbms/pager/pager.go:91-101 | A later read gives the changed page as long as it is cached, and the page in the file from then on |
| `Misplaced.MissExactly` | src/dbms/index/shared/tree.go:186-187 | The second search finds another index than the descent if and only if the promoted key equals the separator to the child's right; in a B-tree never |
| `Misplaced.ResumedExactly` | src/dbms/index/shared/tree.go:181-190 | What the code makes of a split B+ tree child: always the right records, and a leaf chain from left to right if and only if that key is not repeated |
| `MisplacedPages.Resume` | src/dbms/index/shared/tree.go:180-190 | The end of insertRec, wherever the second search leads: the pages hold what the tree-level account says |
| `MisplacedPages.ResumeRec` | src/dbms/index/shared/tree.go:149-190 | insertRec of a B+ tree, wherever the second searches on the path lead: the pages under the node hold what the tree-level account says; only they and new ones change |
| `MisplacedPages.InsertResumed` | src/dbms/index/shared/tree.go:131-147 | Insert of a B+ tree, wherever the second searches lead: the pages hold a tree with the right records, whose leaves are a chain if and only if no promoted key on the path is repeated |
| `MisplacedRoot.ExtendsModel` | src/dbms/index/shared/tree.go:149-190 | Where the tree-level insert has an answer, the account without its guard for repeated keys is the same |
| `MisplacedRoot.CodeExactly` | src/dbms/index/shared/tree.go:149-190 | insertRec in any reachable B+ tree, through any cascade: the records are right, and the leaves a chain if and only if no promoted key on the path is repeated |
| `MisplacedRoot.DatabaseExactly` | src/dbms/index/shared/tree.go:131-147 | The same for the whole insert, new root included |
| `Examples.TightRun` | src/dbms/index/shared/tree.go:201 | Two inserts of which the room test accepts the second without room for its slot, whose first key byte is read as 15 |
| `Examples.OversizedRun` | src/dbms/index/shared/tree.go:253 | Four inserts of which the last fits an empty page but not its half |
| `PageExamples.TightReads` | src/dbms/index/shared/tree.go:201-211 | On the page of that run key 2 is read back as 15 |
| `PageExamples.OversizedHalf` | src/dbms/index/shared/tree.go:259-280 | The right half of that run does not read right, whatever the buffer held before |
| `HalfExamples.TwentyOver` | src/dbms/index/shared/tree.go:253-280 | 42 inserts into a B+ tree on 512-byte pages after which the left half is 20 bytes too large: slots 11 to 18 are overwritten, record 19 is overwritten by its own slot, and the page does not read right |
| `HalfExamples.FreePointerLost` | src/dbms/index/btpage/page.go:108-112 | Eight inserts on 100-byte pages after which the cells of the left half need 108 bytes, and the code writes them without a panic, the fourth over the first |
| `PageExamples.HandledAnyway` | src/dbms/index/shared/tree.go:253-280 | Four inserts of which the model refuses the last, while both pages of its split read right |
| `PageExamples.HugeRun` | src/dbms/index/shared/tree.go:131-147 | The first insert into an empty B-tree on 64-byte pages, with any value of 38 bytes or more, splits into two empty leaves and a record that fits no root |
| `PageExamples.HugeRoot` | src/dbms/index/shared/tree.go:136-144 | With 38 bytes the new root does not read right |
| `PageExamples.SecondCopy` | src/dbms/index/shared/tree.go:201-211 | A page of two records on which an insert damages the last slot and the page still reads right, because a value holds a copy of the last record |
| `PageExamples.TwiceFilled` | src/dbms/index/shared/tree.go:65-71 | Two appends to an empty page give the page that SecondCopy starts from |
| `PageExamples.LostUpdate` | src/dbms/index/shared/tree.go:170-172 | After inserting 1, 2, 3, 4, a longer value for key 3 leaves two records of four when the cache has room for two pages, and five otherwise |
| `RepeatedKeys.SevenInserts` | src/dbms/index/shared/tree.go:149-190 | Seven inserts lead to the tree T7 with repeated separators |
| `RepeatedKeys.Insert8` | src/dbms/index/shared/tree.go:186-189 | The eighth insert promotes a key equal to the separator on its right, and the code leaves the tree T8 behind |
| `RepeatedKeys.ScanStartsTooEarly` | src/dbms/index/bptree/bptree.go:163-210 | In T8 a scan from 15 descends to an empty leaf from which the chain leads to key 10, while no record is in the range |
| `RepeatedKeys.KeyStoredTwice` | src/dbms/index/shared/tree.go:157-179 | One more insert of key 10 into T8 stores a second record with that key |

## Left out

- Delete: a no-op in both trees, so there is no underflow or merging; the list's Delete is not modelled either.
- File handles, `fsync`, `SyncInterval` and I/O errors: reads and writes of the file succeed.
- Crashes: the page count is recorded by `Close` only, so reopening is modelled after a clean close.
- The LSM index, a wrapper over a library whose source is not part of this model.
- `Print`, `ExportDOT` and `src/gen_btree_dot.go`: visualisation.
- `src/bench`, `src/main.go`: measuring; used here only for value and page sizes.
- Iterators over a tree that changes during the scan, and the lifetime of the B+ iterator's zero-copy values and of the
  list iterator's shared slice: the code promises nothing.
- Pages of 65536 bytes and more, where the two-byte free pointer wraps around, and values of 65536 bytes and more.
- PageOps.AppendCell: requires room for cell and slot; the call without room is `ShortPage.ForceAppend`.
- PageOps.InsertCell: requires room for cell and slot; the call without room for the slot is `TightPage.ForceInsert`.
- Shared.Redistribute: requires halves that fit; halves that do not fit are `HalfPage.ForceHalf`.
- Shared.PageTree.SplitNode: requires halves that fit; the split without is `HalfPage.ForceSplit`, on the two buffers.
- Shared.PageTree.InsertRec: is about inserts that the tree-level insert completes; the other cases are
  `TightPage.ForceInsert`, `HalfPage.ForceSplit`, `LengthenPages.LengthenRec` and `MisplacedPages.ResumeRec`.
- Shared.PageTree.Insert: is about inserts that `TreeModel.Insert` completes; the others are those of `Cases`, with
  `LengthenPages.InsertLonger` and `MisplacedPages.InsertResumed` for the whole insert, and `RootPage.ForceRoot` for the
  new root. What inserts do to a tree one of whose pages no longer reads right is not modelled.
- LengthenPages.InsertLonger: requires that the rest of the insert meets no second case, in the child behind the cell or
  above it.
- MisplacedPages.InsertResumed: requires that the insert meets no case but repeated separators.
- FilledPage.HalfExactly: is about halves whose cells but the last stay behind the header. For others
  `HalfPage.ForceHalf` gives the bytes and `FilledPage.NextInHeader` the next step, but no condition says when they read
  right. What is read through a wrong slot is not spelled out; it depends on the bytes that the slot then leads to.
- Runs that go on after a case that turned out right: each case is about the one insert that meets it.
