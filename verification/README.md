# AkatsukiDB: the storage engine and query core, verified

AkatsukiDB is a single-threaded relational engine whose data structures are written by hand. This project
models them in Dafny, branch by branch, and proves what they are for.

**Index.** The paged B+ tree runs as in the source: pages updated slot by slot, recursive insertion with leaf and
internal splits, recursive deletion with borrowing, merging and root collapse, queries along the leaf chain. Every
method is proved against a functional tree (`BPlusTreeInsert`, `BPlusTreeDelete`), and that tree against a sorted map.
`Valid` says: sorted nodes, separators that bound their subtrees, leaves at one depth, 15 to 30 keys in every node
but the root, no page used twice, and next/prev links that visit the leaves in tree order. Insertion always keeps it.
Deletion keeps it exactly when `Fault` is false, a condition on the key counts along one path: the code takes the
lower bound of a key for the index of the child it descended to, which is one too small when the key equals a
separator, and it takes the second key of the right neighbour as separator when an internal node borrows from the
right. `BPlusTreeNodes` goes down to the 4096 bytes behind a page, and `IndexKeys` to the 128 bytes of a key.

**Storage.** The buffer pool over the LRU list over the page file shows its callers one flat array of pages; the list
holds the most recently used ids in order, so it is known exactly which handles still reach the array.

**Transactions.** Rollback restores the rows as they were at BEGIN, and every unique index, unless one of the deletions
on the way takes a broken branch of the tree, or a statement puts in a key that is not the key of the row it stores:
`Transactions` says what the entries should be, `IndexTrees` and `TransactionIndexes` what INSERT, UPDATE, DELETE and
rollback make of the trees, and the executor in `Engine` runs on those trees. `StoredKeys` says when a statement's values
make the key of what `RowSerializer` stores for them. A state machine over whole lives of a database, from run to run over one log, says when recovery yields
exactly the committed rows, for every life and every crash image. The log file is modelled byte by byte, with reads of
any prefix of it and of what is appended behind a torn record.

**Constraints and queries.** Foreign keys on INSERT and UPDATE, looked up by key in the index of the referenced table,
and on cascading DELETE; uniqueness checks on INSERT and UPDATE; the choice of an index for a WHERE clause, what its filter
means, and its scan down to the tree; the expression parser against a grammar and a printer, the LIKE matcher, and the
row images with all conversions between types.

Wherever the code does not do what its documentation, tests or error messages promise, the model does what the code
does: a lemma names an input on which the promise fails, and another says exactly when it holds.

- Deletion in the tree: `SeparatorDeletionOverruns`, `InternalBorrowBreaks`; exact condition in `DeleteExact`.
- Rolling back two inserts can lose the entry of a third row: `RollbackLosesAnother`; exact conditions in
  `FollowsExact` for any operations on an index, in `RollbackRestoresTree`, `StepKeepsTree` and `TransactionTracks` for
  statements and whole transactions.
- The key that goes into an index is that of the value in the statement, not of the one stored: `FractionalKeyPasses`
  for UPDATE, `InsertStays` for INSERT and ROLLBACK; exact conditions in `UpdateExact`, `StepKeepsTree` and
  `KeyStoredExact`.
- Recovery undoes transactions that were rolled back: `RollbackThenCommitIsLost`. Ids start again at 1 in every run, so
  that commits of other runs hide transactions: `ReusedIdIsNotUndone`, `LaterCommitHides`. Exact conditions for both in
  `RecoversIff` and `RecoversAlwaysIff`.
- Recovery leaves the indexes alone: exact condition in `IndexAfterRecovery`.
- Records appended behind a torn one are lost: `TornTail`, `TornTailRealigned`.
- A cascade is not logged, so not undone: `CascadeIsNotUndone`; exact condition in `RollbackRestoresIff`.
- UPDATE of a referenced key is not checked: `UpdateOrphans`; exact condition in `UpdateIntegrity`.
- The check for a parent asks an index for one value, which is wrong for primary keys of several columns and for values
  of another type: `CompositeKey`, `DoubleForInt`; exact condition in `LookupExact`.
- DELETE trusts an index on the foreign key column, and a search among equal keys can miss: `DuplicateIsMissed`,
  `WrongNo`; exact conditions in `CheckExact` and `RestIntegrity`.
- INSERT has its UNIQUE test inverted: `NothingGetsIn`; exact condition in `InsertExact`.
- UPDATE checks new keys only against the old index: `SameKeyTwicePasses`; exact condition in `UpdateExact`.
- Index plans: `NullIsLess`, `FractionIsCut`, `AliasIsDropped`; exact condition in `PlanExact`.
- Keys: `NullIsSmallestInt`, `StringsRunTogether`; exact conditions in `NullKeyExact`, `StringKeysCollide`, and for
  all lists of values in `KeysCollide`.
- Parser: `QuotedNotIsAnOperator`, `QuotedParenthesisEndsTheList`; exact condition in `ExpressionUnique.RoundTrip`.
  A column named like a keyword is refused behind a dot: `KeywordBehindDot`.
- Row images do not cut strings of more than 100 bytes: `LongStringOverruns`; exact conditions in `RowRoundTrip` and
  `FlagIsIgnored`.
- `README.md:175` of the repository gives the page cache 256 pages; the code, and the model, give it 1024
  (`include/AkatsukiDB/Storage/BufferPool.hpp:15`).

## Modules

| file | contents |
|---|---|
| `BPlusTreeModel`, `BPlusTreeInsert`, `BPlusTreeDelete`, `BPlusTreeFault` | the tree as a value, its operations, and when deletion is right |
| `BPlusTreeChain`, `BPlusTreePages`, `BPlusTreeBounds`, `Slots` | leaves in order and what queries select, pages against trees, sizes, shifting |
| `BPlusTree`, `BPlusTreeNode`, `IndexKeys` | the class over pages, the node over bytes, the key over bytes |
| `Storage`, `LruCache`, `LruOrder`, `BufferPool` | pages and file, the linked list, its order over runs, the pool |
| `TreeHandles` | the pages an operation on an index fetches stay in the pool |
| `Transactions`, `IndexTrees`, `TransactionIndexes` | undo of slots and of what indexes should hold, indexes as trees, statements, transactions and rollback on those |
| `StoredKeys` | keys of given values and of stored ones |
| `Recovery`, `CrashRuns`, `Engine`, `WalFile` | recovery over any log, whole lives, the classes, the log file |
| `ForeignKeys`, `ParentLookups`, `Constraints` | references, when the lookup of a parent is right, unique keys |
| `ScanPlans`, `ScanFilters`, `IndexScans` | index plans, filters and full scans, scans down to the tree |
| `Expressions`, `ExpressionRoundTrip`, `ExpressionUnique`, `ExpressionParser`, `LikeMatcher` | parsing and printing, what is printed is read back, and only that, the parser class, LIKE |
| `ExpressionGrammar`, `ExpressionSpelling` | what is read is of the grammar, names in any spelling |
| `RowSerializer`, `Conversions`, `ByteCodec`, `Options` | row images, integers and doubles, numbers as bytes, optional values |

## Model

| member | source | states |
|---|---|---|
| `BPlusTrees.BPlusTree.constructor` | src/Index/BPlusTree.cpp:8-21 | A new index file is a whole tree and holds nothing. |
| `BPlusTrees.BPlusTree.Open` | src/Index/BPlusTree.cpp:8-21 | Opening the file again finds the root through the header page and the same contents. |
| `BPlusTrees.BPlusTree.Insert` | src/Index/BPlusTree.cpp:105-124 | Under a key the index lacks, adds exactly that entry to the map; the whole invariant holds again, through leaf splits, cascading internal splits and root growth. |
| `BPlusTrees.BPlusTree.InsertRec` | src/Index/BPlusTree.cpp:126-146 | The pages below are the outcome of the functional insertion, pages of other subtrees keep their bodies, the caller is told of a split exactly when there was one, and the chain gains the new leaf after the split one. |
| `BPlusTrees.BPlusTree.InsertIntoLeaf` | src/Index/BPlusTree.cpp:148-162 | The shifting loop puts the entry where its key belongs and touches no other page. |
| `BPlusTrees.BPlusTree.SplitLeaf` | src/Index/BPlusTree.cpp:164-202 | 31 sorted entries end up as 15 and 16 in two linked pages; the first key of the new page is promoted. |
| `BPlusTrees.SortedTotal` | src/Index/BPlusTree.cpp:166-175 | Sorting the old entries with the new one appended, by any method, is inserting it in order. |
| `BPlusTrees.BPlusTree.InsertIntoInternal` | src/Index/BPlusTree.cpp:204-214 | Separator and child go in at the lower bound of the separator, the child to its right. |
| `BPlusTrees.BPlusTree.SplitInternal` | src/Index/BPlusTree.cpp:216-253 | The middle key moves up; the two pages are the halves around it, and no leaf link changes. |
| `BPlusTreeInsert.PromotedPosition` | src/Index/BPlusTree.cpp:204-214 | A promoted key lies strictly between its neighbouring separators, so its lower bound is the child that split. |
| `BPlusTreeInsert.InsertRecCorrect` | src/Index/BPlusTree.cpp:126-146 | At every level, for every tree and key: bounds, order, depth and occupancy are restored, and the entries are the old ones with the new one in order. |
| `BPlusTrees.InsertCorrect` | src/Index/BPlusTree.cpp:105-124 | Insertion at the root keeps the tree well formed, one level higher at most, and adds exactly one entry. |
| `BPlusTreeChain.InsertRecLeaves` | src/Index/BPlusTree.cpp:126-146 | Insertion replaces the one leaf its search reaches, by one or two leaves, and no other. |
| `BPlusTreePages.ChainAfterSplit` | src/Index/BPlusTree.cpp:185-197 | Relinking after a split keeps next and prev visiting all leaves in tree order. |
| `BPlusTrees.BPlusTree.Delete` | src/Index/BPlusTree.cpp:255-264 | When no broken branch is taken: removes exactly the entry under the key, or reports that there is none, and the invariant holds again. When one is taken: the key was there, and the pages left behind are no whole tree of any height, or the code was about to write past a page. |
| `BPlusTreeFault.DeleteExact` | src/Index/BPlusTree.cpp:255-304 | For every tree and key, deletion removes exactly the entry and restores the invariant if and only if `Fault` is false. |
| `BPlusTreeFault.DeleteUnsound` | src/Index/BPlusTree.cpp:274-304 | Under `Fault` the tree left behind is not well formed at any height. |
| `BPlusTreeDelete.DeleteRestoresShape` | src/Index/BPlusTree.cpp:266-304 | Without `Fault`, order, bounds, depth and occupancy survive every borrow and merge below a node, which loses at most one key. |
| `BPlusTreeDelete.DeleteRemovesEntry` | src/Index/BPlusTree.cpp:266-318 | Without `Fault`, the entries after deletion are the old ones without the deleted one. |
| `BPlusTreeDelete.RebalanceFlat` | src/Index/BPlusTree.cpp:320-432 | Borrowing and merging move entries and leaves without losing, adding or reordering any. |
| `BPlusTreeBounds.SeparatorDeletionOverruns` | src/Index/BPlusTree.cpp:281-303 | Two leaves of 30 and 15 entries: deleting the key that separates them merges 44 entries into one page. |
| `BPlusTreeBounds.InternalBorrowBreaks` | src/Index/BPlusTree.cpp:375-388 | A borrow between internal nodes leaves a separator behind that no longer bounds its subtree. |
| `BPlusTrees.BPlusTree.DeleteRec` | src/Index/BPlusTree.cpp:266-304 | The pages follow the functional deletion, wrong branches included; a missing key changes nothing; a merge takes exactly its right leaf out of the chain. |
| `BPlusTrees.BPlusTree.DeleteFromLeaf` | src/Index/BPlusTree.cpp:306-318 | The shifting loop closes the gap; without the key nothing changes. |
| `BPlusTrees.BPlusTree.BorrowFromLeft` | src/Index/BPlusTree.cpp:320-353 | Pages after the shifts and copies are the tree with the last entry or child moved over. |
| `BPlusTrees.BPlusTree.BorrowFromRight` | src/Index/BPlusTree.cpp:355-388 | The same from the right, with the separator the code really writes. |
| `BPlusTrees.BPlusTree.MergeChildren` | src/Index/BPlusTree.cpp:390-432 | The right neighbour's slots follow the left one's, the separator and the right child leave the parent, the chain skips the right leaf; stops where the code would run past the page. |
| `BPlusTreeChain.DeleteRecLeafIds` | src/Index/BPlusTree.cpp:390-432 | Without `Fault`, deletion keeps all leaves in place except the right one of a merge. |
| `BPlusTreePages.ChainAfterMerge` | src/Index/BPlusTree.cpp:390-432 | Unlinking the merged leaf keeps the chain in tree order. |
| `BPlusTrees.BPlusTree.FindLeaf` | src/Index/BPlusTree.cpp:46-68 | The descent ends, and at the leaf the search belongs to. |
| `BPlusTreeChain.SearchPosition` | src/Index/BPlusTree.cpp:46-68 | Leaf and slot a search ends at are the key's place among all entries of the index. |
| `BPlusTrees.BPlusTree.PointQuery` | src/Index/BPlusTree.cpp:70-85 | Exactly the location the map holds for the key, or nothing; the walk over the chain ends. |
| `BPlusTrees.BPlusTree.RangeQuery` | src/Index/BPlusTree.cpp:87-103 | For any open or closed bounds, exactly the locations under the keys of the map that lie inside, in key order; the walk ends. |
| `BPlusTrees.SelectLists` | src/Index/BPlusTree.cpp:87-103 | What the loops collect entry by entry is the interval of the map, listed by ascending keys. |
| `BPlusTreeBounds.HeightBounds` | src/Index/BPlusTree.cpp:164-253 | A tree with h levels above its leaves holds between 30 * 16^(h-1) and 30 * 31^h entries. |
| `BPlusTrees.BPlusTree.FindKeyIndex` | src/Index/BPlusTreeNode.cpp:106-120 | Binary search finds the first slot whose key is not below the one sought. |
| `BPlusTreeNodes.SlotsInside` | src/Index/BPlusTreeNode.cpp:91-157 | A slot of either kind lies inside the page exactly when its index is below the order of the node: 30 entries, 30 keys, 31 children. |
| `BPlusTreeNodes.Layout` | src/Index/BPlusTreeNode.cpp:162-185 | The documented places of header fields, keys, row locations and children, and 30 entries or keys to a page. |
| `BPlusTreeNodes.FieldsApart` | src/Index/BPlusTreeNode.cpp:162-195 | No two fields of the layout share a byte. |
| `BPlusTreeNodes.PutPart` | src/Index/BPlusTreeNode.cpp:27-157 | Writing a field changes what is read from that field and from no other. |
| `BPlusTreeNodes.ViewAfter` | src/Index/BPlusTreeNode.cpp:27-157 | Copying bytes into a field of a page is the update of that one slot that the tree reasons about. |
| `BPlusTreeNodes.ZerosRead` | src/Index/BPlusTree.cpp:112-118 | A page of zero bytes reads as an internal node without keys. |
| `BPlusTreeNodes.BPlusTreeNode.CreateLeaf` | src/Index/BPlusTreeNode.cpp:11-18 | A fresh page becomes a leaf without entries and without neighbours. |
| `BPlusTreeNodes.BPlusTreeNode.SetType` | src/Index/BPlusTreeNode.cpp:31-34 | Count and links stay; the slots are read anew from the same bytes. |
| `BPlusTreeNodes.BPlusTreeNode.SetKeyCount` | src/Index/BPlusTreeNode.cpp:42-45 | Only the count of the page changes. |
| `BPlusTreeNodes.BPlusTreeNode.SetNextLeafPageId` | src/Index/BPlusTreeNode.cpp:64-67 | Only the next link of the page changes. |
| `BPlusTreeNodes.BPlusTreeNode.SetPrevLeafPageId` | src/Index/BPlusTreeNode.cpp:75-78 | Only the prev link of the page changes. |
| `BPlusTreeNodes.BPlusTreeNode.SetKey` | src/Index/BPlusTreeNode.cpp:98-104 | Only the key of that slot changes, to the number its 128 bytes spell. |
| `BPlusTreeNodes.BPlusTreeNode.GetRowLocation` | src/Index/BPlusTreeNode.cpp:125-132 | Reads the location that the page shows in that slot. |
| `BPlusTreeNodes.BPlusTreeNode.SetRowLocation` | src/Index/BPlusTreeNode.cpp:135-140 | Only the row location of that slot changes, and every page id and slot number is read back. |
| `BPlusTreeNodes.BPlusTreeNode.GetChildPageId` | src/Index/BPlusTreeNode.cpp:145-150 | Reads the child that the page shows in that slot. |
| `BPlusTreeNodes.BPlusTreeNode.SetChildPageId` | src/Index/BPlusTreeNode.cpp:153-157 | Only that child changes. |
| `BPlusTreeNodes.BPlusTreeNode.FindKeyIndex` | src/Index/BPlusTreeNode.cpp:106-120 | Binary search with byte-wise comparison finds the lower bound in the order of the tree's keys. |
| `IndexKeys.CompareByRank` | src/Index/IndexKey.cpp:16-22 | Comparing keys byte by byte is comparing the numbers they spell in base 256. |
| `IndexKeys.KeyOrder` | include/AkatsukiDB/Index/IndexKey.hpp:48-67 | For all equally typed tuples of integers and doubles that fit, a string without NULs allowed last: keys compare as the tuples do, and different tuples have different keys. |
| `IndexKeys.KeysCollide` | include/AkatsukiDB/Index/IndexKey.hpp:48-67 | Two lists of values have the same key if and only if their bytes differ in nothing but zeros at the end. |
| `IndexKeys.DoubleOrder` | src/Index/IndexKey.cpp:76-96 | For finite doubles, the order of the keys (section 5.10 of IEEE 754-2019) is that of the values, except that -0 comes before +0. |
| `IndexKeys.NullIsSmallestInt` | include/AkatsukiDB/Index/IndexKey.hpp:59-61 | NULL, the smallest integer and the empty string have the same key. |
| `IndexKeys.NullKeyExact` | include/AkatsukiDB/Index/IndexKey.hpp:59-61 | A single value has the key of NULL if and only if it is NULL, the smallest integer, a string of NULs or the double of all ones. |
| `IndexKeys.StringsRunTogether` | src/Index/IndexKey.cpp:98-102 | Two tuples of strings with the same concatenation have the same key. |
| `IndexKeys.StringKeysCollide` | src/Index/IndexKey.cpp:98-102 | Two tuples of strings have the same key if and only if their concatenations differ only in NULs at the end. |
| `IndexKeys.LowestRank` | src/Index/IndexKey.cpp:44 | The key of zero bytes is the smallest number. |
| `IndexKeys.HighestRank` | src/Index/IndexKey.cpp:46-50 | The key of 0xFF bytes is the greatest number of its length. |
| `IndexKeys.IndexKey.CompareTo` | src/Index/IndexKey.cpp:16-22 | The loop returns the sign of the first difference. |
| `IndexKeys.IndexKey.FromValues` | include/AkatsukiDB/Index/IndexKey.hpp:48-67 | The bytes of the values one after the other, zeros behind them; no key if they do not fit in 128 bytes. |
| `Storage.PageManager.AllocatePage` | src/Storage/PageManager.cpp:55-65 | Appends a page of zero bytes. |
| `Storage.PageManager.ReadPage` | src/Storage/PageManager.cpp:71-88 | A clean copy of the page's image, or null for a page the file does not have. |
| `Storage.PageManager.WritePage` | src/Storage/PageManager.cpp:90-98 | A dirty page replaces its image and is clean afterwards; a clean one writes nothing. |
| `LruCaches.LruCache.AddFront` | src/Storage/LruCache.cpp:7-12 | Relinking puts the node in front of a list that is consistent both ways. |
| `LruCaches.LruCache.Remove` | src/Storage/LruCache.cpp:14-18 | Relinking takes out that node and no other. |
| `LruCaches.LruCache.Get` | src/Storage/LruCache.cpp:35-45 | A hit is one access to its id and changes no page; a miss changes nothing. |
| `LruCaches.LruCache.Put` | src/Storage/LruCache.cpp:47-69 | List and map agree again; the ids follow one access; exactly the least recently used page is pushed out of a full cache, written to the file first if dirty. |
| `LruCaches.LruCache.Pages` | src/Storage/LruCache.cpp:71-80 | Exactly the cached pages. |
| `LruOrder.RunIsRecency` | src/Storage/LruCache.cpp:35-69 | After every history of accesses the cache holds the most recently accessed distinct ids, up to its capacity, in that order. |
| `LruOrder.RecencyIsByLastUse` | src/Storage/LruCache.cpp:35-69 | That order is the order of last use. |
| `LruOrder.CachedIffRecent` | src/Storage/LruCache.cpp:47-69 | A page is cached if and only if it was accessed and fewer than `capacity` others were accessed since. |
| `LruOrder.HeldThroughout` | src/Storage/LruCache.cpp:47-69 | A holder that touches fewer than `capacity` other pages never loses its page, at no point in between. |
| `BufferPools.EvictionInvisible` | src/Storage/BufferPool.cpp:30-43 | Writing a dirty page back, dropping it and taking another one in changes what no caller sees. |
| `BufferPools.BufferPool.AllocatePage` | src/Storage/BufferPool.cpp:26-28 | The array of pages grows by one page of zeros. |
| `BufferPools.BufferPool.GetPage` | src/Storage/BufferPool.cpp:30-43 | Null exactly for pages outside the array; hit, miss or eviction, no page's content changes, clean pages equal their images, and the cached ids follow the trace. |
| `BufferPools.BufferPool.WriteThrough` | src/Storage/BufferPool.cpp:30-43 | A write through a handle reaches the array exactly when the cache still holds that handle, and is lost otherwise. |
| `TreeHandles.OperationsHoldTheirPages` | src/Index/BPlusTree.cpp:46-432 | Of the pages that a search, an insertion or a deletion in an index fetches, from the first to the last, none has left the cache before the operation ends, whatever was fetched before; so no write through a node it holds is lost. |
| `TreeHandles.HeightOfIndex` | src/Index/BPlusTree.cpp:164-253 | An index with at most 2^48 entries, as many as row locations can name, has at most eleven levels above its leaves. |
| `BufferPools.BufferPool.FlushAll` | src/Storage/BufferPool.cpp:45-51 | Changes no content; afterwards the file equals what callers see and nothing is dirty. |
| `Transactions.RollbackRestoresRows` | src/AQL/Executor/ExecuteTransactions.cpp:26-71 | Undoing any recorded sequence of inserts, updates and single deletes, last first, restores every slot that was there and leaves only dead ones besides; the live rows are those of BEGIN. |
| `Transactions.RollbackRestoresIndex` | src/AQL/Executor/ExecuteTransactions.cpp:33-68 | What the changes to an index should come to, undone last first, is its map at BEGIN. |
| `Transactions.AgreesDetermines` | src/AQL/Executor/Executor.cpp:76-85 | Agreement with the table determines the index. |
| `Transactions.AddAgrees` | src/AQL/Executor/ExecuteInsert.cpp:125-130 | With a new live row and its key, what the index should hold agrees with the table if and only if the keys stay unique. |
| `Transactions.DropAgrees` | src/AQL/Executor/ExecuteDelete.cpp:169-177 | Without the row and without its key, what the index should hold agrees with the table. |
| `Transactions.MoveAgrees` | src/AQL/Executor/ExecuteUpdate.cpp:118-127 | With the entry under the key of the row as stored, what the index should hold agrees with the table if and only if the keys stay unique; keys of other values are in `UpdateExact`. |
| `Transactions.CascadeIsNotUndone` | src/AQL/Executor/ExecuteDelete.cpp:24-36 | After a cascade, rolling back brings the parent back without its child. |
| `Transactions.RollbackRestoresIff` | src/AQL/Executor/ExecuteTransactions.cpp:26-71 | With cascades, rolling back restores the rows if and only if every row a cascade removed had been inserted or updated before by the same transaction. |
| `IndexTrees.FollowsExact` | src/Index/BPlusTree.cpp:105-304 | For every tree and every sequence of insertions and deletions: the tree is whole and holds what it should after every one of them if and only if no deletion among them meets `Fault`. |
| `IndexTrees.RollbackLosesAnother` | src/AQL/Executor/ExecuteTransactions.cpp:33-41 | Inserting 55 and 70 into a tree of 69 entries and rolling both back leaves a tree in which a search for 39 ends in a leaf without it. |
| `IndexTrees.DuplicateIsMissed` | src/Index/BPlusTree.cpp:55-85 | Two rows under one key on both sides of a split: deleting the key takes the right one, and a search for it then ends in a leaf without it, while the left one is still in the tree. |
| `TransactionIndexes.RollbackRestoresTree` | src/AQL/Executor/ExecuteTransactions.cpp:33-68 | Of a tree that holds what the rows say before the rollback: throughout it is whole and holds what the rows say if and only if no deletion on the way meets `Fault`, and then it holds in the end what it held at BEGIN. |
| `TransactionIndexes.StepKeepsTree` | src/AQL/Executor/ExecuteUpdate.cpp:107-127 | INSERT, UPDATE or DELETE of one row, the key put in being that of the statement's values: the tree follows if and only if no deletion meets `Fault`; and then it holds what the rows say afterwards if and only if that key is the key of the stored row. |
| `TransactionIndexes.TransactionTracks` | src/AQL/Executor/ExecuteUpdate.cpp:107-127 | From BEGIN on, the tree of a unique index holds what the rows say after every statement if and only if every statement's key is that of the row it stores and no deletion meets `Fault`. |
| `TransactionIndexes.TransactionRollsBack` | src/AQL/Executor/ExecuteTransactions.cpp:26-71 | A whole transaction with such keys, and its rollback: unless a deletion on the way meets `Fault`, the tree holds in the end what it held at BEGIN. |
| `TransactionIndexes.InsertStays` | src/AQL/Executor/ExecuteTransactions.cpp:33-41 | An INSERT under another key than that of the stored row, rolled back: nothing meets `Fault`, and the entry stays in the index. |
| `StoredKeys.KeyStoredExact` | src/AQL/Executor/Executor.cpp:76-85 | For any values, column types and index columns: the key of the statement's values is that of the stored ones if and only if their bytes differ in nothing but zeros at the end. |
| `StoredKeys.TypedKeyIsStored` | src/Table/RowSerializer.cpp:39-79 | Values of their columns' types make the key of what is stored. |
| `StoredKeys.ImageKeyIs` | src/Table/RowSerializer.cpp:11-125 | The key read out of a row image is that of the values as stored. |
| `StoredKeys.IntAndDouble` | src/Index/IndexKey.cpp:52-96 | An integer and a double have the same key if and only if the double begins with the four bytes of the integer and goes on with zeros. |
| `StoredKeys.FractionalKey` | src/Table/RowSerializer.cpp:43-46 | For 5.5 an integer column stores 5, and of all integers only 1075183616 has the key of 5.5. |
| `Engine.TransactionManager.Begin` | include/AkatsukiDB/WAL/TransactionManager.hpp:33-41 | A fresh id, logged, with no changes; refused while a transaction is active. |
| `Engine.TransactionManager.Finish` | include/AkatsukiDB/WAL/TransactionManager.hpp:43-67 | Logs the end of the transaction and leaves none active. |
| `Engine.TransactionManager.Record` | include/AkatsukiDB/WAL/TransactionManager.hpp:45-62 | Log and change list grow by the same change. |
| `Engine.Executor.ExecuteBegin` | src/AQL/Executor/ExecuteTransactions.cpp:16-19 | A step of the run; the slots of this moment, and what the indexes should hold now, are what a rollback goes back to. |
| `Engine.Executor.ExecuteCommit` | src/AQL/Executor/ExecuteTransactions.cpp:20-25 | A step of the run: what the slots show is committed. |
| `Engine.Executor.Change` | src/AQL/Executor/ExecuteUpdate.cpp:107-127 | A step of the run, for any change and any keys: every unique index performs its insertions and deletions, and is hurt from now on exactly if it was, if one of those met `Fault`, if the key put in is not that of the stored row, or if another row has it; all others agree with the table again. |
| `Engine.Executor.ExecuteRollback` | src/AQL/Executor/ExecuteTransactions.cpp:26-71 | The reverse loop restores the rows to what they were at BEGIN, and every unique index that is not hurt: in which no deletion, before or now, has met `Fault`, and no statement has put in a key that was not the stored row's or not its alone. |
| `Recovery.NetRecover` | src/Engine/AkatsukiEngine.cpp:130-151 | What recovery does to a slot is the net effect of the undone changes of that slot, whatever happens to others. |
| `Recovery.RecoveryExact` | src/Engine/AkatsukiEngine.cpp:113-153 | For any log, any image and any rows: recovery yields those rows in every order of visiting transactions if and only if what each undone transaction puts back is meant to be there and the remaining slots already hold what is meant. |
| `Recovery.IndexAfterRecovery` | src/Engine/AkatsukiEngine.cpp:139-151 | An index that agreed with the table before recovery agrees with it afterwards if and only if what is undone kills no row, revives none and gives none another key. |
| `CrashRuns.RunKeeps` | src/Engine/AkatsukiEngine.cpp:22-40 | Every life of begins, writes, commits, rollbacks, crashes and restarts keeps the invariant that ties the logs of all runs, the slots and the possible crash values to the committed rows, as long as its restarts have brought those back. |
| `CrashRuns.RecoversIff` | src/Engine/AkatsukiEngine.cpp:113-153 | In every such life, for every crash image its last run can leave: recovery yields the committed rows, in every order of transactions, if and only if what each undone transaction puts back is committed and the slots hidden by a commit of the same id in another run hold what is committed. |
| `CrashRuns.NothingHidden` | include/AkatsukiDB/WAL/TransactionManager.hpp:77 | In a first run, whatever was done, no slot is hidden. |
| `CrashRuns.RecoversAlwaysIff` | src/Engine/AkatsukiEngine.cpp:113-153 | As things stand before a crash: every image and every order recovers the committed rows if and only if what undone transactions put back is committed, and all values a hidden slot took on since it was last committed or found are. |
| `CrashRuns.RestartsGoWell` | src/Engine/AkatsukiEngine.cpp:22-40 | Over any number of runs: while every crash finds a recoverable state, every restart brings the committed rows back. |
| `CrashRuns.RecoversUnlessOverwritten` | src/Engine/AkatsukiEngine.cpp:113-153 | In every such life, every image and every order recovers the committed rows when no id left uncommitted in one run is committed in another, and no committed transaction of any run wrote a slot after an undone one. |
| `CrashRuns.RecoveryRestarts` | src/Engine/AkatsukiEngine.cpp:130-151 | A recovery cut short anywhere can be run again with the same result. |
| `CrashRuns.RollbackThenCommitIsLost` | src/Engine/AkatsukiEngine.cpp:117-128 | Recovery undoes a rolled-back transaction again and loses a later committed update. |
| `CrashRuns.ReusedIdIsNotUndone` | include/AkatsukiDB/WAL/TransactionManager.hpp:77 | A life of two runs: the first commits id 1, the second crashes with an open update of id 1, which recovery then leaves in place. |
| `CrashRuns.LaterCommitHides` | include/AkatsukiDB/WAL/TransactionManager.hpp:77 | A life of two runs: an open update of id 1 is undone at the restart but not written back; the second run commits id 1 and crashes; the update is there again. |
| `Engine.AkatsukiEngine.FindCommitted` | src/Engine/AkatsukiEngine.cpp:115-121 | The ids with a commit record anywhere in the log. |
| `Engine.AkatsukiEngine.CollectUncommitted` | src/Engine/AkatsukiEngine.cpp:123-128 | For every other id, its changes in log order. |
| `Engine.AkatsukiEngine.Recover` | src/Engine/AkatsukiEngine.cpp:113-153 | The loops compute the recovery the theorems are about, for some order of the transactions. |
| `WalFile.ReadPrefix` | src/WAL/WalManager.cpp:132-169 | Reading any byte prefix of the file returns exactly the records that lie wholly inside it. |
| `WalFile.WholeIsMaximal` | src/WAL/WalManager.cpp:132-169 | Those are as many as fit: the next one would not. |
| `WalFile.ReadWhole` | src/WAL/WalManager.cpp:132-169 | Reading the whole file returns all records. |
| `WalFile.TornTail` | src/WAL/WalManager.cpp:65-94 | For a record torn anywhere, with any records appended: reading stops in front of it if and only if it is torn inside its magic number or what is appended does not make up for the size then found, which may itself be made of appended bytes. |
| `WalFile.TornSizeIs` | src/WAL/WalManager.cpp:144-164 | Torn behind its size field, the record is read with its own size; torn before, with four bytes of what is appended. |
| `WalFile.TypeBytes` | include/AkatsukiDB/WAL/WalManager.hpp:21-28 | The type byte of every kind of record, and that it is read as that kind. |
| `WalFile.TornTailRealigned` | src/WAL/WalManager.cpp:132-169 | When appended records make up for just the bytes that the torn one lacks, they are read as one record, under its number and transaction as far as those were written, and all records behind them are read. |
| `WalFile.LsnsAscend` | src/WAL/WalManager.cpp:68-72 | Sequence numbers ascend over the whole log if and only if fewer than 2^32 records were written. |
| `WalFile.WalManager.Open` | src/WAL/WalManager.cpp:24-42 | Any file can be opened: numbering goes on behind the last record found, and a file of whole records is read in full. |
| `WalFile.WalManager.Write` | src/WAL/WalManager.cpp:65-94 | Appends one record under the next number at the end of any file, with at most 31 characters of the table's name. |
| `WalFile.WalManager.ReadAll` | src/WAL/WalManager.cpp:132-169 | The loop reads what the file format says, for any file, bytes that are no record type included; of a file of whole records, exactly those. |
| `ForeignKeys.Database.CreateTable` | src/AQL/Executor/ExecuteCreate.cpp:32-62 | A foreign key may only name a column of the primary key of a table that exists, which is what lets the recursion over tables end. |
| `ForeignKeys.Database.HasDependents` | src/AQL/Executor/ExecuteDelete.cpp:96-126 | The answer of an index on the foreign key column if there is one; otherwise true exactly when some row of the referring table holds the value. |
| `ForeignKeys.Database.CanDelete` | src/AQL/Executor/ExecuteDelete.cpp:38-94 | Follows the answers it is given. If all it can ask for are right, as they are for foreign key columns without an index of their own, it accepts a row if and only if no row that its deletion would take along is held by a key that forbids deletion; the recursion ends. |
| `ForeignKeys.CheckExact` | src/AQL/Executor/ExecuteDelete.cpp:38-109 | For any answers: a row that is let go may go if and only if no answer on the way denied a referring row that forbids it; a row that may go is let go if and only if no answer on the way made one up. |
| `ForeignKeys.RightAnswers` | src/AQL/Executor/ExecuteDelete.cpp:38-94 | With right answers about the rows that would be taken along, the check is right. |
| `ForeignKeys.ScansAreRight` | src/AQL/Executor/ExecuteDelete.cpp:113-125 | Without an index on a foreign key column, all answers are right. |
| `ForeignKeys.WrongNo` | src/AQL/Executor/ExecuteDelete.cpp:101-109 | An index that denies the one row that refers to a parent lets the parent go and strands the row. |
| `ForeignKeys.Database.DoDelete` | src/AQL/Executor/ExecuteDelete.cpp:128-177 | Deletes exactly the closure of the row under cascading keys, whatever the check was told; of a row that may go, with every reference intact after each single row. |
| `ForeignKeys.RefersExact` | src/AQL/Executor/ExecuteDelete.cpp:80-89 | A row depends on another by an equal value, or if both are NULL; then the key forbids the deletion or cascades. |
| `ForeignKeys.Database.ExecuteDelete` | src/AQL/Executor/ExecuteDelete.cpp:4-36 | Either the check lets every selected row go, and exactly their closure goes, or nothing changes. The check is right if the answers are, as without indexes on foreign key columns; if the rows may go, references are intact throughout; in any case they are intact in the end if and only if no row is stranded. |
| `ForeignKeys.RestIntegrity` | src/AQL/Executor/ExecuteDelete.cpp:128-177 | For every set of rows that is closed under cascades: without it all references are intact if and only if no remaining row has lost its only parent to a key that forbids deletion. |
| `ForeignKeys.IntegrityWithout` | src/AQL/Executor/ExecuteDelete.cpp:169-177 | Deleting a row that nothing refers to keeps every reference. |
| `ForeignKeys.Database.ExecuteInsert` | src/AQL/Executor/ExecuteInsert.cpp:85-102 | A row goes in exactly when every value given for a foreign key makes a key that the first index of the referenced table holds; references are intact afterwards if and only if every stored value has a parent. The two are the same where each lookup judges its value rightly. |
| `ForeignKeys.Database.ExecuteUpdate` | src/AQL/Executor/ExecuteUpdate.cpp:62-84 | A row is changed exactly when those lookups succeed for its assigned foreign keys; references stay intact if and only if the stored values have parents and no row referring to it loses its only parent. |
| `ForeignKeys.UpdateIntegrity` | src/AQL/Executor/ExecuteUpdate.cpp:62-84 | For every row and change, checked or not: all references are intact afterwards if and only if the changed foreign keys have parents and the change orphans no row. |
| `ParentLookups.LookupExact` | src/AQL/Executor/ExecuteInsert.cpp:85-102 | For every schema and every value that some row could have: the lookup is right on all tables if and only if the referenced column is the whole primary key, and the value has the key of exactly the values it equals. |
| `ParentLookups.IntForeignKeys` | src/AQL/Executor/ExecuteUpdate.cpp:62-84 | With foreign keys to single integer primary keys, and integers or NULLs in the statement, what the check accepts is exactly what leaves the row's references intact. |
| `ParentLookups.CompositeKey` | src/AQL/Executor/ExecuteCreate.cpp:46-56 | Of a primary key (a, b) holding ('x', 'y'), 'xy' is accepted as a value of a without a parent, and 'x' is refused though its parent is there. |
| `ParentLookups.DoubleForInt` | src/AQL/Executor/ExecuteInsert.cpp:92-101 | 5.0 is refused where the parent has the integer 5. |
| `ForeignKeys.UpdateOrphans` | src/AQL/Executor/ExecuteUpdate.cpp:62-84 | Changing a referenced key passes the check and orphans the referring row. |
| `Constraints.ExecuteInsert` | src/AQL/Executor/ExecuteInsert.cpp:75-130 | With indexes that agree with the table: a row goes in if and only if no live row has the statement's primary key and some live row has its key under every other unique index. Row and keys go in together or not at all. |
| `Constraints.NewKeysAccepted` | src/AQL/Executor/ExecuteInsert.cpp:75-83 | A table whose only index is its primary one accepts every key that no live row has. |
| `Constraints.InsertExact` | src/AQL/Executor/ExecuteInsert.cpp:104-130 | An accepted INSERT leaves indexes and table in agreement if and only if there is no second unique index and the key of the statement is the key of the stored row. |
| `Constraints.NothingGetsIn` | src/AQL/Executor/ExecuteInsert.cpp:104-116 | Through every run of INSERT, UPDATE and DELETE statements, a table with a second unique index that starts empty accepts no row and stays empty. |
| `Constraints.ExecuteUpdate` | src/AQL/Executor/ExecuteUpdate.cpp:86-127 | With indexes that agree with the table: accepted if and only if no new key is that of a live row other than the one changed. All rows are checked before any is written; then rows and indexes change together, or nothing does. |
| `Constraints.UnchangedKeysPass` | src/AQL/Executor/ExecuteUpdate.cpp:90-95 | A statement that changes no key is always accepted. |
| `Constraints.UpdateExact` | src/AQL/Executor/ExecuteUpdate.cpp:86-127 | A validated UPDATE leaves a unique index, taken as a map, in agreement with the table if and only if no two changed rows get the same key and the statement's values make the keys of the rows that are stored; what deletions do to its tree is in `StepKeepsTree`. |
| `Constraints.SameKeyTwicePasses` | src/AQL/Executor/ExecuteUpdate.cpp:90-101 | Two rows set to one new key pass all checks. |
| `Constraints.FractionalKeyPasses` | src/AQL/Executor/ExecuteUpdate.cpp:47-127 | On a table with one row of integer key 1, setting the key to 5.5 passes all checks, stores 5, and leaves the entry under the key of 5.5. |
| `Constraints.RunKeepsAgreement` | src/AQL/Executor/ExecuteInsert.cpp:39-144 | Through every run of INSERT, UPDATE and DELETE whose keys are those of the stored rows, with different new keys in an UPDATE and no second unique index at an INSERT, all indexes agree with the table. |
| `ScanPlans.FlatAndMeaning` | src/AQL/ScanPlanner.cpp:34-45 | A row passes all conjuncts if and only if it satisfies the WHERE clause. |
| `ScanPlans.RangeMeaning` | src/AQL/ScanPlanner.cpp:80-212 | On an integer column, and for any literals but strings, the index range of a conjunct holds exactly the rows whose value compares that way with the literal cut to a whole number, NULL counting as the smallest. |
| `ScanPlans.PlanMeaning` | src/AQL/ScanPlanner.cpp:9-32 | Row by row, what the plan returns differs from what the WHERE clause selects if and only if the row is misjudged: it passes the kept filter, and a fraction cut off, a NULL or a dropped conjunct makes the difference. |
| `ScanPlans.PlanExact` | src/AQL/Executor/Executor.cpp:87-132 | The scan of a plan returns the same rows in the same order as a full scan filtered by the WHERE clause if and only if it misjudges no row of the table; with fractions, NULLs and conjuncts dropped for their alias. |
| `ScanPlans.NullIsLess` | src/AQL/ScanPlanner.cpp:199-212 | `c < v` returns the rows where `c` is NULL. |
| `ScanPlans.FractionIsCut` | src/AQL/ScanPlanner.cpp:47-57 | `c = 5.5` returns the rows where `c` is 5. |
| `ScanPlans.AliasIsDropped` | src/AQL/ScanPlanner.cpp:59-78 | A condition on a column qualified by an alias is not applied. |
| `ScanPlans.DecideScan` | src/AQL/ScanPlanner.cpp:9-45 | The loops over conjuncts choose the plan the theorems are about. |
| `ScanFilters.DecideFirst` | src/AQL/ScanPlanner.cpp:18-31 | The first conjunct that compares an indexed column with literals by another operator than `!=` is answered by the index, and all others filter; without one, all filter. |
| `ScanFilters.BelongsExact` | src/AQL/ScanPlanner.cpp:59-78 | A conjunct is kept if and only if every column that is looked at, in a BETWEEN the tested one only, is unqualified or qualified by the table's own name. |
| `ScanFilters.NothingDropped` | src/AQL/ScanPlanner.cpp:59-78 | If a WHERE clause names only such columns, no conjunct is left out. |
| `ScanFilters.PlanRight` | src/AQL/ScanPlanner.cpp:9-32 | Then, if conjuncts on indexed columns compare integers that are not NULL with whole numbers, the plan returns exactly the rows that the WHERE clause selects, in the order of a full scan. |
| `ScanFilters.CoerceKeeps` | src/AQL/ScanPlanner.cpp:47-57 | A literal keeps its number on the way into a key, but for the fraction that an integer column has no place for. |
| `ScanFilters.CompareNumbers` | src/AQL/Executor/ExecuteExpression.cpp:156-185 | For all numbers and truth values and all operators, a comparison is the relation of the reals they stand for. |
| `ScanFilters.CompareNulls` | src/AQL/Executor/ExecuteExpression.cpp:158-161 | With NULL, only `=` between two NULLs is true, and `!=` between NULL and anything else. |
| `ScanFilters.CompareTexts` | src/AQL/Executor/ExecuteExpression.cpp:163-170 | A comparison with text goes by the sign of the comparison of the two values. |
| `ScanFilters.UnequalIsNotEqual` | src/AQL/Executor/ExecuteExpression.cpp:156-171 | For all values, `!=` is the negation of `=`. |
| `ScanFilters.ScanOfComparison` | src/AQL/Executor/Executor.cpp:87-97 | A full scan filtered by one comparison returns exactly the rows whose number stands in the relation, and for `!=` those with NULL. |
| `ScanFilters.FullScan` | src/Table/TableManager.cpp:69-87 | All rows that are not deleted, page by page and slot by slot. |
| `ScanPlans.SortLocs` | src/AQL/Executor/Executor.cpp:99-108 | Distinct locations from the index come out in the order of a full scan. |
| `ScanPlans.GetScannedRows` | src/AQL/Executor/Executor.cpp:87-124 | Scanning returns exactly the rows of the plan, in location order, given the rows an index found. |
| `IndexScans.FoundIsRight` | src/Index/BPlusTree.cpp:70-103 | What a query of the tree lists between the keys of a plan is exactly the rows in its range, each once. |
| `IndexScans.ScanByIndex` | src/AQL/Executor/Executor.cpp:87-124 | A plan run on the pages of a unique index that holds each row under the key of its column: exactly the rows of the plan, in the order of a full scan. |
| `LikeMatcher.RecLike` | src/AQL/Executor/ExecuteExpression.cpp:248-273 | The recursion decides the relation for every pair of suffixes, and the memo table only ever holds -1 or the truth. |
| `LikeMatcher.LikeMatch` | src/AQL/Executor/ExecuteExpression.cpp:242-246 | For every text and pattern: true exactly when the text can be cut into one piece per pattern character. |
| `ExpressionUnique.RoundTrip` | src/AQL/Parser.cpp:463-699 | For every expression: parsing the tokens printed for it, with parentheses only where precedence needs them, returns that very expression and consumes exactly those tokens if and only if no name or literal stands where the parser takes it for `not` or for a closing parenthesis, and names are in lower case. |
| `ExpressionSpelling.RoundTripSpelled` | src/AQL/Parser.cpp:598-625 | The same for every way to spell the tokens: with names and words as keywords or identifiers, a column behind a dot as identifier only, and in any case of letters. |
| `ExpressionSpelling.KeywordIsAName` | src/AQL/Tokenizer.cpp:41-50 | `COUNT(*)`, with `COUNT` a keyword, is a call of `count`. |
| `ExpressionGrammar.OnlyTheGrammar` | src/AQL/Parser.cpp:463-699 | Whatever the parser takes for an expression is one of the grammar: the tokens it consumes are those of the very expression it returns. |
| `ExpressionGrammar.KeywordBehindDot` | src/AQL/Parser.cpp:612-615 | A name behind a dot that is not an identifier is refused. |
| `ExpressionRoundTrip.Reads` | src/AQL/Parser.cpp:469-665 | The forward half at every level of the grammar, with left associativity, whatever follows that does not belong to the expression. |
| `ExpressionRoundTrip.QuotedNotIsAnOperator` | src/AQL/Parser.cpp:495-504 | A string spelled `not` at the start of a comparison is taken for the operator. |
| `ExpressionRoundTrip.QuotedParenthesisEndsTheList` | src/AQL/Parser.cpp:525-545 | A string spelled `)` ends the list of an IN. |
| `ExpressionParser.Parser.Match` | src/AQL/Parser.cpp:20-29 | Consumes the next token exactly when it is spelled like the word, in any case. |
| `ExpressionParser.Parser.ParseExpression` | src/AQL/Parser.cpp:463-467 | The recursive descent ends, and result and position are those of the grammar. |
| `ExpressionParser.Parser.ParseLeft` | src/AQL/Parser.cpp:469-493 | The loops that rebuild the left operand make operators associate to the left. |
| `ExpressionParser.Parser.ParseComparison` | src/AQL/Parser.cpp:506-566 | At most one comparison, IS NULL, BETWEEN, IN or LIKE after an operand. |
| `ExpressionParser.Parser.ParseTerm` | src/AQL/Parser.cpp:598-664 | Columns, qualified columns, calls, literals and parentheses, as in the grammar. |
| `ExpressionParser.Parser.ParseItems` | src/AQL/Parser.cpp:677-699 | A list up to its closing parenthesis, item by item. |
| `RowSerializer.RowRoundTrip` | src/Table/RowSerializer.cpp:88-163 | For every well-typed row: decoding its image gives every value or NULL back if and only if the bytes of every string are still there when it is read, those it wrote past its field included. |
| `RowSerializer.ImageRoundTrip` | src/Table/RowSerializer.cpp:11-163 | For every well-typed row, serializing what was decoded gives the same bytes, even where decoding did not give the row back. |
| `RowSerializer.FlagIsIgnored` | src/Table/TableManager.cpp:107-126 | For every image: setting or clearing the delete flag leaves the decoded row alone if and only if no string that is not NULL has a stored length that reaches the flag. |
| `RowSerializer.ShortStringsSurvive` | src/Table/RowSerializer.cpp:147-163 | Rows whose strings have at most 100 bytes always come back. |
| `RowSerializer.LongStringOverruns` | src/Table/RowSerializer.cpp:147-163 | A string of 110 bytes in the last column puts one of them on the delete flag, and does not come back. |
| `RowSerializer.BitmapMeaning` | src/Table/RowSerializer.cpp:20-30 | Bit i of the bitmap is set exactly when column i is NULL. |
| `RowSerializer.Widths` | src/Table/RowSerializer.cpp:11-30 | The documented widths: 4, 8, 1 and 104 bytes for the types, 9 bytes of NULL bits for 72 columns, and the delete flag. |
| `RowSerializer.Serialize` | src/Table/RowSerializer.cpp:11-86 | Values of any type: the column loop converts each to its column's type or leaves zeros, writes each string over whatever follows its field, then nine bytes of NULL bits and a clear flag over what strings left there. |
| `RowSerializer.StoredAsIs` | src/Table/RowSerializer.cpp:39-79 | A value of its column's type is stored as it is, and storing what was stored changes nothing more. |
| `RowSerializer.StoredInt` | src/Table/RowSerializer.cpp:43-46 | An integer column stores of a double, if a cast of it is defined, the next integer towards zero. |
| `RowSerializer.StoredFloat` | src/Table/RowSerializer.cpp:57-60 | A float column stores of an integer exactly its value, and an integer column gets the integer back from it. |
| `RowSerializer.StoredTruth` | src/Table/RowSerializer.cpp:47-62 | A truth value is stored as 1 or 0 in columns of numbers. |
| `RowSerializer.StoredText` | src/Table/RowSerializer.cpp:49-66 | Text in a column of numbers is stored as what the library reads in it. |
| `RowSerializer.StoredBlank` | src/Table/RowSerializer.cpp:69-78 | Any other type in a column of truth values or text reads back as false or as the empty text. |
| `RowSerializer.Deserialize` | src/Table/RowSerializer.cpp:88-125 | The column loop reads every value at its offset, or NULL by its bit, and a string as far as its stored length goes; it throws at a negative length. |

## Left out

- BPlusTrees.BPlusTree.Insert: takes only keys the index does not hold, because with equal keys (indexes that are not unique) the descent of the source skips equal entries to the left of a separator and deletion takes the first match; only unique indexes are modelled.
- BPlusTrees.BPlusTree.InsertRec: takes only keys absent below the node, as Insert does.
- BPlusTrees.BPlusTree.SplitLeaf: takes only keys the leaf does not hold, as Insert does.
- BPlusTrees.BPlusTree.Open: takes over pages and stored root of another object; the four bytes of the header page are read back in `BPlusTreeNodes` and `Storage` only in general.
- BPlusTrees.BPlusTree.Delete: after a page overrun nothing is said of the pages, because the source writes past their end.
- BPlusTrees.BPlusTree.DeleteRec: after a page overrun nothing is said of the pages.
- BPlusTrees.BPlusTree.MergeChildren: stops where the source writes past the last slot of a page; what the bytes behind the page become is not modelled.
- BPlusTrees.BPlusTree.SortByKey: an insertion sort stands for the library's sort, in splits and in scans; with distinct keys the result is the same.
- BPlusTreeNodes.BPlusTreeNode.CreateLeaf: is for the pages that the source makes leaves of, which are fresh and all zeros.
- IndexTrees.Perform: once a deletion has met `Fault`, the tree is followed only as long as nodes have a child more than keys; the pages are not.
- BufferPools.BufferPool.WriteThrough: stands for any write through a page handle; the tree's pages are modelled as a store of their own, and `TreeHandles` has the pages it fetches.
- Transactions.RollbackRestoresIff: is about rows only; the source also leaves the index entries of cascaded rows deleted.
- Transactions.DropAgrees: is about the map an index should hold; its tree is in `StepKeepsTree`. So are `RollbackRestoresIndex` and `MoveAgrees`, which takes the key of the stored row.
- Engine.Executor.Change: takes the change and the keys as given; the checks that let them through are in `Constraints`, and an index that is hurt stays so.
- ForeignKeys.Database.HasDependents: what an index on the foreign key column answers is an input; such indexes are not unique, and the tree is modelled for unique ones only.
- ForeignKeys.Database.DoDelete: is about rows; the index entries the source deletes with them are in `TransactionIndexes`, one row at a time.
- ForeignKeys.Database.ExecuteDelete: is about rows; the transaction records are in `Engine`.
- ForeignKeys.Database.ExecuteInsert: takes the first index of a table for the one on its primary key, and for one that agrees with the rows; when it does is in `UpdateExact`, `InsertExact` and `StepKeepsTree`. What two values being equal means is a parameter, since it goes through conversions of text to numbers.
- ForeignKeys.Database.ExecuteUpdate: changes one row; a statement that changes several checks all of them before it writes any.
- Constraints.ExecuteInsert: NOT NULL and foreign keys are checked elsewhere, and indexes that are not unique are not modelled.
- Constraints.ExecuteUpdate: as ExecuteInsert.
- ScanPlans.PlanExact: the conjunct that the index answers is on an integer column and has no string literal, and doubles must fit 32 bits once cut; string and double columns go through conversions of the standard library that stay uninterpreted, and columns unknown to the schema, for which the source throws, are outside.
- ScanPlans.GetScannedRows: takes what the index returns as an input; `IndexScans.ScanByIndex` gets it from the tree of a unique index.
- WalFile.WalManager.Write: cuts the table's name to 31 characters; recovery skips a change whose cut name is no table, and the runs of `CrashRuns` have shorter names.
- CrashRuns.RecoversIff: assumes the log reached the disk in full; slot counts of pages and the durability of committed pages are not modelled, since the source has no redo log. Nothing is said of runs after a restart that brought other rows back.
- ExpressionUnique.RoundTrip: the parser assumes a tokenizer that is not modelled.
- RowSerializer.Serialize: conversions of text to numbers, and casts of doubles that are out of range, are parameters; bytes that a string puts past the end of the buffer are dropped, and those behind an image are a parameter when it is read.
- Exceptions: modelled as null, none or a flag; the messages are left out.
- Integer widths: page ids, slots and counts of the tree are unbounded above the byte level, and 32-bit or 16-bit in `BPlusTreeNodes`, `IndexKeys`, `WalFile` and `RowSerializer`.
- Tables dropped between a crash and recovery, and tables whose files cannot be opened.
- Statement atomicity: INSERT and UPDATE that fail leave the transaction they began open.
- SELECT (projection, grouping, windows, DISTINCT, joins), DROP, TRUNCATE, SHOW, name binding, the tokenizer, schema files, file streams and flushing to stable storage: plumbing, or easier than the cores above.
- Floating-point arithmetic and conversions of numbers to text.
