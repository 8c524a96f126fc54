# A model of PageForge and what is proved about it

PageForge is a small single-threaded relational engine in C++: slotted pages, a buffer pool, a record store, B+ tree
indexes, tables with their indexes, pull-based query operators and a planner for SELECT. Every layer promises to behave
like something much simpler. This project models the layers in Dafny and proves these promises, each layer against the
contract of the one below it:

| file | layer | behaves like |
|---|---|---|
| Bytes, PageFormat, SlottedPage | a 4096-byte page with slots, tombstones, compaction, FNV checksum | a map from slots to bytes |
| HeapFile, BufferPool, PageGuard | frames, pins, dirty bits, clock eviction over the file | the sequence of logical pages |
| Stores, RecordStore | placement of records with a wrap-around hint, cursors | a map from record ids to bytes |
| BPlusNodes, BPlusTrees, BPlusTreeLaws, TreeShapes, AscendingTrees, BPlusStorage, BPlusSearch, BPlusTreeIndex | node codecs, splits, unlinking, validation, searches | a sorted set of (key, row id) |
| Tuples, TupleCodec, TableRows, Catalog | row encoding, row envelopes, named tables and indexes | typed tuples |
| IndexedTables, TableStore, LostEntry | rows, all their index entries, roll-back by hand | tables whose indexes equal what a scan gives |
| Layouts | all record formats, byte by byte | fields at fixed places |
| Sequences, Query | filter, project, sort, limit operators | functions on the sequence of rows |
| SqlPlans, IndexChoice, SelectAnalysis, SelectAnswers, AnswerLaws, PlanMeaning, SqlExecutor | choice of index, merged bounds, elided sorts, early limits | scan, filter, stable sort, project, limit |

Code that changes things step by step is modelled by classes and loops with the same fields, branches, constants and
errors; the specifications are functions on values, about which the laws are proved. Exceptions are results with one
constructor per exception class (`Wrappers`). Integers are unbounded in Dafny; the widths that matter (16-bit slot
fields, 32-bit page ids and checksums, 64-bit keys) are written out.

The theorem at the top is `SqlExecutors.BindSelect`: over a database whose indexes are in step with its tables, which
`TableStores.TableStore.Run` shows for every run of changes, a SELECT plan delivers exactly what scan, filter, stable
sort, project and limit would give, if and only if `AnsweredExactly` (file AnswerLaws) holds of the indexes, the
table, the plan and the rows. It fails for one kind of plan only: a range over an index without ORDER BY on the indexed
column comes in key order. `AnswerLaws.AnswerExactWhen` proves the condition, `AnswerLaws.RangePermutes` says what holds
in any case, and `AnswerLaws.RangeReorders` is a concrete plan for which the planner takes such a range.

The rows that come out are also described without any of these operations: `PlanMeanings.IsAnswer` says in terms of the
values in the rows which rows are picked, in which order, and what is shown of them. `PlanMeanings.DatabaseMeans` shows
that what the database delivers meets this description and that nothing else does.

Where code and documentation disagree, the code is followed:

* docs/TABLE_STORE.md:103 says that strict comparisons include the boundary key in the candidate range. The code moves
  the bound by one representable key (src/sql_executor.cpp:216-223), as docs/SQL_EXECUTION.md also says.
* docs/TABLE_STORE.md:37-39 and 94-95 promise that a failed delete restores the earlier index removals. The code ignores
  a refused restoration (src/table_store.cpp:357-363), and the tree can refuse: erasing lowers a separator, so that the
  entry is routed to the next leaf, and that leaf and the root may be full. `RestoreBlocked` is the exact condition on
  a tree (`BPlusTreeLaws.RestoreRejected`), `IndexedTables.UndoneExactly` the exact condition on a table with all its
  indexes, and `TableStores.TableStore.Erase` states which entry is where afterwards. `LostEntries.LoseEntry` reaches such
  a database by public operations and loses an entry.

## Model

| member | source | states |
|---|---|---|
| `Bytes.LERoundTrip` | src/page.cpp:23-45 | a number that fits a field is read back from the little-endian bytes written for it |
| `Bytes.LECanonical` | src/page.cpp:23-45 | every byte string is exactly what writing the number it reads as produces |
| `Bytes.FieldValues` | src/page.cpp:23-33 | the low byte of a field of two, four or eight bytes comes first |
| `PageFormat.FnvInjective` | src/page.cpp:47-57 | two checksum steps give the same hash only for the same hash before and the same byte (mod 2^32) |
| `PageFormat.FnvVectors` | src/page.cpp:47-57 | the checksum starts and steps as published for 32-bit FNV-1a |
| `PageFormat.OneByteDamageDetected` | src/page.cpp:240-275 | no two page images that differ in exactly one byte both pass validation |
| `PageFormat.PayloadFits` | src/page.cpp:122-129 | on a valid page the payload never exceeds the space behind the directory, so that reclaimable space is not negative |
| `PageFormat.SameSizeFits` | src/page.cpp:167-181 | a live record can always be exchanged for one of the same length |
| `PageFormat.FitsMeans` | src/page.cpp:131-149 | a record fits exactly if header, directory and payloads with it take at most 4096 bytes |
| `Layouts.PageLayout` | src/page.cpp:10-35 | where magic, version, page number, slot count, both ends of the free space, checksum and each slot are, byte by byte |
| `PageFormat.PackedContents` | src/page.cpp:219-238 | packing all records one below the other gives a page whose directory reads back exactly these records |
| `PageFormat.InsertedContents` | src/page.cpp:150-157 | writing a record below the free end and its slot keeps the page sound and adds this record only |
| `PageFormat.ErasedContents` | src/page.cpp:210-217 | a cleared slot keeps the page sound and removes this record only |
| `SlottedPages.SlottedPage.Initialize` | src/page.cpp:83-94 | a new page is valid, has its number and no slots |
| `SlottedPages.SlottedPage.FromBytes` | src/page.cpp:96-100 | an image is accepted exactly when it is valid |
| `SlottedPages.SlottedPage.Validate` | src/page.cpp:240-275 | the byte-by-byte check with its occupancy table accepts exactly the images with sound header, checksum and pairwise disjoint payloads |
| `SlottedPages.SlottedPage.ReclaimableSpace` | src/page.cpp:122-129 | the space that compaction would give, in terms of the records |
| `SlottedPages.SlottedPage.Read` | src/page.cpp:160-165 | the bytes of a live slot; otherwise out of range |
| `SlottedPages.SlottedPage.Insert` | src/page.cpp:131-158 | succeeds exactly when header, directory and payloads with the record take at most 4096 bytes; takes the first tombstone or a new slot; failure leaves all records |
| `SlottedPages.SlottedPage.Replace` | src/page.cpp:167-208 | succeeds exactly for a live slot when the records still fit; all other slots keep their bytes; each failure has its own error |
| `SlottedPages.SlottedPage.Erase` | src/page.cpp:210-217 | true exactly for a live slot, which becomes a tombstone; slot numbers stay |
| `SlottedPages.SlottedPage.Compact` | src/page.cpp:219-238 | keeps every record under its slot and makes all reclaimable space free |
| `HeapFiles.HeapFile.ReadPage` | src/heap_file.cpp:82-92 | the page of that number, or out of range |
| `HeapFiles.HeapFile.WritePage` | src/heap_file.cpp:94-101 | the page of that number is replaced, and no other |
| `HeapFiles.HeapFile.AllocatePage` | src/heap_file.cpp:71-80 | the file grows by one empty page with the next number |
| `BufferPools.BufferPool.Create` | src/buffer_pool.cpp:40-42 | a pool of at least one frame over the file; capacity zero is refused |
| `BufferPools.VictimWithinTwoSweeps` | src/buffer_pool.cpp:91-105 | the clock finds a frame within two sweeps exactly when some frame is empty or unpinned |
| `BufferPools.FailedSweepChangesNothing` | src/buffer_pool.cpp:91-105 | two sweeps without a victim leave all reference bits as they were, and then every frame is occupied and pinned |
| `BufferPools.ClockRule` | src/buffer_pool.cpp:91-105 | the frame found is the first free one from the hand on, or, if none is free, the first unpinned one; exactly the frames passed by lose their reference bit |
| `BufferPools.UsedPageStays` | src/buffer_pool.cpp:57-60 | a page used since the hand passed is not evicted as long as another frame is free |
| `BufferPools.BufferPool.ChooseVictim` | src/buffer_pool.cpp:91-105 | the loop takes the frame that the clock rule names, and clears the reference bits that it names; on failure nothing changed |
| `BufferPools.BufferPool.TakeVictim` | src/buffer_pool.cpp:91-105 | fails exactly when every frame is occupied and pinned; the victim is the one of the clock rule and never pinned; the logical pages stay |
| `BufferPools.BufferPool.FlushFrame` | src/buffer_pool.cpp:107-113 | writes a dirty frame and changes no logical page |
| `BufferPools.BufferPool.Install` | src/buffer_pool.cpp:115-127 | replaces an evictable frame, keeps page table and frames in one-to-one agreement, counts the eviction |
| `BufferPools.BufferPool.Fetch` | src/buffer_pool.cpp:53-68 | a hit adds one pin, sets the reference bit and changes no other frame; a miss takes the victim of the clock rule; hits and misses are counted exactly; the logical pages stay, whatever is evicted; when and how it fails |
| `BufferPools.BufferPool.Allocate` | src/buffer_pool.cpp:70-77 | adds one empty page to the logical pages and pins it |
| `BufferPools.BufferPool.Unpin` | src/buffer_pool.cpp:129-132 | one pin less, nothing else |
| `BufferPools.BufferPool.MutablePage` | src/buffer_pool.cpp:28-32 | marks the frame dirty and hands out its content |
| `BufferPools.BufferPool.StorePage` | src/buffer_pool.cpp:134-140 | the changed content is the logical page from then on; no other page changes |
| `BufferPools.BufferPool.Flush` | src/buffer_pool.cpp:79-84 | afterwards the stored page is the logical page |
| `BufferPools.BufferPool.FlushAll` | src/buffer_pool.cpp:86-89 | afterwards the file holds every logical page |
| `BufferPools.LogicalFlushed` | src/buffer_pool.cpp:107-113 | writing a frame back does not change the logical pages |
| `BufferPools.LogicalInstalled` | src/buffer_pool.cpp:115-127 | replacing a clean frame by a stored page does not change the logical pages |
| `BufferPools.LogicalCommitted` | src/buffer_pool.cpp:134-140 | changing a resident page changes exactly that logical page |
| `BufferPools.CleanIsStored` | src/buffer_pool.cpp:86-89 | if all frames are clean, the file holds the logical pages |
| `Stores.NewPageOnlyIfNoneFits` | src/record_store.cpp:39-57 | a new page is allocated exactly when no existing page has room for the record |
| `Stores.ProbesFromHint` | src/record_store.cpp:39-57 | probing begins at the hint, or at page 0 if there is no such page: no page between start and target, with wrap-around, has room |
| `Stores.PlacedRecord` | src/record_store.cpp:39-57 | the slot so determined is new to the store, and writing it adds this record only |
| `Stores.RestIsListing` | src/record_store.cpp:18-31 | what a cursor has left at the start is every live record once, in order |
| `Stores.ListingUnique` | src/record_store.cpp:80-85 | a store has one listing only |
| `RecordStores.RecordStore.Insert` | src/record_store.cpp:33-58 | succeeds exactly for records that fit an empty page; the page taken is the first one with room from the hint to the end and then from page 0, or a new one if there is none, and becomes the hint; that id was not in use, and all other records stay |
| `RecordStores.RecordStore.Read` | src/record_store.cpp:60-63 | the bytes of a live record; otherwise out of range |
| `RecordStores.RecordStore.Replace` | src/record_store.cpp:65-69 | new bytes under the same id or no change; never fails for the same length |
| `RecordStores.RecordStore.Erase` | src/record_store.cpp:71-76 | true exactly for a live record, which is removed; nothing else changes |
| `RecordStores.RecordStore.Scan` | src/record_store.cpp:80-85 | every live record, once, by page and slot |
| `RecordStores.RecordCursor.Next` | src/record_store.cpp:18-31 | delivers the next record of the listing; no page stays pinned |
| `RecordStores.RecordStore.constructor` | src/record_store.cpp:8-10 | a store over any pool with an unpinned frame holds exactly the records of its pages; the first insertion probes from the last page |
| `BPlusNodes.EncodeHeader` | src/bplus_tree.cpp:118-131 | the bytes represent the header; other heights than one and two are refused |
| `BPlusNodes.DecodeHeader` | src/bplus_tree.cpp:133-147 | accepts exactly the bytes that represent a header, and finds it |
| `BPlusNodes.EncodeLeaf` | src/bplus_tree.cpp:149-172 | the bytes represent the leaf; a leaf that is too long or out of order is refused |
| `BPlusNodes.DecodeLeaf` | src/bplus_tree.cpp:174-207 | accepts exactly the bytes that represent a leaf, padding included, and finds it |
| `BPlusNodes.EncodeInternal` | src/bplus_tree.cpp:213-235 | the bytes list the children; wrong counts and wrong order are refused; the bytes decode exactly if no child is shared |
| `BPlusNodes.DecodeInternal` | src/bplus_tree.cpp:237-275 | accepts exactly the bytes that represent an internal node, and finds its children |
| `BPlusNodes.LeafUnique` | src/bplus_tree.cpp:174-207 | bytes represent one leaf only |
| `BPlusNodes.InternalUnique` | src/bplus_tree.cpp:237-275 | bytes represent one list of children only |
| `BPlusNodes.KindsDisjoint` | src/bplus_tree.cpp:96-98 | no bytes represent two kinds of node |
| `Layouts.HeaderLayout` | src/bplus_tree.cpp:118-147 | a header record byte by byte: magic, version, height, the two ids, zeros between |
| `Layouts.LeafLayout` | src/bplus_tree.cpp:149-207 | a leaf record byte by byte: link or all ones, count, key in two's complement and row id of each entry, zeros behind |
| `Layouts.InternalLayout` | src/bplus_tree.cpp:213-275 | an internal record byte by byte: count, high entry and id of each child, zeros behind |
| `BPlusTrees.RouteSplits` | src/bplus_tree.cpp:328-335 | all leaves before the routed one hold smaller entries only, all behind it larger ones only |
| `BPlusTrees.RoutedMembership` | src/bplus_tree.cpp:328-335 | an entry is in the tree exactly when it is in the leaf it is routed to |
| `BPlusTrees.InsertRefinesSet` | src/bplus_tree.cpp:386-438 | insertion adds exactly the entry to the set and keeps the whole structure, in place, by split or by promotion; what is rejected and what is present |
| `BPlusTrees.EraseRefinesSet` | src/bplus_tree.cpp:440-503 | removal takes exactly the entry from the set and keeps the whole structure, with unlinking and collapse |
| `BPlusTrees.NodeConservation` | src/bplus_tree.cpp:382-384 | a tree owns its header, its leaves and, at height two, one root; without entries its height is one |
| `BPlusTreeLaws.ReachableTrees` | src/bplus_tree.cpp:386-503 | in every tree that any run of insertions and removals reaches, all invariants hold, the node count is conserved and there are at most 128 * 128 entries |
| `BPlusTreeLaws.RootFullNeedsEntries` | src/bplus_tree.cpp:410-412 | if all leaves are at least half full, a root-full rejection needs 127 * 64 + 128 entries |
| `BPlusTreeLaws.InsertOnlyCapacity` | src/bplus_tree.cpp:401-437 | in a run of insertions only, the root is not reported full below 8256 entries, and the rejected insertion changes nothing |
| `BPlusTreeLaws.EraseThenInsert` | src/bplus_tree.cpp:455-462 | an entry just erased is refused by a new insertion exactly when RestoreBlocked describes the tree before |
| `BPlusTreeLaws.RestoreRejected` | src/bplus_tree.cpp:455-462 | the same as a condition on the tree; it never holds while the root has fewer than 128 children |
| `TreeShapes.GrownSame` | src/bplus_tree.cpp:386-438 | whatever record ids are handed out, insertion makes of the leaves what the id-free reference makes of them |
| `TreeShapes.FilledPrefix` | src/bplus_tree.cpp:410-412 | once an insertion met a full root, adding all entries in this order is not possible |
| `AscendingTrees.AscendingFill` | src/bplus_tree.cpp:401-437 | entries in ascending order fit a tree exactly up to 8256 of them, so that the bound below which every order fits is attained |
| `AscendingTrees.AscendStep` | src/bplus_tree.cpp:386-438 | the next entry in ascending order is taken, in place or by a split that leaves half a leaf behind |
| `AscendingTrees.AscendedBlocked` | src/bplus_tree.cpp:455-462 | in a tree filled with 8256 entries in ascending order, the greatest entry of the last leaf but one is one that RestoreBlocked describes |
| `AscendingTrees.RestoreCanFail` | src/bplus_tree.cpp:455-462 | a run of 8256 insertions into an empty tree after which an entry can be erased but not be put back |
| `BPlusStorage.StoredUnique` | src/bplus_tree.cpp:369-380 | the records under a header determine the tree |
| `BPlusStorage.LoadedIsTree` | src/bplus_tree.cpp:306-326 | a chain that was followed to its end, with root and header as the validator demands, is a stored well-formed tree |
| `BPlusStorage.LoadedIsPrefix` | src/bplus_tree.cpp:281-304 | following links from the first leaf meets the leaves of the stored tree in order |
| `BPlusStorage.StoredFrame` | src/bplus_tree.cpp:386-503 | a tree stays stored as long as its own records do |
| `BPlusTreeIndexes.LoadChain` | src/bplus_tree.cpp:281-304 | ends on every store, cyclic links included; succeeds on the chain of every stored tree |
| `BPlusTreeIndexes.ValidateTree` | src/bplus_tree.cpp:306-326 | accepts a header exactly when a well-formed tree with this root, first leaf and height is stored |
| `BPlusTreeIndexes.SeparatorsMatch` | src/bplus_tree.cpp:317-324 | the loop compares ids and separators with all leaves |
| `BPlusTreeIndexes.BPlusTreeIndex.Create` | src/bplus_tree.cpp:362-367 | two new records that hold an empty tree; all other records stay |
| `BPlusTreeIndexes.BPlusTreeIndex.Open` | src/bplus_tree.cpp:369-380 | accepts a header id exactly when a tree is stored under it, and finds that tree; all failures are index corruption |
| `BPlusTreeIndexes.BPlusTreeIndex.LeafCount` | src/bplus_tree.cpp:382-384 | the number of leaves; with the height, the number of records owned |
| `BPlusTreeIndexes.BPlusTreeIndex.Locate` | src/bplus_tree.cpp:386-397 | loads the leaf to which an entry is routed |
| `BPlusTreeIndexes.BPlusTreeIndex.Insert` | src/bplus_tree.cpp:386-438 | the records afterwards store the tree with the entry added; the result says whether the set changed; the only failure is a full root over a full leaf, and then nothing was written; memory fields match the header record |
| `BPlusTreeIndexes.BPlusTreeIndex.Erase` | src/bplus_tree.cpp:440-503 | the records afterwards store the tree with the entry removed; the result says whether the set changed; none of the corruption errors can occur |
| `BPlusTreeIndexes.BPlusTreeIndex.Find` | src/bplus_tree.cpp:505-524 | exactly the ids under the key, in order, cut to the limit |
| `BPlusTreeIndexes.BPlusTreeIndex.Range` | src/bplus_tree.cpp:526-549 | exactly the entries within the bounds, in order, cut to the limit; crossed bounds are refused |
| `BPlusSearch.WithKeyExact` | src/bplus_tree.cpp:505-524 | the ids found are those paired with the key, ascending, each once, also when they span leaves |
| `BPlusSearch.BetweenExact` | src/bplus_tree.cpp:526-549 | the entries found are those within the bounds, in entry order |
| `BPlusSearch.RouteKeySkips` | src/bplus_tree.cpp:337-344 | leaves before the routed one have smaller keys only |
| `BPlusSearch.CollectKey` | src/bplus_tree.cpp:513-521 | the visitor of one leaf appends the ids under the key and says whether to go on |
| `BPlusSearch.CollectRange` | src/bplus_tree.cpp:538-547 | the visitor of one leaf appends the entries within bounds and says whether to go on |
| `TupleCodec.DecodeOfEncode` | src/tuple.cpp:80-182 | decoding an encoding of a valid tuple gives the tuple |
| `TupleCodec.EncodeOfDecode` | src/tuple.cpp:80-182 | bytes that decode are exactly the encoding of the result, bitmap padding included |
| `TupleCodec.Encode` | src/tuple.cpp:80-127 | the appending loop succeeds exactly for tuples that fit the schema, and produces the specified encoding |
| `TupleCodec.Decode` | src/tuple.cpp:129-182 | the loop over columns computes the specified decoding, failures included |
| `TupleCodec.BitmapUnique` | src/tuple.cpp:93-102 | a null bitmap is determined by the nulls |
| `TupleCodec.EncodingLayout` | src/tuple.cpp:80-102 | where magic, version, count, null bits and values are; bit i % 8 of byte i / 8 tells whether value i is null |
| `TupleCodec.PayloadConcat` | src/tuple.cpp:103-126 | values stand one behind the other in order |
| `TupleCodec.BitValues` | src/tuple.cpp:98-99 | bit k of a byte is worth two to the k |
| `Catalogs.Catalog.CreateTable` | src/catalog.cpp:263-271 | succeeds exactly for a creatable definition whose record fits a page; one record is added; otherwise nothing changes, and which error |
| `Catalogs.CreatableMeans` | src/catalog.cpp:263-271 | a definition can be created exactly if its names, version and column count are within bounds, its columns differ, and no table has its name, without regard to case |
| `Catalogs.SameNameMeans` | src/catalog.cpp:22-31 | names are the same byte for byte, up to the case of ASCII letters |
| `Catalogs.EncodeTable` | src/catalog.cpp:142-154 | appending field by field gives the specified record: 14 bytes, the name, and 4 bytes and the name for each column |
| `Catalogs.EncodeIndex` | src/catalog.cpp:204-216 | appending field by field gives the specified record: 22 bytes and the three names |
| `Catalogs.ColumnFieldsSize` | src/catalog.cpp:149-153 | how large the record of a table definition is at least |
| `Layouts.TableLayout` | src/catalog.cpp:142-154 | a table record byte by byte, its columns from first to last |
| `Layouts.ColumnLayout` | src/catalog.cpp:149-153 | a column: its name, the number of its type, and whether it is nullable |
| `Layouts.IndexLayout` | src/catalog.cpp:204-216 | an index record byte by byte |
| `Catalogs.Catalog.CheckIndex` | src/catalog.cpp:304-324 | the loop and the two searches accept exactly new names and headers and an integer column of a table |
| `Catalogs.RegistrableMeans` | src/catalog.cpp:304-324 | an index can be registered exactly if no other has its name or its tree, and there is a table with an integer column of the names given, which then are stored in their own spelling |
| `Catalogs.Catalog.RegisterIndex` | src/catalog.cpp:304-330 | succeeds exactly for a new name and a new header with a stored tree, an integer column of a table, and a definition whose record in stored spelling fits a page; one record is added; otherwise nothing changes, and which error |
| `Catalogs.NormalizedTarget` | src/catalog.cpp:236-259 | the stored spelling of table and column is found again |
| `TableRows.ParseOfWrap` | src/table_store.cpp:78-105 | an envelope is parsed to the name, version and payload it was made of |
| `TableRows.WrapOfParse` | src/table_store.cpp:78-105 | bytes that parse are exactly the envelope of the result |
| `Layouts.EnvelopeLayout` | src/table_store.cpp:78-92 | a row envelope byte by byte |
| `TableRows.RowOfWrap` | src/table_store.cpp:93-116 | a stored row is read back as the tuple it was made of, and by its own table only |
| `TableRows.NodesAreNotRows` | src/table_store.cpp:56-58 | no index node is taken for a row |
| `TableRows.ScannedExact` | src/table_store.cpp:231-236 | a scan is exactly the rows of the table, in id order |
| `TableStores.TableCursor.Next` | src/table_store.cpp:174-183 | delivers the next row of the table, skipping other records, and reports damaged rows |
| `TableStores.TableStore.constructor` | include/pageforge/table_store.hpp:43 | a store over a sound record store and its index trees; it is in step as far as the trees are, and without indexes always |
| `TableStores.TableStore.OpenIndexes` | src/table_store.cpp:123-142 | opens all indexes of the table in catalog order with the key of the row in each |
| `TableStores.TableStore.Insert` | src/table_store.cpp:191-216 | the row and exactly its entries are added, under the id that the record store picks; this happens exactly if the row fits schema and page and every index takes that entry; on any failure neither rows nor entries of any index change; in step stays in step |
| `TableStores.TableStore.AddEntries` | src/table_store.cpp:198-204 | lists the row in one index after the other, up to the first that refuses |
| `TableStores.TableStore.TakeBack` | src/table_store.cpp:203-213 | undoes the additions made so far: every index has its entries from before |
| `TableStores.TableStore.Read` | src/table_store.cpp:218-224 | the values of a row of this table, and each error |
| `TableStores.TableStore.Scan` | src/table_store.cpp:231-236 | all rows of the table in record order |
| `TableStores.TableStore.Erase` | src/table_store.cpp:334-369 | succeeds exactly if every index with a key for the row lists it, and then the row and exactly its entries are gone; otherwise the row stays, indexes from the first that misses it on are untouched, and those before it have their entry back unless RestoreBlocked describes their tree, which then lost it; in step it always succeeds |
| `TableStores.TableStore.RemoveEntries` | src/table_store.cpp:348-355 | takes the row out of one index after the other, up to the first that misses it |
| `TableStores.TableStore.PutBack` | src/table_store.cpp:356-363 | puts the removed entries back, as far as the trees accept them |
| `TableStores.TableStore.CreateIndex` | src/table_store.cpp:238-269 | the new index holds exactly the keys of the rows there are; wrong arguments; after them it fails exactly if the record of the definition does not fit a page or the keys in record order overfill a tree, for which there have to be 8256 of them, and then adds no index |
| `TableStores.TableStore.Backfill` | src/table_store.cpp:257-263 | a tree with exactly the keyed rows; fails exactly if the keys in record order overfill it |
| `TableStores.TableStore.ReadIndexRow` | src/table_store.cpp:144-167 | the row an entry points to, or table corruption if it is missing, foreign or has another key |
| `TableStores.TableStore.LookupIndex` | src/table_store.cpp:271-289 | in step: the scan filtered on the key, cut to the limit, same order |
| `TableStores.TableStore.LookupIndexRange` | src/table_store.cpp:291-332 | in step: the filtered scan stably sorted by key in either direction, ties in record order, cut to the limit |
| `TableStores.TableStore.ReadDescending` | src/table_store.cpp:318-331 | walks groups of equal keys from the end: key order reversed, record order kept |
| `TableStores.TableStore.Run` | src/table_store.cpp:191-369 | after any run of row insertions, row erasures and index creations every index is in step with its table |
| `IndexedTables.AddedAgrees` | src/table_store.cpp:191-216 | adding a row and its entries keeps all indexes in agreement |
| `IndexedTables.RemovedAgrees` | src/table_store.cpp:334-369 | removing a row and its entries keeps all indexes in agreement |
| `IndexedTables.UndoneExactly` | src/table_store.cpp:346-368 | a rejected erase leaves all entries as they were if and only if no index before the one that misses the row loses its entry |
| `IndexedTables.RestoredWithRoom` | src/table_store.cpp:346-368 | so it restores every index when the roots have fewer than 128 children |
| `IndexedTables.PutBackRestores` | src/table_store.cpp:357-363 | putting back one removed entry restores the set, or is refused exactly if RestoreBlocked |
| `LostEntries.LoseEntry` | src/table_store.cpp:334-369 | a run of public operations from an empty file: 8256 rows, two indexes in step with them, one entry taken out of the index listed second; erasing that row fails and keeps the row, but the index listed first, which had agreed with the table, has lost its entry |
| `LostEntries.ErasureLoses` | src/table_store.cpp:346-368 | on every database prepared like this the erasure of that row fails and loses exactly this entry |
| `LostEntries.IndexPairs` | src/bplus_tree.cpp:386-438 | an index filled by 8256 insertions in ascending order holds exactly these entries, in half-full leaves |
| `LostEntries.NumbersAgree` | src/table_store.cpp:123-142 | and it is in step with the rows |
| `IndexedTables.LookupIsFilter` | src/table_store.cpp:285-288 | the rows under a key are the filtered scan |
| `IndexedTables.RangeIsSort` | src/table_store.cpp:306-331 | rows of a range, in key order of either direction, are the filtered scan stably sorted |
| `IndexedTables.GroupsReversedDirected` | src/table_store.cpp:318-331 | reversing the groups of equal keys gives descending keys with ids ascending under each |
| `IndexedTables.ForestStep` | src/table_store.cpp:198-213 | changing one index tree leaves all other trees and all rows alone |
| `Queries.ScanOperator.Next` | src/query.cpp:11-18 | delivers the next row of the scan |
| `Queries.RowsOperator.Next` | src/query.cpp:20-32 | delivers the next listed row |
| `Queries.FilterOperator.Next` | src/query.cpp:34-49 | delivers the next pending row that the predicate accepts: pending is the filtered input |
| `Queries.ProjectOperator.Next` | src/query.cpp:51-69 | value k of the row delivered is the value of the input row in the k-th listed column; the id stays |
| `Queries.SortOperator.Next` | src/query.cpp:71-95 | pending is the stably sorted input, loaded on the first call |
| `Queries.SortOperator.Load` | src/query.cpp:84-89 | takes in the whole input and sorts it stably |
| `Queries.LimitOperator.Next` | src/query.cpp:97-113 | pending is the first rows of the input |
| `Queries.RowOperator.Next` | src/query.cpp:159 | any composition delivers its pending rows one by one and changes no record |
| `Queries.Query.From` | src/query.cpp:117-121 | pending is the scan of the table; unknown tables are out of range |
| `Queries.Query.FromRows` | src/query.cpp:123-130 | pending is the rows; a row of another width is refused |
| `Queries.Query.Filter` | src/query.cpp:132-136 | filters what is pending |
| `Queries.Query.Sort` | src/query.cpp:138-142 | stably sorts what is pending |
| `Queries.Query.Project` | src/query.cpp:144-152 | value k of every pending row is the value in the k-th listed column of the row pending before in its place, under the same id; a column outside is refused and nothing changes |
| `Queries.Query.Limit` | src/query.cpp:154-157 | cuts what is pending |
| `Queries.Query.All` | src/query.cpp:159 | asking until there is no more delivers exactly the pending rows |
| `Sequences.SortIsStable` | src/query.cpp:84-89 | the sort used in specifications is a stable sort: sorted, same elements, every class in its order |
| `Sequences.StableSortUnique` | src/query.cpp:84-89 | there is one stable sort only, so any correct implementation gives this one |
| `Sequences.FilterSort` | src/query.cpp:34-95 | filtering a sorted list is sorting the filtered list |
| `Sequences.SortBySecondThenFirst` | src/query.cpp:84-89 | two stable sorts in a row are one sort by both orderings |
| `Sequences.SortKeepsFirst` | src/query.cpp:84-113 | a sort leaves the first n elements alone exactly when nothing behind one of them is below it |
| `SqlPlans.ResolveTable` | src/sql_executor.cpp:25-34 | finds the table of that name without regard to case; unknown names fail, ambiguous ones cannot occur |
| `SqlPlans.ResolveColumn` | src/sql_executor.cpp:36-45 | finds the column of that name without regard to case |
| `SqlPlans.BindPredicate` | src/sql_executor.cpp:70-105 | binds exactly the predicates whose column is known and whose literal and comparison suit its type; what the bound predicate says of a row is spelled out for null tests, integers, text and booleans; it is false when value or literal is null |
| `SqlPlans.BindOrder` | src/sql_executor.cpp:107-133 | binds exactly the orderings whose column is known; what stands before what is spelled out for nulls, integers, text and booleans in both directions |
| `SqlPlans.TextTotal` | src/sql_executor.cpp:57-68 | text is totally ordered |
| `SqlPlans.TextLessMeans` | src/sql_executor.cpp:57-68 | one text is below another exactly if it is a proper prefix of it or has the smaller byte where they first differ |
| `SqlPlans.ComparisonLaws` | src/sql_executor.cpp:57-68 | on values of one type the six comparisons are those of one total order |
| `SqlPlans.SortedByColumn` | src/sql_executor.cpp:111-132 | after a sort by a column nulls come last in both directions, and the values before them rise or fall as asked |
| `SqlPlans.RowBeforeWeak` | src/sql_executor.cpp:111-132 | ORDER BY comparators are strict weak orderings on rows of the schema, nulls last in both directions |
| `SqlPlans.IntegerOrder` | src/sql_executor.cpp:111-132 | ordering by an integer column is ordering by index key, nulls included |
| `IndexChoices.Bound` | src/sql_executor.cpp:211-223 | the inclusive bound stays within 64 bits and admits exactly the keys that the comparison admits, unless it is impossible |
| `IndexChoices.Tighten` | src/sql_executor.cpp:234-258 | merging one more comparison: the range admits exactly the keys that meet all, is marked empty exactly if there is none, and otherwise lower <= upper |
| `IndexChoices.MergeRanges` | src/sql_executor.cpp:204-260 | one exact range for each index with a comparison |
| `IndexChoices.CountLookup` | src/sql_executor.cpp:183-192 | the lookup admits exactly the keys that meet all predicates on its index; covered equals selected |
| `IndexChoices.CountLookups` | src/sql_executor.cpp:168-192 | one exact lookup for each index with an equality |
| `IndexChoices.MaxElement` | src/sql_executor.cpp:193-203 | the first candidate that no other exceeds |
| `IndexChoices.ChooseIndex` | src/sql_executor.cpp:147-276 | the access is a function of indexes, table and plan; there is one exactly when an index decides an equality or comparison; lookups before ranges; it is exact and the first of the best in a complete list of candidates in order of use, best being said in terms of emptiness, bounds, counts and columns |
| `IndexChoices.ChosenIsBest` | src/sql_executor.cpp:193-276 | the access taken is at least as good as any candidate: known to be empty, then among ranges with two bounds, then with more predicates, then on the ORDER BY column |
| `IndexChoices.ChosenIsPreferred` | src/sql_executor.cpp:193-276 | and no candidate before it is as good |
| `IndexChoices.CandidatesInOrder` | src/sql_executor.cpp:168-260 | candidates stand in the order in which the predicates first use their indexes |
| `IndexChoices.SelectedCounts` | src/sql_executor.cpp:183-192 | what an access counts are the predicates that its index decides |
| `IndexChoices.MatchingMeans` | src/sql_executor.cpp:151-166 | a predicate is decided by the first index of the catalog on its column, if it compares an integer column with an integer |
| `IndexChoices.CoveredAtMost` | src/sql_executor.cpp:377-401 | covered predicates never exceed the predicates of the plan, and equal them only if all are decided by the index |
| `SelectAnalyses.AnalyzeSelect` | src/sql_executor.cpp:290-340 | fails exactly on plans that cannot be bound; which access is taken for this plan and catalog, and that it is the best; when sorting is dropped, the scan reversed and the candidates limited |
| `PlanMeanings.BindableMeans` | src/sql_executor.cpp:25-105 | a plan can be bound exactly if there is a table of its name, every name in it is that of a column, and every literal can be compared with its column |
| `SelectAnswers.FoundIfQualified` | src/sql_executor.cpp:183-259 | a row that satisfies the plan is found through the index; if the access covers the plan, no other row is |
| `SelectAnswers.KeptAmongFound` | src/sql_executor.cpp:344-376 | filtering the rows found gives the rows of the plan in order; an empty access means there are none |
| `SelectAnswers.OrderByKey` | src/sql_executor.cpp:322-326 | sorting by the indexed column is sorting by key, as no null is found |
| `SelectAnswers.ShownCut` | src/sql_executor.cpp:331-335 | limiting the candidates first makes no difference to what is shown |
| `SelectAnswers.NoSortNeeded` | src/sql_executor.cpp:327-331 | a lookup on the ORDER BY column needs no sort |
| `SelectAnswers.LookupAnswer` | src/sql_executor.cpp:344-367 | a lookup plan, with residual predicates, elided sort and early limit, gives exactly the answer of the plan |
| `SelectAnswers.RangeAnswered` | src/sql_executor.cpp:344-370 | a range plan ordered by the indexed column gives exactly the answer of the plan, and otherwise the same computed from key order |
| `SqlExecutors.SupplyAnswers` | src/sql_executor.cpp:344-375 | the pipeline of any analyzed plan delivers the answer that its access path stands for |
| `SqlExecutors.BindSelect` | src/sql_executor.cpp:344-375 | the access path and index named are the ones chosen for plan and catalog; the query returned will deliver the one answer that IsAnswer describes in terms of the values in the rows, with columns and types of the output schema; this is what scan, filter, stable sort, project and limit give if and only if AnsweredExactly holds of indexes, table, plan and rows; errors |
| `SqlExecutors.FetchRows` | src/sql_executor.cpp:354-366 | the rows with which an index plan starts |
| `SqlExecutors.AddFilters` | src/sql_executor.cpp:367 | filters put on one after the other keep exactly the rows that satisfy all predicates |
| `SqlExecutors.Finish` | src/sql_executor.cpp:367-370 | filter, sort if still needed, project, limit |
| `SqlExecutors.ExplainSelect` | src/sql_executor.cpp:377-402 | names the path and index that running the plan takes, and their keys; exactly when it reports a direction, which one, a sort, a limit on candidates and an empty result; an explained empty result is empty for every table content; explained keys contain all rows sought, and just these if no predicate is residual |
| `AnswerLaws.RangePermutes` | src/sql_executor.cpp:344-375 | every range plan delivers the first rows of a permutation of the qualifying rows, correctly sorted by the ORDER BY column |
| `AnswerLaws.AnswerExactWhen` | src/sql_executor.cpp:344-375 | what the database answers is what the plan means if and only if the plan does not run as a range, or is ordered by the indexed column, or no row among the first ones has a later one that ties with it and has a smaller key |
| `AnswerLaws.NoIndexNoRange` | src/sql_executor.cpp:147-166 | without an index on the table no plan runs as a range, so every answer is exact |
| `AnswerLaws.RangeExactWhen` | src/sql_executor.cpp:344-375 | a range plan answers exactly what it means if and only if it is ordered by the indexed column, or no row among the first ones has a later one that ties with it and has a smaller key |
| `AnswerLaws.RangeReorders` | src/sql_executor.cpp:344-375 | a table, an index and a plan without ORDER BY for which the planner takes the range and delivers rows in another order than the scan |
| `PlanMeanings.PassesMeans` | src/sql_executor.cpp:70-105 | a bound predicate accepts a row exactly if the value in the named column passes the test |
| `PlanMeanings.AboveMeans` | src/sql_executor.cpp:111-132 | a bound ordering puts one row before another exactly if the values in the named column say so |
| `PlanMeanings.PickedMeans` | src/sql_executor.cpp:344-375 | rows that meet the plan, in order, none left out before the limit: this describes the first of the qualifying rows |
| `PlanMeanings.ReferenceMeans` | src/sql_executor.cpp:344-375 | what scan, filter, stable sort, project and limit give is the only answer described, ties in record order |
| `PlanMeanings.RangeMeans` | src/sql_executor.cpp:344-375 | what a range gives that is not ordered by its column is the only answer described with ties broken by key first |
| `PlanMeanings.DatabaseMeans` | src/sql_executor.cpp:344-375 | what the database answers is the only answer described, with ties broken by key exactly if it runs a range that is not ordered by its column |
| `PlanMeanings.AnswerFits` | src/sql_executor.cpp:310-321 | every row of an answer has as many values as the output schema has columns, each of its type |

## Left out

- Stream I/O, the file header and length checks of src/heap_file.cpp: the file is a sequence of page images with read, write and allocate. Crashes and durability are not promised by the engine.
- Reading the catalog back (src/catalog.cpp:172-202, 218-234, 273-302, 332-373): definitions are encoded and stored as records, and beside them the catalog is kept as two lists; a reader's checks and what only a damaged catalog could hold do not arise.
- The order of these lists is that of registration. The code lists definitions in record order (src/catalog.cpp:289-302, 353-373), which is the same until a definition is placed in an earlier page; then another of several equally good indexes may be chosen. What is proved about choice and answers holds for lists in any order.
- The SQL lexer and parser, and the dispatch between SELECT and EXPLAIN (src/sql_executor.cpp:404-414): plans are the starting point. EXPLAIN texts, the command line, benchmarks and tools are not part of this model.
- Overflow of page numbers: the engine never checks that a new page still has a 32-bit number, so operations that may allocate require room for the pages they could need. The room required is an upper bound.
- A reference kept from mutable_page across a flush: taking the page out, changing it and putting it back is one step (src/buffer_pool.cpp:28-32).
- Explicit moves of guards, cursors and queries, and the destructor of the pool with its best-effort flush.
- std::stable_sort, std::lower_bound and std::find_if are specification functions; for the sort it is proved that there is only one result it can have.
- The check for an empty std::function in Query::filter and Query::sort: functions in Dafny are never empty.
- Queries.RowOperator.Next: requires that the rows still to be scanned decode, as they do in every store that TableStore keeps; a damaged row met in the middle of a query is modelled in TableStores.TableCursor.Next only.
- Queries.Query.Filter: predicates are total functions on rows; rows have the width of their schema, so that no column is ever missing.
- TableStores.TableStore.Erase: the two branches behind records_.erase (src/table_store.cpp:355, 365-368) cannot be reached after the row was read and are not modelled.
- Catalogs.Catalog.RegisterIndex: accepts if the conditions hold and a tree is stored under the header; that no other index shares nodes with that tree is not checked by the engine either.
