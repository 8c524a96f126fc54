/** A database on which an erasure that cannot be completed loses an entry of an index, reached by the public operations. */
module LostEntries {
  import opened Wrappers
  import opened Bytes
  import opened Sequences
  import opened PageFormat
  import opened HeapFiles
  import opened BufferPools
  import opened PageGuards
  import opened Stores
  import opened RecordStores
  import opened BPlusNodes
  import opened BPlusTrees
  import opened BPlusTreeLaws
  import opened BPlusStorage
  import opened BPlusTreeIndexes
  import opened Tuples
  import opened TupleCodec
  import opened Catalogs
  import opened TableRows
  import opened IndexedTables
  import opened TableStores
  import opened AscendingTrees

  const A: Text := [97]
  const B: Text := [98]
  const PAIRS := TableDefinition([112], [Column(A, Integer, false), Column(B, Integer, false)], 1)

  /** The row whose entry gets lost: its key is the greatest of the last leaf but one. */
  const LOST := SURE_CAPACITY - LEAF_CAPACITY - 1

  function Pair(i: nat): Tuple
    requires i <= SURE_CAPACITY
  {
    [IntValue(i), IntValue(i)]
  }

  /** The rows are (0, 0), (1, 1) and so on, under these ids. */
  ghost predicate HasPairs(rows: RowMap, ids: seq<RecordId>) {
    && |ids| <= SURE_CAPACITY
    && (forall id :: id in rows <==> id in ids)
    && forall i :: 0 <= i < |ids| ==> ids[i] in rows && rows[ids[i]] == Pair(i)
  }

  /** The entries of these rows in an index on either column. */
  function Numbered(ids: seq<RecordId>): (es: seq<Entry>)
    requires |ids| <= SURE_CAPACITY
    ensures |es| == |ids| && forall i :: 0 <= i < |es| ==> es[i] == Entry(i, ids[i])
  {
    seq(|ids|, i requires 0 <= i < |ids| => Entry(i, ids[i]))
  }

  // ---------------------------------------------------------------- the table

  lemma PairsTable()
    ensures ValidTable(PAIRS) && |TableRecord(PAIRS)| <= MAX_RECORD_BYTES && TablesOk([PAIRS]) && Creatable([], PAIRS)
    ensures FindFirst(TableLike(PAIRS.name), [PAIRS]) == Some(0)
    ensures forall i: nat :: i <= SURE_CAPACITY ==> ValidTuple(PAIRS.schema, Pair(i))
  {
    assert Folded(A)[0] == 97 && Folded(B)[0] == 98;
    PairsRecord();
    hide TableRecord, Folded, ColumnFields;
    TableFound([PAIRS], 0);
  }

  lemma PairsRecord()
    ensures |TableRecord(PAIRS)| <= MAX_RECORD_BYTES
  {
    var s := PAIRS.schema;
    assert s[..2][..1] == s[..1] && s[..1][..0] == [];
    assert |ColumnFields(s[..0])| == 0;
    assert |ColumnFields(s[..1])| == 5;
    assert |ColumnFields(s)| == 10;
    hide ColumnFields;
  }

  lemma PairFits(i: nat)
    requires i <= SURE_CAPACITY
    ensures |WrapRow(PAIRS, EncodeTuple(Pair(i)))| <= MAX_RECORD_BYTES
  {
    var t := Pair(i);
    hide LE, Bitmap;
    assert t[1..][1..] == [];
    assert |EncodeValue(t[0])| == 8 && |EncodeValue(t[1])| == 8;
    assert |Payload(t[1..][1..])| == 0;
    assert |Payload(t[1..])| == 8;
    WrapFields(PAIRS.name, PAIRS.version, EncodeTuple(t));
  }

  /** Without indexes, a pair can always be inserted. */
  lemma PairAcceptable(i: nat)
    requires i <= SURE_CAPACITY
    ensures Acceptable([PAIRS], [], [], PAIRS.name, Pair(i))
  {
    hide WrapRow, EncodeTuple, ValidTuple, TablesOk, ValidTable, TableLike, FindFirst;
    PairsTable();
    PairFits(i);
  }

  lemma NoIndexAgrees(m: Store)
    ensures IndexesOk([PAIRS], []) && Agreeing([PAIRS], [], [], m)
  {
  }

  lemma OnePairMore(rows: RowMap, ids: seq<RecordId>, id: RecordId, rows': RowMap)
    requires HasPairs(rows, ids) && id !in rows && |ids| < SURE_CAPACITY && rows' == rows[id := Pair(|ids|)]
    ensures HasPairs(rows', ids + [id])
  {
  }

  /** Inserts 8256 rows. */
  method FillTable(db: TableStore) returns (ids: seq<RecordId>)
    requires db.Valid() && db.catalog.tables == [PAIRS] && db.catalog.indexes == []
    requires Rows(PAIRS, db.records.Contents()) == map[] && |db.records.Slots()| <= 1
    modifies db`trees, db.records, db.records.pool, db.records.pool.heap
    ensures db.Valid() && |db.records.Slots()| <= 1 + SURE_CAPACITY
    ensures |ids| == SURE_CAPACITY && HasPairs(Rows(PAIRS, db.records.Contents()), ids)
  {
    hide Forest, RowsOk, RecordStore.Contents, PoolSlots, TableOk, HasUnpinned, Rows, EntrySet, SameRows, TablesOk,
         Agreeing, Insertable, Acceptable, ValidTuple, Pair, EncodeTuple, WrapRow, PlaceFor, FindFirst, EntriesAdded,
         RowTuple, BufferPool.Valid;
    PairsTable();
    ids := [];
    while |ids| < SURE_CAPACITY
      invariant db.Valid() && |db.records.Slots()| <= 1 + |ids| && |ids| <= SURE_CAPACITY
      invariant HasPairs(Rows(PAIRS, db.records.Contents()), ids)
      decreases SURE_CAPACITY - |ids|
    {
      ghost var m := db.records.Contents();
      PairAcceptable(|ids|);
      NoIndexAgrees(m);
      assert db.trees == [];
      var id := db.Insert(PAIRS.name, Pair(|ids|));
      OnePairMore(Rows(PAIRS, m), ids, id.value, Rows(PAIRS, db.records.Contents()));
      ids := ids + [id.value];
    }
  }

  // ---------------------------------------------------------------- an index on either column

  lemma NumberedMore(ids: seq<RecordId>, k: nat)
    requires k < |ids| <= SURE_CAPACITY
    ensures Numbered(ids[..k + 1]) == Numbered(ids[..k]) + [Entry(k, ids[k])]
    ensures forall x :: x in Numbered(ids[..k]) ==> EntryLess(x, Entry(k, ids[k]))
  {
  }

  /** The next entry is taken, and the tree keeps its shape. */
  lemma NextNumber(t: Tree, ids: seq<RecordId>, k: nat, t': Tree)
    requires k < |ids| <= SURE_CAPACITY && Ascended(t, Numbered(ids[..k])) && IdFits(ids[k])
    ensures var e := Entry(k, ids[k]);
      && WellFormed(t) && !Rejects(t, e) && e !in EntrySet(t)
      && (InsertedBy(t, e, t') ==> Ascended(t', Numbered(ids[..k + 1])) && EntrySet(t') == EntrySet(t) + {e})
  {
    hide Ascended, EntrySet, Rejects, WellFormed, Numbered, InsertInto, EntryLess, Splits;
    var e := Entry(k, ids[k]);
    NumberedMore(ids, k);
    AscendTakes(t, Numbered(ids[..k]), e);
    if InsertedBy(t, e, t') {
      var rightId, rootId :| InsertedByIds(t, e, rightId, rootId, t');
      AscendStep(t, Numbered(ids[..k]), e, rightId, rootId);
    }
  }

  /** The set of the entries of the first k rows. */
  ghost predicate HoldsNumbers(t: Tree, ids: seq<RecordId>) {
    && |ids| <= SURE_CAPACITY && Ascended(t, Numbered(ids))
    && forall e :: e in EntrySet(t) <==> e in Numbered(ids)
  }

  lemma NextHeld(t: Tree, ids: seq<RecordId>, k: nat, t': Tree)
    requires k < |ids| <= SURE_CAPACITY && HoldsNumbers(t, ids[..k]) && IdFits(ids[k]) && WellFormed(t)
    requires InsertedBy(t, Entry(k, ids[k]), t')
    ensures HoldsNumbers(t', ids[..k + 1])
  {
    hide Ascended, EntrySet, WellFormed, InsertedBy, Numbered;
    NextNumber(t, ids, k, t');
    NumberedMore(ids, k);
  }

  lemma NoneHeld(t: Tree, ids: seq<RecordId>)
    requires WellFormed(t) && t == EmptyTree(t.header, t.root) && EntrySet(t) == {}
    ensures HoldsNumbers(t, ids[..0])
  {
    hide EntrySet;
    assert t.header != t.root && LinkFits(t.header) && LinkFits(t.root);
    EmptyAscended(t.header, t.root);
    assert Numbered(ids[..0]) == [];
  }

  /** An index with an entry for every row, filled in ascending order. */
  method IndexPairs(records: RecordStore, ids: seq<RecordId>, ghost trees: seq<Tree>) returns (index: BPlusTreeIndex)
    requires records.Ready() && |records.Slots()| + 2 + 2 * SURE_CAPACITY <= MAX_PAGES
    requires |ids| == SURE_CAPACITY && forall i :: 0 <= i < |ids| ==> IdFits(ids[i])
    requires Forest(records.Contents(), trees)
    modifies records, records.pool, records.pool.heap
    ensures fresh(index) && index.records == records && index.Valid() && HoldsNumbers(index.tree, ids)
    ensures Forest(records.Contents(), trees + [index.tree]) && SameRows(old(records.Contents()), records.Contents())
    ensures index.headerId !in old(records.Contents())
    ensures |records.Slots()| <= |old(records.Slots())| + 2 + 2 * SURE_CAPACITY
  {
    hide Forest, RecordStore.Contents, PoolSlots, TableOk, HasUnpinned, SameRows, EntrySet, WellFormed, Stored,
         OutsideKept, InsertedBy, Rejects, HalfFull, Ascended, Numbered, HoldsNumbers, BufferPool.Valid;
    ghost var m := records.Contents();
    index := BPlusTreeIndex.Create(records);
    CreatedForest(m, records.Contents(), trees, index.tree);
    NoneHeld(index.tree, ids);
    ghost var h := index.headerId;
    for k := 0 to SURE_CAPACITY
      invariant fresh(index) && index.records == records && index.headerId == h && index.Valid()
      invariant Forest(records.Contents(), trees + [index.tree]) && SameRows(m, records.Contents())
      invariant HoldsNumbers(index.tree, ids[..k])
      invariant |records.Slots()| <= |old(records.Slots())| + 2 + 2 * k
    {
      ghost var m1, t := records.Contents(), index.tree;
      HeldAscends(t, ids, k);
      var inserted := index.Insert(k, ids[k]);
      assert inserted.Ok? && !inserted.value ==> inserted == Ok(false);
      assert inserted.Ok? && inserted.value ==> inserted == Ok(true);
      BackfillStep(m1, records.Contents(), trees, t, index.tree);
      SameRowsTrans(m, m1, records.Contents());
      NextHeld(t, ids, k, index.tree);
    }
    assert ids[..SURE_CAPACITY] == ids;
  }

  lemma NoTrees(m: Store)
    ensures Forest(m, [])
  {
  }

  lemma HeldAscends(t: Tree, ids: seq<RecordId>, k: nat)
    requires k < |ids| <= SURE_CAPACITY && HoldsNumbers(t, ids[..k]) && IdFits(ids[k])
    ensures WellFormed(t) && !Rejects(t, Entry(k, ids[k])) && Entry(k, ids[k]) !in EntrySet(t)
  {
    hide Ascended, EntrySet, WellFormed, Numbered, Rejects;
    NextNumber(t, ids, k, t);
  }

  // ---------------------------------------------------------------- the database

  /** A database that has the table. */
  method CreateDatabase() returns (records: RecordStore, catalog: Catalog)
    ensures fresh(records) && fresh(records.pool) && fresh(records.pool.heap) && fresh(catalog)
    ensures records.Ready() && |records.Slots()| <= 1 && catalog.records == records && catalog.Valid()
    ensures catalog.tables == [PAIRS] && catalog.indexes == []
    ensures RowsOk([PAIRS], records.Contents()) && Rows(PAIRS, records.Contents()) == map[]
  {
    hide TableOk, PoolSlots, RecordStore.Contents, TableRecord, TablesOk, RowsOk, Rows, HasUnpinned, RowTuple,
         BufferPool.Valid;
    var heap := new HeapFile();
    var pool := new BufferPool(heap, 1);
    EmptyPool(pool);
    records := new RecordStore(pool);
    catalog := new Catalog(records);
    PairsTable();
    ghost var m := records.Contents();
    var created := catalog.CreateTable(PAIRS);
    OnlyDefinition(m, records.Contents(), created.value);
  }

  lemma EmptyPool(pool: BufferPool)
    requires pool.Valid() && Available(pool.frames) && pool.heap.pages == []
    ensures HasUnpinned(pool.frames) && PoolSlots(pool) == [] && StoreOf(PoolSlots(pool)) == map[]
  {
    hide ValidImage, PageId;
    var i :| 0 <= i < |pool.frames| && Evictable(pool.frames[i]);
    assert FrameOk(pool.frames, pool.pageTable, pool.heap.pages, i);
  }

  lemma OnlyDefinition(m: Store, m': Store, id: RecordId)
    requires m == map[] && Added(m, m', id, TableRecord(PAIRS))
    ensures RowsOk([PAIRS], m') && Rows(PAIRS, m') == map[]
  {
    hide TableRecord, Parse, DecodeRow;
    assert TableRecord(PAIRS)[..4][2] != ROW_MAGIC[2];
    assert !HasMagic(TableRecord(PAIRS));
  }

  /** Registers a tree as an index on column c. */
  method RegisterOn(catalog: Catalog, name: Text, c: nat, index: BPlusTreeIndex, ghost m: Store, ghost trees: seq<Tree>)
    requires catalog.Valid() && catalog.tables == [PAIRS] && c < 2 && |name| == 1
    requires FindFirst(IndexLike(name), catalog.indexes) == None
    requires |trees| == |catalog.indexes| && forall i :: 0 <= i < |trees| ==> trees[i].header == catalog.indexes[i].headerId
    requires index.Valid() && index.records == catalog.records && |catalog.records.Slots()| < MAX_PAGES
    requires Forest(m, trees) && index.headerId !in m && Forest(catalog.records.Contents(), trees + [index.tree])
    modifies catalog`indexes, catalog.records, catalog.records.pool, catalog.records.pool.heap
    ensures catalog.Valid() && catalog.records.Ready() && |catalog.records.Slots()| <= |old(catalog.records.Slots())| + 1
    ensures catalog.indexes == old(catalog.indexes) + [IndexDefinition(name, PAIRS.name, PAIRS.schema[c].name, index.headerId)]
    ensures Forest(catalog.records.Contents(), trees + [index.tree])
    ensures SameRows(old(catalog.records.Contents()), catalog.records.Contents())
  {
    hide Forest, RecordStore.Contents, PoolSlots, TableOk, HasUnpinned, SameRows, WellFormed, Stored, Registrable,
         Normalized, HasTree, IndexLike, FindFirst, TablesOk, IndexesOk, IndexRecord, BufferPool.Valid;
    ghost var m1 := catalog.records.Contents();
    var definition := IndexDefinition(name, PAIRS.name, PAIRS.schema[c].name, index.headerId);
    PairsTable();
    DefinitionRegistrable([PAIRS], catalog.indexes, trees, m, definition, 0, c);
    TreeThere(m1, index.tree);
    var registered := catalog.RegisterIndex(definition);
    RecordBesides(m1, catalog.records.Contents(), registered.value, IndexRecord(definition), trees + [index.tree]);
  }

  lemma NumbersAgree(t: Tree, rows: RowMap, ids: seq<RecordId>)
    requires HoldsNumbers(t, ids) && HasPairs(rows, ids)
    ensures Agrees(t, rows, 0)
  {
    hide Ascended, EntrySet;
    forall e
      ensures e in Numbered(ids) <==> e.value in rows && KeyAt(rows[e.value], 0) == Some(e.key)
    {
      if e.value in rows {
        var i :| 0 <= i < |ids| && ids[i] == e.value;
        assert Numbered(ids)[i] == Entry(i, ids[i]);
      }
    }
  }

  /** An index on either column. */
  predicate TwoIndexes(indexes: seq<IndexDefinition>) {
    && |indexes| == 2 && IndexesOk([PAIRS], indexes)
    && indexes[0].table == indexes[1].table == PAIRS.name && indexes[0].column == A && indexes[1].column == B
  }

  lemma KeysOfPair(indexes: seq<IndexDefinition>, i: nat)
    requires TwoIndexes(indexes) && i <= SURE_CAPACITY
    ensures IndexesOk([PAIRS], indexes) && KeysOf([PAIRS], indexes, PAIRS.name, Pair(i)) == [Some(i), Some(i)]
  {
    hide SameName;
    forall k | 0 <= k < 2
      ensures KeyFor([PAIRS], indexes[k], PAIRS.name, Pair(i)) == Some(i)
    {
      assert TargetOk([PAIRS], indexes[k]);
    }
  }

  lemma SecondMisses(was: seq<Tree>, keys: seq<Option<int64>>, id: RecordId)
    requires |was| == |keys| == 2 && keys[1].Some? && Entry(keys[1].value, id) !in EntrySet(was[1])
    ensures !ListedEverywhere(was, keys, id)
  {
    hide EntrySet;
    assert Misses(was, keys, id, 1);
  }

  /** If the second of two indexes misses the row, undoing works on the first one only, which may lose the entry. */
  lemma UndoneFirst(was: seq<Tree>, now: seq<Tree>, keys: seq<Option<int64>>, id: RecordId, e: Entry)
    requires |was| == 2 && keys == [Some(e.key), Some(e.key)] && e.value == id
    requires e in EntrySet(was[0]) && WellFormed(was[0]) && RestoreBlocked(was[0], e)
    requires exists k :: FirstMissing(was, keys, id, k) && UndoneBefore(was, now, keys, id, k)
    ensures |now| == 2 && EntrySet(now[0]) == EntrySet(was[0]) - {e}
  {
    hide EntrySet, RestoreBlocked, WellFormed;
    var k :| FirstMissing(was, keys, id, k) && UndoneBefore(was, now, keys, id, k);
    assert PutBackTree(was[0], now[0], keys[0], id);
  }

  lemma LostRow(rows: RowMap, ids: seq<RecordId>)
    requires HasPairs(rows, ids) && |ids| == SURE_CAPACITY
    ensures ids[LOST] in rows && rows[ids[LOST]] == Pair(LOST) && KeyAt(rows[ids[LOST]], 0) == Some(LOST)
  {
  }

  lemma UnlistedOutcome(indexes: seq<IndexDefinition>, was: seq<Tree>, now: seq<Tree>, m: Store, m': Store,
                        id: RecordId, r: Result<bool>, keys: seq<Option<int64>>)
    requires EraseOutcome([PAIRS], indexes, was, now, m, m', PAIRS, id, r)
    requires keys == KeysOf([PAIRS], indexes, PAIRS.name, Rows(PAIRS, m)[id]) && !ListedEverywhere(was, keys, id)
    ensures r == Err(TableCorruption) && SameRows(m, m')
    ensures exists k :: FirstMissing(was, keys, id, k) && UndoneBefore(was, now, keys, id, k)
  {
    hide IndexesOk, KeysOf, SameRows, Rows, FirstMissing, UndoneBefore, ListedEverywhere, EntriesRemoved, RowTuple;
  }

  /** Of two trees, the first one has lost this entry and nothing else. */
  ghost predicate LostFrom(was: seq<Tree>, now: seq<Tree>, e: Entry) {
    |was| == |now| == 2 && e in EntrySet(was[0]) && EntrySet(now[0]) == EntrySet(was[0]) - {e}
  }

  /** The second index misses the row, and the first cannot take its entry back. */
  lemma ErasureLoses(indexes: seq<IndexDefinition>, was: seq<Tree>, now: seq<Tree>, m: Store, m': Store,
                     ids: seq<RecordId>, id: RecordId, r: Result<bool>)
    requires |ids| == SURE_CAPACITY && id == ids[LOST]
    requires TwoIndexes(indexes) && Prepared(was, Rows(PAIRS, m), ids)
    requires EraseOutcome([PAIRS], indexes, was, now, m, m', PAIRS, id, r)
    ensures r == Err(TableCorruption) && SameRows(m, m') && LostFrom(was, now, Entry(LOST, id))
  {
    hide EraseOutcome, EntrySet, RestoreBlocked, WellFormed, TwoIndexes, SameRows, Rows, FirstMissing, UndoneBefore,
         ListedEverywhere, Pair, HoldsNumbers, HasPairs, KeyAt, KeysOf, RowTuple, IndexesOk, Prepared;
    PreparedTrees(was, Rows(PAIRS, m), ids);
    LostRow(Rows(PAIRS, m), ids);
    KeysOfPair(indexes, LOST);
    LostIsBlocked(was[0], ids);
    var keys := KeysOf([PAIRS], indexes, PAIRS.name, Pair(LOST));
    SecondMisses(was, keys, id);
    UnlistedOutcome(indexes, was, now, m, m', id, r, keys);
    UndoneFirst(was, now, keys, id, Entry(LOST, id));
  }

  lemma PreparedTrees(trees: seq<Tree>, rows: RowMap, ids: seq<RecordId>)
    requires Prepared(trees, rows, ids)
    ensures |trees| == 2 && |ids| == SURE_CAPACITY && HasPairs(rows, ids) && HoldsNumbers(trees[0], ids)
    ensures Entry(LOST, ids[LOST]) !in EntrySet(trees[1])
  {
    hide EntrySet, HasPairs, HoldsNumbers;
  }

  lemma LostIsBlocked(t: Tree, ids: seq<RecordId>)
    requires HoldsNumbers(t, ids) && |ids| == SURE_CAPACITY
    ensures var e := Entry(LOST, ids[LOST]);
      e in EntrySet(t) && WellFormed(t) && RestoreBlocked(t, e)
  {
    hide EntrySet, Ascended, RestoreBlocked, WellFormed;
    AscendedWellFormed(t, Numbered(ids));
    AscendedBlocked(t, Numbered(ids));
  }

  lemma NewName(index: IndexDefinition)
    requires index.name == [105]
    ensures FindFirst(IndexLike([106]), [index]) == None
  {
    assert Folded([105])[0] == 105 && Folded([106])[0] == 106;
  }

  /** Fills an index on column c and registers it. */
  method AddIndex(catalog: Catalog, name: Text, c: nat, ids: seq<RecordId>, ghost trees: seq<Tree>) returns (ghost t: Tree)
    requires catalog.Valid() && catalog.tables == [PAIRS] && catalog.records.Ready() && c < 2 && |name| == 1
    requires FindFirst(IndexLike(name), catalog.indexes) == None
    requires |trees| == |catalog.indexes| && forall i :: 0 <= i < |trees| ==> trees[i].header == catalog.indexes[i].headerId
    requires |catalog.records.Slots()| + 3 + 2 * SURE_CAPACITY <= MAX_PAGES && Forest(catalog.records.Contents(), trees)
    requires |ids| == SURE_CAPACITY && HasPairs(Rows(PAIRS, catalog.records.Contents()), ids)
    modifies catalog`indexes, catalog.records, catalog.records.pool, catalog.records.pool.heap
    ensures catalog.Valid() && catalog.records.Ready()
    ensures |catalog.records.Slots()| <= |old(catalog.records.Slots())| + 3 + 2 * SURE_CAPACITY
    ensures catalog.indexes == old(catalog.indexes) + [IndexDefinition(name, PAIRS.name, PAIRS.schema[c].name, t.header)]
    ensures HoldsNumbers(t, ids) && Forest(catalog.records.Contents(), trees + [t])
    ensures SameRows(old(catalog.records.Contents()), catalog.records.Contents())
  {
    hide Forest, RowsOk, RecordStore.Contents, PoolSlots, TableOk, HasUnpinned, Rows, EntrySet, SameRows, TablesOk,
         IndexesOk, HoldsNumbers, HasPairs, WellFormed, Stored, IndexLike, FindFirst, RowTuple, BufferPool.Valid;
    ghost var m := catalog.records.Contents();
    LiveIdsFit(catalog.records);
    PairIds(m, ids);
    var index := IndexPairs(catalog.records, ids, trees);
    ghost var m1 := catalog.records.Contents();
    t := index.tree;
    RegisterOn(catalog, name, c, index, m, trees);
    SameRowsTrans(m, m1, catalog.records.Contents());
  }

  /** The table with its rows. */
  method CreatePairs() returns (records: RecordStore, catalog: Catalog, ids: seq<RecordId>)
    ensures fresh(records) && fresh(records.pool) && fresh(records.pool.heap) && fresh(catalog)
    ensures records.Ready() && |records.Slots()| <= 1 + SURE_CAPACITY && catalog.records == records && catalog.Valid()
    ensures catalog.tables == [PAIRS] && catalog.indexes == [] && RowsOk([PAIRS], records.Contents())
    ensures |ids| == SURE_CAPACITY && HasPairs(Rows(PAIRS, records.Contents()), ids)
  {
    hide Forest, RowsOk, RecordStore.Contents, PoolSlots, TableOk, HasUnpinned, Rows, TablesOk, HasPairs, RowTuple,
         BufferPool.Valid;
    records, catalog := CreateDatabase();
    NoTrees(records.Contents());
    var db := new TableStore(records, catalog, []);
    ids := FillTable(db);
  }

  /** Adds an index on each column. */
  method AddIndexes(catalog: Catalog, ids: seq<RecordId>) returns (ghost trees: seq<Tree>)
    requires catalog.Valid() && catalog.tables == [PAIRS] && catalog.indexes == [] && catalog.records.Ready()
    requires |catalog.records.Slots()| <= 1 + SURE_CAPACITY
    requires |ids| == SURE_CAPACITY && HasPairs(Rows(PAIRS, catalog.records.Contents()), ids)
    modifies catalog`indexes, catalog.records, catalog.records.pool, catalog.records.pool.heap
    ensures catalog.Valid() && catalog.records.Ready() && |catalog.records.Slots()| <= 7 + 5 * SURE_CAPACITY
    ensures TwoIndexes(catalog.indexes) && |catalog.indexes| == |trees| == 2
    ensures forall i :: 0 <= i < 2 ==> trees[i].header == catalog.indexes[i].headerId && HoldsNumbers(trees[i], ids)
    ensures Forest(catalog.records.Contents(), trees)
    ensures SameRows(old(catalog.records.Contents()), catalog.records.Contents())
  {
    hide Forest, RowsOk, RecordStore.Contents, PoolSlots, TableOk, HasUnpinned, Rows, EntrySet, SameRows, TablesOk,
         IndexesOk, HoldsNumbers, HasPairs, WellFormed, Stored, RowTuple, BufferPool.Valid, IndexLike, FindFirst;
    ghost var m := catalog.records.Contents();
    NoTrees(m);
    NoName();
    ghost var t := AddIndex(catalog, [105], 0, ids, []);
    ghost var m1 := catalog.records.Contents();
    assert [] + [t] == [t];
    SameRowsMeans([PAIRS], m, m1);
    NewName(catalog.indexes[0]);
    ghost var u := AddIndex(catalog, [106], 1, ids, [t]);
    SameRowsTrans(m, m1, catalog.records.Contents());
    assert [t] + [u] == [t, u];
    trees := [t, u];
  }

  /** The index does not list the row under its key. */
  ghost predicate Lacks(t: Tree, id: RecordId) {
    Entry(LOST, id) !in EntrySet(t)
  }

  /** The first index lists all rows, the second one not the one in question. */
  ghost predicate Prepared(trees: seq<Tree>, rows: RowMap, ids: seq<RecordId>) {
    && |trees| == 2 && |ids| == SURE_CAPACITY && HasPairs(rows, ids)
    && HoldsNumbers(trees[0], ids) && Lacks(trees[1], ids[LOST])
  }

  /** Takes the entry of the row out of the index that the catalog lists second, past the table. */
  method Unlist(catalog: Catalog, id: RecordId, ghost trees: seq<Tree>) returns (ghost u: Tree)
    requires catalog.Valid() && catalog.records.Ready() && |trees| == |catalog.indexes| == 2
    requires trees[1].header == catalog.indexes[1].headerId && Forest(catalog.records.Contents(), trees)
    modifies catalog.records, catalog.records.pool, catalog.records.pool.heap
    ensures catalog.records.Ready() && |catalog.records.Slots()| == |old(catalog.records.Slots())|
    ensures u.header == trees[1].header && Lacks(u, id)
    ensures Forest(catalog.records.Contents(), [trees[0], u])
    ensures SameRows(old(catalog.records.Contents()), catalog.records.Contents())
  {
    hide Forest, RecordStore.Contents, PoolSlots, TableOk, HasUnpinned, EntrySet, SameRows, WellFormed, Stored,
         OutsideKept, TablesOk, IndexesOk, BufferPool.Valid, EraseFrom;
    ghost var m := catalog.records.Contents();
    TreeOfForest(m, trees, 1);
    var opened' := BPlusTreeIndex.Open(catalog.records, catalog.indexes[1].headerId);
    var index := opened'.value;
    StoredUnique(m, index.tree, trees[1]);
    var erased := index.Erase(LOST, id);
    u := index.tree;
    ForestStep(m, catalog.records.Contents(), trees, 1, u);
    assert trees[1 := u] == [trees[0], u];
  }

  /** Rows (0, 0), (1, 1) and so on, and an index on each column, of which the second one misses a row. */
  method BuildDatabase() returns (db: TableStore, ids: seq<RecordId>)
    ensures fresh(db) && fresh(db.records) && fresh(db.records.pool) && fresh(db.records.pool.heap)
    ensures db.Valid() && db.catalog.tables == [PAIRS] && TwoIndexes(db.catalog.indexes)
    ensures Prepared(db.trees, Rows(PAIRS, db.records.Contents()), ids)
    ensures |db.records.Slots()| + 4 <= MAX_PAGES
  {
    hide Forest, RowsOk, RecordStore.Contents, PoolSlots, TableOk, HasUnpinned, Rows, EntrySet, SameRows, TablesOk,
         IndexesOk, HoldsNumbers, HasPairs, TwoIndexes, Agreeing, RowTuple, BufferPool.Valid;
    var records, catalog;
    records, catalog, ids := CreatePairs();
    ghost var m := records.Contents();
    ghost var trees := AddIndexes(catalog, ids);
    ghost var m1 := records.Contents();
    ghost var u := Unlist(catalog, ids[LOST], trees);
    SameRowsTrans(m, m1, records.Contents());
    SameRowsMeans([PAIRS], m, records.Contents());
    db := new TableStore(records, catalog, [trees[0], u]);
  }

  lemma PairIds(m: Store, ids: seq<RecordId>)
    requires HasPairs(Rows(PAIRS, m), ids) && forall id :: id in m ==> LinkFits(id)
    ensures forall i :: 0 <= i < |ids| ==> IdFits(ids[i])
  {
  }

  lemma NoName()
    ensures FindFirst(IndexLike([105]), []) == None
  {
  }

  /**
     A table with two indexes, the first one in step with it, while the second one misses a row. The erasure
     of that row keeps the row, but the first index, which had listed it, does not list it any more.
     */
  method LoseEntry() returns (db: TableStore, id: RecordId, r: Result<bool>, ghost rows: RowMap, ghost was: seq<Tree>)
    ensures fresh(db) && db.Valid() && db.catalog.tables == [PAIRS] && TwoIndexes(db.catalog.indexes)
    ensures |db.trees| == |was| == 2 && was[0].header == db.catalog.indexes[0].headerId
    ensures Agrees(was[0], rows, 0) && id in rows && KeyAt(rows[id], 0) == Some(LOST)
    ensures r == Err(TableCorruption) && Rows(PAIRS, db.records.Contents()) == rows
    ensures Entry(LOST, id) in EntrySet(was[0]) && EntrySet(db.trees[0]) == EntrySet(was[0]) - {Entry(LOST, id)}
  {
    hide Forest, RowsOk, RecordStore.Contents, PoolSlots, TableOk, HasUnpinned, Rows, EntrySet, SameRows, TablesOk,
         IndexesOk, HoldsNumbers, HasPairs, Agrees, WellFormed, EraseOutcome, FindFirst, KeyAt, Agreeing, SameEntries,
         RowTuple, BufferPool.Valid;
    var ids;
    db, ids := BuildDatabase();
    id, was := ids[LOST], db.trees;
    ghost var m := db.records.Contents();
    rows := Rows(PAIRS, m);
    PairsTable();
    LostRow(rows, ids);
    NumbersAgree(was[0], rows, ids);
    r := db.Erase(PAIRS.name, id);
    ErasureLoses(db.catalog.indexes, was, db.trees, m, db.records.Contents(), ids, id, r);
    SameRowsMeans([PAIRS], m, db.records.Contents());
  }
}
