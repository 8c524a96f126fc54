/** Tables over the record store, with every index of a table kept in step with its rows. */
module TableStores {
  import opened Wrappers
  import opened Bytes
  import opened Sequences
  import opened HeapFiles
  import opened BufferPools
  import opened PageGuards
  import opened Stores
  import opened RecordStores
  import opened BPlusNodes
  import opened BPlusTrees
  import opened BPlusTreeLaws
  import opened TreeShapes
  import opened BPlusStorage
  import opened BPlusSearch
  import opened BPlusTreeIndexes
  import opened Tuples
  import opened TupleCodec
  import opened Catalogs
  import opened TableRows
  import opened IndexedTables

  // ---------------------------------------------------------------- scanning

  class TableCursor {
    const cursor: RecordCursor
    const table: TableDefinition

    constructor (cursor: RecordCursor, table: TableDefinition)
      ensures this.cursor == cursor && this.table == table
    {
      this.cursor := cursor;
      this.table := table;
    }

    /** Delivers the next row of the table, skipping all other records; damaged rows are reported. */
    method Next() returns (r: Result<Option<TableRow>>)
      requires Usable(cursor.pool) && cursor.endPage <= |cursor.pool.heap.pages|
      modifies cursor, cursor.pool, cursor.pool.heap
      ensures Usable(cursor.pool) && PoolSlots(cursor.pool) == old(PoolSlots(cursor.pool))
      ensures var ss := PoolSlots(cursor.pool);
        old(Reading(table, cursor.Remaining(ss))) == NextThen(r, Reading(table, cursor.Remaining(ss)))
      ensures r == Ok(None) ==> Reading(table, cursor.Remaining(PoolSlots(cursor.pool))) == Ok([])
      ensures r.Ok? && r.value.Some? ==>
        |cursor.Remaining(PoolSlots(cursor.pool))| < old(|cursor.Remaining(PoolSlots(cursor.pool))|)
    {
      hide PoolSlots, HasUnpinned, TableOk, Parse, HasMagic, DecodeRow, RecordCursor.Remaining, Kept;
      ghost var ss := PoolSlots(cursor.pool);
      ghost var all := Reading(table, cursor.Remaining(ss));
      while true
        invariant Usable(cursor.pool) && PoolSlots(cursor.pool) == ss
        invariant |cursor.pool.heap.pages| == |ss| && cursor.endPage <= |ss|
        invariant Reading(table, cursor.Remaining(ss)) == all
        invariant |cursor.Remaining(ss)| <= old(|cursor.Remaining(PoolSlots(cursor.pool))|)
        decreases |cursor.Remaining(ss)|
      {
        ghost var rest := cursor.Remaining(ss);
        var record := cursor.Next();
        if record == None {
          return Ok(None);
        }
        ReadingStep(table, record.value, cursor.Remaining(ss));
        if !HasMagic(record.value.bytes) {
          continue;
        }
        var e := Parse(record.value.bytes);
        if e.Err? {
          return Err(e.error);
        }
        if e.value.table == table.name {
          var t := DecodeRow(table, e.value);
          if t.Err? {
            return Err(t.error);
          }
          return Ok(Some(TableRow(record.value.id, t.value)));
        }
      }
    }
  }

  /** A whole reading from its next step and what the rest would read. */
  function NextThen(next: Result<Option<TableRow>>, rest: Result<seq<TableRow>>): Result<seq<TableRow>> {
    match next
    case Err(error) => Err(error)
    case Ok(None) => Ok([])
    case Ok(Some(row)) => if rest.Err? then rest else Ok([row] + rest.value)
  }

  lemma ReadingStep(table: TableDefinition, first: Record, rest: seq<Record>)
    ensures var row, after := RowIn(table, first.bytes), Reading(table, rest);
      Reading(table, [first] + rest) ==
        if row.Err? then Err(row.error)
        else if row.value == None then after
        else NextThen(Ok(Some(TableRow(first.id, row.value.value))), after)
  {
    hide RowIn;
    assert ([first] + rest)[1..] == rest;
  }

  // ---------------------------------------------------------------- opened indexes

  datatype OpenIndex = OpenIndex(tree: BPlusTreeIndex, key: Option<int64>)

  /** The opened trees are the ones at these positions of the catalog. */
  ghost predicate Opened(os: seq<OpenIndex>, at: seq<nat>, trees: seq<Tree>, records: RecordStore)
    reads set k | 0 <= k < |os| :: os[k].tree
  {
    && |os| == |at|
    && (forall k :: 0 <= k < |os| ==>
          && at[k] < |trees| && os[k].tree.records == records
          && os[k].tree.Matches() && os[k].tree.tree == trees[at[k]])
    && (forall j, k :: 0 <= j < |os| && 0 <= k < |os| && j != k ==> os[j].tree != os[k].tree && at[j] != at[k])
  }

  /** The positions of the indexes of a table, in catalog order. */
  ghost predicate Positions(indexes: seq<IndexDefinition>, name: Text, at: seq<nat>, end: nat)
    requires end <= |indexes|
  {
    && (forall k :: 0 <= k < |at| ==> at[k] < end && indexes[at[k]].table == name)
    && (forall j, k :: 0 <= j < k < |at| ==> at[j] < at[k])
    && (forall i :: 0 <= i < end && indexes[i].table == name ==> i in at)
  }

  class TableStore {
    const records: RecordStore
    const catalog: Catalog
    ghost var trees: seq<Tree>

    /** The catalog is in order, all index trees are stored side by side, and every row record is sound. */
    ghost predicate Valid()
      reads this, records, records.pool, records.pool.heap, catalog
    {
      && records.Ready() && catalog.Valid() && Indexed()
      && Forest(records.Contents(), trees) && RowsOk(catalog.tables, records.Contents())
    }

    /** There is one tree for each index of the catalog, under the header it names. */
    ghost predicate Indexed()
      reads this, catalog
    {
      && catalog.records == records && |trees| == |catalog.indexes|
      && (forall i :: 0 <= i < |trees| ==> trees[i].header == catalog.indexes[i].headerId)
    }

    /** Every index holds exactly the keys and ids of its table's rows. */
    ghost predicate InStep()
      reads this, records, records.pool, records.pool.heap, catalog
    {
      Valid() && Agreeing(catalog.tables, catalog.indexes, trees, records.Contents())
    }

    /** Tables over a sound store with the index trees of the catalog; they are in step as far as these trees are. */
    constructor (records: RecordStore, catalog: Catalog, ghost trees: seq<Tree>)
      requires records.Ready() && catalog.Valid() && catalog.records == records && |trees| == |catalog.indexes|
      requires forall i :: 0 <= i < |trees| ==> trees[i].header == catalog.indexes[i].headerId
      requires Forest(records.Contents(), trees) && RowsOk(catalog.tables, records.Contents())
      ensures this.records == records && this.catalog == catalog && this.trees == trees && Valid()
      ensures InStep() <==> Agreeing(catalog.tables, catalog.indexes, trees, records.Contents())
      ensures catalog.indexes == [] ==> InStep()
    {
      this.records := records;
      this.catalog := catalog;
      this.trees := trees;
    }

    /** Opens every index of the table, and finds the row's key in each. */
    method OpenIndexes(table: TableDefinition, values: Tuple) returns (r: Result<seq<OpenIndex>>, ghost at: seq<nat>)
      requires Valid() && table in catalog.tables && ValidTuple(table.schema, values)
      modifies records.pool, records.pool.heap
      ensures Valid() && records.Slots() == old(records.Slots()) && records.Contents() == old(records.Contents())
      ensures r.Ok? && forall k :: 0 <= k < |r.value| ==> fresh(r.value[k].tree)
      ensures r.Ok? && Opened(r.value, at, trees, records)
      ensures Positions(catalog.indexes, table.name, at, |catalog.indexes|)
      ensures KeysFor(r.value, at, catalog.tables, catalog.indexes, table.name, values)
    {
      hide WellFormed, Stored, Forest, RowsOk, TargetOk, TablesOk, RecordStore.Contents, PoolSlots, TableOk,
           HasUnpinned, ValidTuple, SameName, TableOf, KeyFor, BPlusTreeIndex.Matches, Opened, Positions,
           BufferPool.Valid;
      ghost var m := records.Contents();
      var indexes: seq<OpenIndex> := [];
      at := [];
      NothingOpened(catalog.indexes, table.name, trees, records);
      for i := 0 to |catalog.indexes|
        invariant Valid() && records.Slots() == old(records.Slots()) && records.Contents() == m
        invariant forall k :: 0 <= k < |indexes| ==> fresh(indexes[k].tree)
        invariant Opened(indexes, at, trees, records)
        invariant Positions(catalog.indexes, table.name, at, i)
        invariant KeysFor(indexes, at, catalog.tables, catalog.indexes, table.name, values)
      {
        PositionsStep(catalog.indexes, table.name, at, i);
        if catalog.indexes[i].table != table.name {
          continue;
        }
        var opened' := OpenOne(i, table, values);
        if opened'.Err? {
          return Err(IndexCorruption), at;
        }
        OpenedMore(indexes, at, trees, records, opened'.value, i);
        indexes := indexes + [opened'.value];
        at := at + [i];
      }
      r := Ok(indexes);
    }

    /** Opens index i, which belongs to the table. */
    method OpenOne(i: nat, table: TableDefinition, values: Tuple) returns (r: Result<OpenIndex>)
      requires Valid() && table in catalog.tables && ValidTuple(table.schema, values)
      requires i < |catalog.indexes| && catalog.indexes[i].table == table.name
      modifies records.pool, records.pool.heap
      ensures Valid() && records.Slots() == old(records.Slots()) && records.Contents() == old(records.Contents())
      ensures r.Ok? && fresh(r.value.tree)
      ensures r.Ok? && r.value.tree.records == records && r.value.tree.Matches() && r.value.tree.tree == trees[i]
      ensures r.Ok? && r.value.key == KeyFor(catalog.tables, catalog.indexes[i], table.name, values)
    {
      hide WellFormed, Stored, Forest, RowsOk, TargetOk, TablesOk, RecordStore.Contents, PoolSlots, TableOk,
           HasUnpinned, ValidTuple, SameName, IntegerColumn, TableOf, ColumnOf, KeyAt, FindFirst, BufferPool.Valid;
      ghost var m := records.Contents();
      var definition := catalog.indexes[i];
      NamedTable(catalog.tables, table, definition);
      IndexedColumn(catalog.tables, table, definition);
      var column := FindFirst(ColumnIs(definition.column), table.schema);
      if column == None || table.schema[column.value].dataType != Integer {
        return Err(CatalogCorruption);
      }
      KeyOrNull(table, values, column.value);
      var key := if values[column.value].Null? then None else Some(values[column.value].i);
      KeyIs(values, column.value);
      var opened' := BPlusTreeIndex.Open(records, definition.headerId);
      TreeOfForest(m, trees, i);
      if opened'.Err? {
        return Err(IndexCorruption);
      }
      StoredUnique(m, opened'.value.tree, trees[i]);
      r := Ok(OpenIndex(opened'.value, key));
    }

    /** The opened indexes and the store are consistent with each other, whatever the entries are. */
    ghost predicate Working(os: seq<OpenIndex>, at: seq<nat>)
      reads this, records, records.pool, records.pool.heap, set k | 0 <= k < |os| :: os[k].tree
    {
      records.Ready() && Forest(records.Contents(), trees) && Opened(os, at, trees, records)
    }

    /** Lists a row id in one opened index. */
    method AddEntry(os: seq<OpenIndex>, ghost at: seq<nat>, k: nat, id: RecordId) returns (r: Result<bool>)
      requires Working(os, at) && k < |os| && os[k].key.Some? && IdFits(id) && |records.Slots()| + 2 <= MAX_PAGES
      modifies this`trees, records, records.pool, records.pool.heap, os[k].tree
      ensures Working(os, at) && |records.Slots()| <= |old(records.Slots())| + 2
      ensures |trees| == |old(trees)| && trees == old(trees)[at[k] := trees[at[k]]]
      ensures trees[at[k]].header == old(trees)[at[k]].header && WellFormed(old(trees)[at[k]])
      ensures SameRows(old(records.Contents()), records.Contents())
      ensures var t, e := old(trees)[at[k]], Entry(os[k].key.value, id);
        && (r == Ok(false) <==> e in EntrySet(t))
        && (r.Err? <==> Rejects(t, e)) && (r.Err? ==> r.error == PageFull)
        && (r == Ok(true) ==> EntrySet(trees[at[k]]) == EntrySet(t) + {e})
        && (r != Ok(true) ==> trees == old(trees) && records.Contents() == old(records.Contents()))
    {
      hide WellFormed, Stored, Forest, RecordStore.Contents, PoolSlots, TableOk, HasUnpinned, OutsideKept, EntrySet,
           Rejects, InsertedBy, SameRows, BufferPool.Valid;
      ghost var m, ts := records.Contents(), trees;
      TreeOfForest(m, ts, at[k]);
      r := os[k].tree.Insert(os[k].key.value, id);
      ForestStep(m, records.Contents(), ts, at[k], os[k].tree.tree);
      trees := ts[at[k] := os[k].tree.tree];
    }

    /** Takes a row id out of one opened index. */
    method DropEntry(os: seq<OpenIndex>, ghost at: seq<nat>, k: nat, id: RecordId) returns (r: Result<bool>)
      requires Working(os, at) && k < |os| && os[k].key.Some?
      modifies this`trees, records.pool, records.pool.heap, os[k].tree
      ensures Working(os, at) && |records.Slots()| == |old(records.Slots())|
      ensures |trees| == |old(trees)| && trees == old(trees)[at[k] := trees[at[k]]]
      ensures trees[at[k]].header == old(trees)[at[k]].header && WellFormed(old(trees)[at[k]])
      ensures SameRows(old(records.Contents()), records.Contents())
      ensures var t, e := old(trees)[at[k]], Entry(os[k].key.value, id);
        && r == Ok(e in EntrySet(t))
        && (r == Ok(true) ==> EraseFrom(t, e) == Some(trees[at[k]]) && EntrySet(trees[at[k]]) == EntrySet(t) - {e})
        && (r == Ok(false) ==> trees == old(trees) && records.Contents() == old(records.Contents()))
    {
      hide WellFormed, Stored, Forest, RecordStore.Contents, PoolSlots, TableOk, HasUnpinned, OutsideKept, EntrySet,
           EraseFrom, SameRows, BufferPool.Valid;
      ghost var m, ts := records.Contents(), trees;
      TreeOfForest(m, ts, at[k]);
      r := os[k].tree.Erase(os[k].key.value, id);
      ForestStep(m, records.Contents(), ts, at[k], os[k].tree.tree);
      trees := ts[at[k] := os[k].tree.tree];
    }

    /**
     Stores a row and lists it in every index of its table. If an index refuses it, the row and all
     earlier entries are taken back, so that a failed insertion changes neither rows nor entries.
     */
    method Insert(tableName: Text, values: Tuple) returns (r: Result<RecordId>)
      requires Valid() && |records.Slots()| + 1 + 2 * |catalog.indexes| <= MAX_PAGES
      modifies this`trees, records, records.pool, records.pool.heap
      ensures Valid() && (old(InStep()) ==> InStep())
      ensures |records.Slots()| <= |old(records.Slots())| + 1 + 2 * |catalog.indexes|
      ensures r.Ok? ==> var t := FindFirst(TableLike(tableName), catalog.tables);
        && t.Some? && ValidTuple(catalog.tables[t.value].schema, values)
        && RowInserted(catalog.tables, catalog.indexes, old(trees), trees, old(records.Contents()), records.Contents(),
                       catalog.tables[t.value], r.value, values)
      ensures r.Err? ==> SameRows(old(records.Contents()), records.Contents()) && SameEntries(old(trees), trees)
      ensures var t := FindFirst(TableLike(tableName), catalog.tables);
        if t == None then r == Err(OutOfRange)
        else if !ValidTuple(catalog.tables[t.value].schema, values) then r == Err(InvalidArgument)
        else
          var table := catalog.tables[t.value];
          var id := PlaceFor(old(records.Slots()), old(records.hint), |WrapRow(table, EncodeTuple(values))|);
          && (r == Ok(id) <==> Insertable(catalog.tables, catalog.indexes, old(trees), table, id, values))
          && (r != Ok(id) ==> r == Err(PageFull) || (r == Err(TableCorruption) && !old(InStep())))
      ensures old(InStep()) && Acceptable(catalog.tables, catalog.indexes, old(trees), tableName, values) ==> r.Ok?
    {
      hide Forest, SameRows, RecordStore.Contents, PoolSlots, TableOk, HasUnpinned, ValidTuple, EncodeTuple, RowsOk,
           TablesOk, IndexesOk, Agreeing, RowInserted, WrapRow, SameName, SameEntries, Insertable, PlaceFor,
           BufferPool.Valid;
      SameRowsRefl(records.Contents());
      SameEntriesRefl(trees);
      var t := FindFirst(TableLike(tableName), catalog.tables);
      if t == None {
        return Err(OutOfRange);
      }
      var table := catalog.tables[t.value];
      var payload := Encode(table.schema, values);
      if payload.Err? {
        return Err(payload.error);
      }
      r := InsertRow(table, values, payload.value);
    }

    /** Stores an encoded row. */
    method InsertRow(table: TableDefinition, values: Tuple, payload: seq<byte>) returns (r: Result<RecordId>)
      requires Valid() && |records.Slots()| + 1 + 2 * |catalog.indexes| <= MAX_PAGES
      requires table in catalog.tables && ValidTuple(table.schema, values) && payload == EncodeTuple(values)
      modifies this`trees, records, records.pool, records.pool.heap
      ensures Valid() && (old(InStep()) ==> InStep())
      ensures |records.Slots()| <= |old(records.Slots())| + 1 + 2 * |catalog.indexes|
      ensures r.Ok? ==>
        RowInserted(catalog.tables, catalog.indexes, old(trees), trees, old(records.Contents()), records.Contents(),
                    table, r.value, values)
      ensures var id := PlaceFor(old(records.Slots()), old(records.hint), |WrapRow(table, payload)|);
        && (r.Ok? ==> r.value == id)
        && (r.Ok? <==> Insertable(catalog.tables, catalog.indexes, old(trees), table, id, values))
      ensures r.Err? ==> SameRows(old(records.Contents()), records.Contents()) && SameEntries(old(trees), trees)
      ensures r.Err? ==> r.error == PageFull || (r.error == TableCorruption && !old(InStep()))
      ensures old(InStep()) && |WrapRow(table, payload)| <= MAX_RECORD_BYTES ==>
        (RootsHaveRoom(catalog.tables, catalog.indexes, old(trees), table.name, values) ==> r.Ok?)
    {
      hide Forest, SameRows, RecordStore.Contents, PoolSlots, TableOk, HasUnpinned, ValidTuple, EncodeTuple, RowsOk,
           TablesOk, IndexesOk, Agreeing, RowInserted, WrapRow, Opened, KeyedBy, AddedBelow, SameEntries, SameHeaders,
           RefusedAt, KeysFor, Positions, RootsHaveRoom, Kept, Listable, PlaceFor, WithPlaced, BufferPool.Valid;
      ghost var m, was := records.Contents(), trees;
      SameRowsRefl(m);
      SameEntriesRefl(was);
      RowIsRecord(catalog.tables, table, values);
      var opened';
      ghost var at;
      opened', at := OpenIndexes(table, values);
      if opened'.Err? {
        return Err(IndexCorruption);
      }
      var indexes := opened'.value;
      OpenedKeyed(indexes, at, catalog.tables, catalog.indexes, table.name, values);
      var added := records.Insert(WrapRow(table, payload));
      if added.Err? {
        return Err(added.error);
      }
      RowStored(catalog.tables, table, was, m, added.value, values);
      LiveIdsFit(records);
      assert added.value in records.Contents();
      r := ListRow(table, values, added.value, indexes, at, m);
    }

    /** Lists a stored row in the opened indexes, or takes it back. */
    method ListRow(table: TableDefinition, values: Tuple, id: RecordId, indexes: seq<OpenIndex>, ghost at: seq<nat>,
                   ghost m: Store)
      returns (r: Result<RecordId>)
      requires Working(indexes, at) && Indexed() && catalog.Valid()
      requires KeyedBy(indexes, at, KeysOf(catalog.tables, catalog.indexes, table.name, values))
      requires IdFits(id) && |records.Slots()| + 2 * |indexes| <= MAX_PAGES
      requires table in catalog.tables && ValidTuple(table.schema, values) && RowsOk(catalog.tables, m)
      requires id !in m && records.Contents() == m[id := WrapRow(table, EncodeTuple(values))]
      modifies this`trees, records, records.pool, records.pool.heap, set k | 0 <= k < |indexes| :: indexes[k].tree
      ensures Valid() && |records.Slots()| <= |old(records.Slots())| + 2 * |indexes|
      ensures Agreeing(catalog.tables, catalog.indexes, old(trees), m) ==> InStep()
      ensures r.Ok? ==>
        RowInserted(catalog.tables, catalog.indexes, old(trees), trees, m, records.Contents(), table, r.value, values)
      ensures r.Ok? ==> r.value == id
      ensures r.Ok? <==> Listable(catalog.tables, catalog.indexes, old(trees), table.name, id, values)
      ensures r.Err? ==> SameRows(m, records.Contents()) && SameEntries(old(trees), trees)
      ensures r.Err? ==> r.error == PageFull || r.error == TableCorruption
      ensures r == Err(TableCorruption) ==> !Agreeing(catalog.tables, catalog.indexes, old(trees), m)
      ensures RootsHaveRoom(catalog.tables, catalog.indexes, old(trees), table.name, values) ==>
        r.Ok? || r.error == TableCorruption
    {
      hide Forest, SameRows, RecordStore.Contents, PoolSlots, TableOk, HasUnpinned, ValidTuple, EncodeTuple, RowsOk,
           TablesOk, IndexesOk, Agreeing, RowInserted, WrapRow, Opened, KeyedBy, AddedBelow, SameEntries, SameHeaders,
           RefusedAt, RootsHaveRoom, Kept, HasMagic, Listable, BufferPool.Valid;
      ghost var was, m1 := trees, records.Contents();
      ghost var keys := KeysOf(catalog.tables, catalog.indexes, table.name, values);
      var updated, done := AddEntries(indexes, at, keys, id);
      ghost var m2 := records.Contents();
      if done.Err? {
        RefusalExplained(catalog.tables, catalog.indexes, was, m, table, id, values, indexes, at, updated, done.error);
        TakeBack(indexes, at, keys, id, updated, was);
        SameRowsTrans(m1, m2, records.Contents());
        RowIsRecord(catalog.tables, table, values);
        RowUnstored(m, m1, records.Contents(), trees, id);
        var erased := records.Erase(id);
        HeadersKept(was, trees, catalog.indexes);
        RowsKeptOk(catalog.tables, catalog.indexes, was, trees, m, records.Contents());
        return Err(done.error);
      }
      KeyedLength(indexes, at, keys);
      RowListed(catalog.tables, catalog.indexes, was, trees, m, m2, table, id, values);
      r := Ok(id);
    }

    /** Lists a new row in the opened indexes one after the other, up to the first that refuses it. */
    method AddEntries(os: seq<OpenIndex>, ghost at: seq<nat>, ghost keys: seq<Option<int64>>, id: RecordId)
      returns (updated: nat, r: Result<()>)
      requires Working(os, at) && KeyedBy(os, at, keys) && |keys| == |trees| && IdFits(id)
      requires |records.Slots()| + 2 * |os| <= MAX_PAGES
      modifies this`trees, records, records.pool, records.pool.heap, set k | 0 <= k < |os| :: os[k].tree
      ensures Working(os, at) && SameRows(old(records.Contents()), records.Contents()) && |trees| == |old(trees)|
      ensures |records.Slots()| <= |old(records.Slots())| + 2 * |os|
      ensures updated <= |os| && (r.Ok? ==> updated == |os|) && (r.Err? ==> updated < |os|)
      ensures AddedBelow(old(trees), trees, keys, id, Bound(at, updated, |keys|))
      ensures r.Err? ==> RefusedAt(old(trees)[at[updated]], os[updated].key, id, r.error)
    {
      hide Forest, SameRows, RecordStore.Contents, PoolSlots, TableOk, HasUnpinned, Opened, KeyedBy, AddedBelow,
           EntrySet, Bound, RefusedAt, Rejects, BufferPool.Valid;
      ghost var was := trees;
      SameRowsRefl(records.Contents());
      AddedNone(was, os, at, keys, id);
      for k := 0 to |os|
        invariant Working(os, at) && SameRows(old(records.Contents()), records.Contents())
        invariant |records.Slots()| <= |old(records.Slots())| + 2 * k && |trees| == |was|
        invariant AddedBelow(was, trees, keys, id, Bound(at, k, |keys|))
      {
        KeyedAt(os, at, keys, trees, records, k);
        ghost var now, m := trees, records.Contents();
        AddedStep(was, now, os, at, keys, id, k);
        if os[k].key.Some? {
          var added := AddEntry(os, at, k, id);
          SameRowsTrans(old(records.Contents()), m, records.Contents());
          RefusedMeans(now[at[k]], os[k].key, id);
          if added.Err? {
            return k, Err(added.error);
          }
          if !added.value {
            return k, Err(TableCorruption);
          }
          AddedTo(was, now, trees, os, at, keys, id, k);
        }
      }
      KeyedLength(os, at, keys);
      updated, r := |os|, Ok(());
    }

    /** Undoes the first `updated` additions, the last one first. */
    method TakeBack(os: seq<OpenIndex>, ghost at: seq<nat>, ghost keys: seq<Option<int64>>, id: RecordId, updated: nat,
                    ghost was: seq<Tree>)
      requires Working(os, at) && KeyedBy(os, at, keys) && |keys| == |trees| && updated <= |os|
      requires AddedBelow(was, trees, keys, id, Bound(at, updated, |keys|))
      modifies this`trees, records.pool, records.pool.heap, set k | 0 <= k < |os| :: os[k].tree
      ensures Working(os, at) && SameRows(old(records.Contents()), records.Contents()) && |trees| == |old(trees)|
      ensures |records.Slots()| == |old(records.Slots())|
      ensures SameEntries(was, trees) && SameHeaders(was, trees)
    {
      hide Forest, SameRows, RecordStore.Contents, PoolSlots, TableOk, HasUnpinned, Opened, KeyedBy, EntrySet,
           EraseFrom, TakenBelow, Bound, AddedBelow, BufferPool.Valid;
      SameRowsRefl(records.Contents());
      AddedIsTaken(was, trees, keys, id, Bound(at, updated, |keys|));
      var rest: nat := updated;
      while rest > 0
        invariant rest <= |os| && Working(os, at) && SameRows(old(records.Contents()), records.Contents())
        invariant |records.Slots()| == |old(records.Slots())|
        invariant |keys| == |trees| && TakenBelow(was, trees, keys, id, Bound(at, rest, |keys|))
      {
        rest := rest - 1;
        KeyedAt(os, at, keys, trees, records, rest);
        ghost var now, m := trees, records.Contents();
        if os[rest].key == None {
          TakenStep(was, now, now, os, at, keys, id, rest);
          continue;
        }
        var dropped := DropEntry(os, at, rest, id);
        SameRowsTrans(old(records.Contents()), m, records.Contents());
        TakenStep(was, now, trees, os, at, keys, id, rest);
      }
      TakenAll(was, trees, os, at, keys, id);
    }

    /** A cursor over the rows of a table. */
    method OpenCursor(tableName: Text) returns (r: Result<TableCursor>)
      requires Valid()
      ensures var t := FindFirst(TableLike(tableName), catalog.tables);
        if t == None then r == Err(OutOfRange) else
          && r.Ok? && fresh(r.value) && fresh(r.value.cursor) && r.value.table == catalog.tables[t.value]
          && r.value.cursor.pool == records.pool && r.value.cursor.endPage == |records.Slots()|
          && Reading(r.value.table, r.value.cursor.Remaining(records.Slots())) == Ok(Scanned(r.value.table, records.Contents()))
    {
      hide Forest, RowsOk, RecordStore.Contents, PoolSlots, TableOk, HasUnpinned, SameName, TablesOk, Rest, Scanned,
           Reading, RowTuple, BufferPool.Valid;
      var t := FindFirst(TableLike(tableName), catalog.tables);
      if t == None {
        return Err(OutOfRange);
      }
      var cursor := new RecordCursor(records.pool);
      var reader := new TableCursor(cursor, catalog.tables[t.value]);
      RecordsRead(records, catalog.tables, reader.table);
      r := Ok(reader);
    }

    /** All rows of a table, in record order. */
    method Scan(tableName: Text) returns (r: Result<seq<TableRow>>)
      requires Valid()
      modifies records.pool, records.pool.heap
      ensures Valid() && records.Slots() == old(records.Slots()) && records.Contents() == old(records.Contents())
      ensures var t := FindFirst(TableLike(tableName), catalog.tables);
        r == if t == None then Err(OutOfRange) else Ok(Scanned(catalog.tables[t.value], records.Contents()))
    {
      hide Forest, RowsOk, StoreOf, PoolSlots, TableOk, HasUnpinned, SameName, TablesOk, Rest, Scanned, Reading,
           RecordCursor.Remaining, RowTuple, BufferPool.Valid;
      var opened' := OpenCursor(tableName);
      if opened'.Err? {
        return Err(opened'.error);
      }
      var reader := opened'.value;
      ghost var ss := records.Slots();
      ghost var all := Scanned(reader.table, records.Contents());
      var rows: seq<TableRow> := [];
      ReadAll(all);
      while true
        invariant records.Ready() && records.Slots() == ss && reader.cursor.endPage == |ss|
        invariant ReadAfter(rows, Reading(reader.table, reader.cursor.Remaining(ss))) == Ok(all)
        decreases |reader.cursor.Remaining(ss)|
      {
        ghost var rest := Reading(reader.table, reader.cursor.Remaining(ss));
        var row := reader.Next();
        if row.Err? {
          r := Err(row.error);
          ReadNext(rows, row, rest, Reading(reader.table, reader.cursor.Remaining(ss)), all);
          return;
        }
        ReadNext(rows, row, rest, Reading(reader.table, reader.cursor.Remaining(ss)), all);
        if row.value == None {
          return Ok(rows);
        }
        rows := rows + [row.value.value];
      }
    }

    /** The values of one row. */
    method Read(tableName: Text, id: RecordId) returns (r: Result<Tuple>)
      requires Valid()
      modifies records.pool, records.pool.heap
      ensures Valid() && records.Slots() == old(records.Slots()) && records.Contents() == old(records.Contents())
      ensures var t, m := FindFirst(TableLike(tableName), catalog.tables), records.Contents();
        r == if t == None || id !in m then Err(OutOfRange)
             else if id in Rows(catalog.tables[t.value], m) then Ok(Rows(catalog.tables[t.value], m)[id])
             else Err(InvalidArgument)
    {
      hide Forest, RecordStore.Contents, PoolSlots, TableOk, HasUnpinned, SameName, Kept, Parse, DecodeRow, Rows,
           TablesOk, RecordOk, RowTuple, BufferPool.Valid;
      var t := FindFirst(TableLike(tableName), catalog.tables);
      if t == None {
        return Err(OutOfRange);
      }
      var table := catalog.tables[t.value];
      var bytes := records.Read(id);
      if bytes.Err? {
        return Err(OutOfRange);
      }
      RowOrNot(catalog.tables, table, records.Contents(), id);
      var e := Parse(bytes.value);
      if e.Err? {
        return Err(e.error);
      }
      if e.value.table != table.name {
        return Err(InvalidArgument);
      }
      r := DecodeRow(table, e.value);
    }

    /**
     Removes a row and its entry in every index of its table. It succeeds exactly if every index lists the
     row. If one does not, the row stays, and every entry taken out before is put back, unless its index
     loses it.
     */
    method Erase(tableName: Text, id: RecordId) returns (r: Result<bool>)
      requires Valid() && |records.Slots()| + 2 * |catalog.indexes| <= MAX_PAGES
      modifies this`trees, records, records.pool, records.pool.heap
      ensures Valid() && (old(InStep()) ==> InStep())
      ensures |records.Slots()| <= |old(records.Slots())| + 2 * |catalog.indexes|
      ensures var t, m := FindFirst(TableLike(tableName), catalog.tables), old(records.Contents());
        if t == None then r == Err(OutOfRange)
        else if id !in m then r == Ok(false)
        else if id !in Rows(catalog.tables[t.value], m) then r == Err(InvalidArgument)
        else
          && (old(InStep()) ==> r == Ok(true))
          && EraseOutcome(catalog.tables, catalog.indexes, old(trees), trees, m, records.Contents(),
                          catalog.tables[t.value], id, r)
      ensures r != Ok(true) ==> SameRows(old(records.Contents()), records.Contents())
      ensures r == Ok(false) || r == Err(OutOfRange) || r == Err(InvalidArgument) ==> SameEntries(old(trees), trees)
    {
      hide Forest, RecordStore.Contents, PoolSlots, TableOk, HasUnpinned, SameName, Kept, Parse, DecodeRow, Rows,
           TablesOk, RecordOk, RowTuple, SameRows, SameEntries, EraseOutcome, Agreeing, IndexesOk, ValidTuple,
           BufferPool.Valid;
      SameRowsRefl(records.Contents());
      SameEntriesRefl(trees);
      var t := FindFirst(TableLike(tableName), catalog.tables);
      if t == None {
        return Err(OutOfRange);
      }
      var table := catalog.tables[t.value];
      var bytes := records.Read(id);
      if bytes.Err? {
        return Ok(false);
      }
      RowOrNot(catalog.tables, table, records.Contents(), id);
      var e := Parse(bytes.value);
      if e.Err? {
        return Err(e.error);
      }
      if e.value.table != table.name {
        return Err(InvalidArgument);
      }
      var values := DecodeRow(table, e.value);
      if values.Err? {
        return Err(TableCorruption);
      }
      r := EraseRow(table, id, values.value);
    }

    /** Removes a row that has been read. */
    method EraseRow(table: TableDefinition, id: RecordId, values: Tuple) returns (r: Result<bool>)
      requires Valid() && |records.Slots()| + 2 * |catalog.indexes| <= MAX_PAGES
      requires table in catalog.tables
      requires id in Rows(table, records.Contents()) && Rows(table, records.Contents())[id] == values
      modifies this`trees, records, records.pool, records.pool.heap
      ensures Valid() && (old(InStep()) ==> InStep() && r == Ok(true))
      ensures |records.Slots()| <= |old(records.Slots())| + 2 * |catalog.indexes|
      ensures EraseOutcome(catalog.tables, catalog.indexes, old(trees), trees, old(records.Contents()), records.Contents(),
                           table, id, r)
      ensures r != Ok(true) ==> r == Err(TableCorruption) && SameRows(old(records.Contents()), records.Contents())
    {
      hide Forest, RecordStore.Contents, PoolSlots, TableOk, HasUnpinned, SameName, Kept, Rows, TablesOk, RowsOk,
           Opened, SameRows, EraseOutcome, Agreeing, IndexesOk, ValidTuple, KeyedBy, KeysFor, Positions, RowTuple,
           BufferPool.Valid;
      ghost var m := records.Contents();
      RowsFit(table, m);
      var opened';
      ghost var at;
      opened', at := OpenIndexes(table, values);
      if opened'.Err? {
        return Err(IndexCorruption);
      }
      OpenedKeyed(opened'.value, at, catalog.tables, catalog.indexes, table.name, values);
      LiveIdsFit(records);
      r := UnlistRow(table, values, id, opened'.value, at);
    }

    /** Takes a row out of the opened indexes and drops its record, or puts its entries back. */
    method UnlistRow(table: TableDefinition, values: Tuple, id: RecordId, indexes: seq<OpenIndex>, ghost at: seq<nat>)
      returns (r: Result<bool>)
      requires Valid() && Opened(indexes, at, trees, records)
      requires KeyedBy(indexes, at, KeysOf(catalog.tables, catalog.indexes, table.name, values))
      requires IdFits(id) && |records.Slots()| + 2 * |indexes| <= MAX_PAGES && table in catalog.tables
      requires id in Rows(table, records.Contents()) && Rows(table, records.Contents())[id] == values
      modifies this`trees, records, records.pool, records.pool.heap, set k | 0 <= k < |indexes| :: indexes[k].tree
      ensures Valid() && (old(InStep()) ==> InStep() && r == Ok(true))
      ensures |records.Slots()| <= |old(records.Slots())| + 2 * |indexes|
      ensures EraseOutcome(catalog.tables, catalog.indexes, old(trees), trees, old(records.Contents()), records.Contents(),
                           table, id, r)
      ensures r != Ok(true) ==> r == Err(TableCorruption) && SameRows(old(records.Contents()), records.Contents())
    {
      hide Forest, RecordStore.Contents, PoolSlots, TableOk, HasUnpinned, SameName, Kept, Rows, TablesOk, RowsOk,
           Opened, SameRows, EraseOutcome, Agreeing, IndexesOk, KeyedBy, RemovedIn, RestoredBut, AtSet, StoppedAt,
           BufferPool.Valid, HeapFile.Valid, KeyedOnes, FirstMissing, UndoneBefore, ListedEverywhere, RowTuple;
      ghost var was, m := trees, records.Contents();
      ghost var keys := KeysOf(catalog.tables, catalog.indexes, table.name, values);
      var removed, done;
      ghost var stop;
      removed, done, stop := RemoveEntries(indexes, at, keys, id);
      ghost var m1 := records.Contents();
      if done.Err? {
        ghost var mid := trees;
        PutBack(indexes, at, keys, id, removed, was);
        SameRowsTrans(m, m1, records.Contents());
        UndoneAtStop(was, mid, trees, indexes, at, keys, id, removed, stop);
        MissingMeansOutOfStep(catalog.tables, catalog.indexes, was, m, table, id, keys, at[stop]);
        EraseUndone(catalog.tables, catalog.indexes, was, trees, m, records.Contents(), table, id, values, keys, at[stop]);
        return Err(done.error);
      }
      AllRemoved(catalog.tables, catalog.indexes, was, trees, m, m1, table, id, values, indexes, at, keys, removed);
      var erased := records.Erase(id);
      assert erased;
      r := Ok(true);
    }

    /** Takes a row out of the opened indexes one after the other, up to the first that does not list it. */
    method RemoveEntries(os: seq<OpenIndex>, ghost at: seq<nat>, ghost keys: seq<Option<int64>>, id: RecordId)
      returns (removed: seq<nat>, r: Result<()>, ghost stop: nat)
      requires Working(os, at) && KeyedBy(os, at, keys) && |keys| == |trees|
      modifies this`trees, records.pool, records.pool.heap, set k | 0 <= k < |os| :: os[k].tree
      ensures Working(os, at) && SameRows(old(records.Contents()), records.Contents())
      ensures |records.Slots()| == |old(records.Slots())| && |trees| == |old(trees)|
      ensures RemovedIn(old(trees), trees, keys, id, AtSet(at, removed))
      ensures KeyedOnes(os, removed) && |removed| <= |os|
      ensures StoppedAt(os, removed, stop) && (r.Ok? ==> stop == |os|)
      ensures r.Err? ==> r.error == TableCorruption && stop < |os| == |at| && at[stop] < |old(trees)| && os[stop].key.Some?
                         && Entry(os[stop].key.value, id) !in EntrySet(old(trees)[at[stop]])
    {
      hide Forest, SameRows, RecordStore.Contents, PoolSlots, TableOk, HasUnpinned, Opened, KeyedBy, RemovedIn,
           EntrySet, EraseFrom, AtSet, BufferPool.Valid;
      ghost var was := trees;
      SameRowsRefl(records.Contents());
      NothingRemoved(was, keys, id, at);
      removed, stop := [], 0;
      for k := 0 to |os|
        invariant Working(os, at) && SameRows(old(records.Contents()), records.Contents()) && |trees| == |was|
        invariant |records.Slots()| == |old(records.Slots())|
        invariant RemovedIn(was, trees, keys, id, AtSet(at, removed))
        invariant KeyedOnes(os, removed) && |removed| <= k && StoppedAt(os, removed, k)
      {
        if os[k].key == None {
          continue;
        }
        KeyedAt(os, at, keys, trees, records, k);
        ghost var now, m := trees, records.Contents();
        StillListed(was, now, os, at, keys, id, removed, k);
        var dropped := DropEntry(os, at, k, id);
        SameRowsTrans(old(records.Contents()), m, records.Contents());
        r, stop := Err(IndexCorruption), k;
        if dropped.Err? {
          return;
        }
        if !dropped.value {
          r := Err(TableCorruption);
          return;
        }
        RemovedMore(was, now, trees, os, at, keys, id, removed, k);
        StoppedMore(os, removed, k);
        removed := removed + [k];
      }
      r, stop := Ok(()), |os|;
    }

    /** Lists a row again in the indexes it was removed from, the last one first; refusals are passed over. */
    method PutBack(os: seq<OpenIndex>, ghost at: seq<nat>, ghost keys: seq<Option<int64>>, id: RecordId,
                   removed: seq<nat>, ghost was: seq<Tree>)
      requires Working(os, at) && KeyedBy(os, at, keys) && |keys| == |trees| && IdFits(id)
      requires |records.Slots()| + 2 * |removed| <= MAX_PAGES
      requires KeyedOnes(os, removed) && RemovedIn(was, trees, keys, id, AtSet(at, removed))
      modifies this`trees, records, records.pool, records.pool.heap, set k | 0 <= k < |os| :: os[k].tree
      ensures Working(os, at) && SameRows(old(records.Contents()), records.Contents())
      ensures |records.Slots()| <= |old(records.Slots())| + 2 * |removed|
      ensures RestoredBut(was, trees, keys, id, AtSet(at, removed), {}) && |trees| == |old(trees)|
    {
      hide Forest, SameRows, RecordStore.Contents, PoolSlots, TableOk, HasUnpinned, Opened, KeyedBy, RemovedIn,
           EntrySet, EraseFrom, AtSet, RestoredBut, Rejects, BufferPool.Valid;
      SameRowsRefl(records.Contents());
      RemovedIsRestorable(was, trees, keys, id, AtSet(at, removed));
      var position := |removed|;
      assert removed[..position] == removed;
      while position > 0
        invariant position <= |removed|
        invariant Working(os, at) && SameRows(old(records.Contents()), records.Contents()) && |trees| == |keys|
        invariant |records.Slots()| <= |old(records.Slots())| + 2 * (|removed| - position)
        invariant RestoredBut(was, trees, keys, id, AtSet(at, removed), AtSet(at, removed[..position]))
      {
        position := position - 1;
        var k := removed[position];
        KeyedAt(os, at, keys, trees, records, k);
        ghost var now, m := trees, records.Contents();
        var added := AddEntry(os, at, k, id);
        SameRowsTrans(old(records.Contents()), m, records.Contents());
        PutBackOne(was, now, trees, os, at, keys, id, removed, position, added);
      }
      NothingLeftRemoved(at, removed);
    }

    /**
     Builds an index over the rows that a table has, and registers it. Once the arguments are right, it
     fails exactly if the record of the definition does not fit a page or the keys, added in record order,
     fill the root, which takes at least 8256 of them; then no index has been added.
     */
    method CreateIndex(indexName: Text, tableName: Text, columnName: Text, ghost most: nat) returns (r: Result<RecordId>)
      requires Valid() && AtMost(catalog.tables, records.Contents(), most)
      requires |records.Slots()| + 3 + 2 * most <= MAX_PAGES
      modifies this`trees, catalog`indexes, records, records.pool, records.pool.heap
      ensures Valid() && (old(InStep()) ==> InStep())
      ensures |records.Slots()| <= |old(records.Slots())| + 3 + 2 * most
      ensures SameRows(old(records.Contents()), records.Contents())
      ensures r.Err? ==> catalog.indexes == old(catalog.indexes) && trees == old(trees)
      ensures r.Ok? ==> IndexCreated(catalog.tables, old(catalog.indexes), catalog.indexes, old(trees), trees,
                                     old(records.Contents()), indexName, tableName, columnName)
      ensures if !Definable(catalog.tables, old(catalog.indexes), indexName, tableName, columnName)
              then r == Err(DefinitionError(catalog.tables, old(catalog.indexes), indexName, tableName))
              else if !DefinitionFits(catalog.tables, indexName, tableName, columnName) then r == Err(PageFull)
              else
                && (r.Ok? <==> KeysFit(catalog.tables, old(records.Contents()), tableName, columnName))
                && (r.Err? ==> r.error == PageFull && TooManyKeys(catalog.tables, old(records.Contents()), tableName, columnName))
    {
      hide Forest, RecordStore.Contents, PoolSlots, TableOk, HasUnpinned, SameName, TablesOk, RowsOk, SameRows,
           Agreeing, IndexesOk, Scanned, AtMost, KeyedEntries, NewIndex, BPlusTreeIndex.Matches, TargetOk, FindFirst,
           Rows, RowTuple, BufferPool.Valid;
      SameRowsRefl(records.Contents());
      if indexName == [] || |indexName| > MAX_NAME || FindFirst(IndexLike(indexName), catalog.indexes).Some? {
        return Err(InvalidArgument);
      }
      var t := FindFirst(TableLike(tableName), catalog.tables);
      if t == None {
        return Err(OutOfRange);
      }
      var table := catalog.tables[t.value];
      var c := FindFirst(ColumnLike(columnName), table.schema);
      if c == None || table.schema[c.value].dataType != Integer {
        return Err(InvalidArgument);
      }
      r := BuildIndex(indexName, table, t.value, c.value, most);
    }

    /** Builds and registers an index on column c of the table. */
    method BuildIndex(indexName: Text, table: TableDefinition, ghost t: nat, c: nat,
                      ghost most: nat) returns (r: Result<RecordId>)
      requires Valid() && AtMost(catalog.tables, records.Contents(), most)
      requires |records.Slots()| + 3 + 2 * most <= MAX_PAGES
      requires NameOk(indexName) && FindFirst(IndexLike(indexName), catalog.indexes) == None
      requires t < |catalog.tables| && table == catalog.tables[t]
      requires c < |table.schema| && table.schema[c].dataType == Integer
      modifies this`trees, catalog`indexes, records, records.pool, records.pool.heap
      ensures Valid() && (old(InStep()) ==> InStep())
      ensures |records.Slots()| <= |old(records.Slots())| + 3 + 2 * most
      ensures SameRows(old(records.Contents()), records.Contents())
      ensures r.Err? ==> catalog.indexes == old(catalog.indexes) && trees == old(trees)
      ensures r.Ok? ==> NewIndex(catalog.tables, old(catalog.indexes), catalog.indexes, old(trees), trees,
                                 old(records.Contents()), indexName, table, c)
      ensures if IndexRecordSize(indexName, table, c) > MAX_RECORD_BYTES then r == Err(PageFull) else
        && (r.Ok? <==> Filled(EntryList(Scanned(table, old(records.Contents())), c)).Some?)
        && (r.Err? ==> r.error == PageFull && |KeyedEntries(Scanned(table, old(records.Contents())), c)| >= SURE_CAPACITY)
    {
      hide Forest, RecordStore.Contents, PoolSlots, TableOk, HasUnpinned, SameName, TablesOk, RowsOk, SameRows,
           Agreeing, IndexesOk, Scanned, AtMost, NewIndex, KeyedEntries, BPlusTreeIndex.Matches, TargetOk, FindFirst,
           Rows, WellFormed, Stored, EntrySet, Registrable, Normalized, ValidTable, StrictlySorted, HasTree, HasMagic,
           Filled, EntryList, IndexRecord, KeyAt, EntryFor, RowTuple, BufferPool.Valid;
      ghost var was, m := trees, records.Contents();
      TableFound(catalog.tables, t);
      ScanFacts(catalog.tables, table, m, most);
      var rows := Scan(table.name);
      var built := Backfill(table, c, rows.value);
      SameRowsMeans(catalog.tables, m, records.Contents());
      SameEntriesRefl(was);
      RowsKeptOk(catalog.tables, catalog.indexes, was, was, m, records.Contents());
      if built.Err? {
        return Err(built.error);
      }
      var index := built.value;
      ghost var m1 := records.Contents();
      var definition := IndexDefinition(indexName, table.name, table.schema[c].name, index.headerId);
      DefinitionRegistrable(catalog.tables, catalog.indexes, was, m, definition, t, c);
      TreeThere(m1, index.tree);
      r := catalog.RegisterIndex(definition);
      if r.Err? {
        return;
      }
      RecordBesides(m1, records.Contents(), r.value, IndexRecord(definition), was + [index.tree]);
      SameRowsTrans(m, m1, records.Contents());
      RowsKeptOk(catalog.tables, old(catalog.indexes), was, was, m, records.Contents());
      trees := trees + [index.tree];
      IndexInStep(catalog.tables, old(catalog.indexes), was, index.tree, m, records.Contents(), definition, table, c);
    }

    /** A new tree with the keys of the given rows. */
    method Backfill(table: TableDefinition, c: nat, rows: seq<TableRow>) returns (r: Result<BPlusTreeIndex>)
      requires Valid() && table in catalog.tables && c < |table.schema| && table.schema[c].dataType == Integer
      requires |records.Slots()| + 2 + 2 * |rows| <= MAX_PAGES && StrictlySorted(ById(), rows)
      requires forall k :: 0 <= k < |rows| ==> rows[k].id in records.Contents() && ValidTuple(table.schema, rows[k].values)
      modifies records, records.pool, records.pool.heap
      ensures records.Ready() && |records.Slots()| <= |old(records.Slots())| + 2 + 2 * |rows|
      ensures SameRows(old(records.Contents()), records.Contents()) && Forest(records.Contents(), trees)
      ensures r.Ok? ==> && fresh(r.value) && r.value.records == records && r.value.Matches()
                        && WellFormed(r.value.tree) && r.value.tree.header == r.value.headerId
                        && Stored(records.Contents(), r.value.tree)
                        && Forest(records.Contents(), trees + [r.value.tree])
                        && r.value.headerId !in old(records.Contents())
                        && EntrySet(r.value.tree) == KeyedEntries(rows, c)
      ensures r.Ok? <==> Filled(EntryList(rows, c)).Some?
      ensures r.Err? ==> r.error == PageFull && |KeyedEntries(rows, c)| >= SURE_CAPACITY
    {
      hide Forest, RecordStore.Contents, PoolSlots, TableOk, HasUnpinned, SameRows, EntrySet, KeyedEntries,
           WellFormed, Stored, OutsideKept, InsertedBy, Rejects, HalfFull, StrictlySorted, ValidTuple, EntryFor,
           KeyAt, catalog.Valid, RowsOk, HasShape, EntryList, Filled, BufferPool.Valid;
      ghost var m := records.Contents();
      LiveIdsFit(records);
      var index := BPlusTreeIndex.Create(records);
      CreatedForest(m, records.Contents(), trees, index.tree);
      EmptyShape(index.tree, rows, c);
      NoKeys(rows, c);
      ghost var h := index.headerId;
      for k := 0 to |rows|
        invariant fresh(index) && index.records == records && index.headerId == h && index.Valid()
        invariant Forest(records.Contents(), trees + [index.tree]) && SameRows(m, records.Contents())
        invariant HalfFull(index.tree) && EntrySet(index.tree) == KeyedEntries(rows[..k], c)
        invariant HasShape(index.tree, EntryList(rows[..k], c))
        invariant |records.Slots()| <= |old(records.Slots())| + 2 + 2 * k
      {
        KeyOrNull(table, rows[k].values, c);
        KeyedEntriesStep(rows, c, k);
        EntryListStep(rows, c, k);
        EntryIs(rows[k], c);
        if rows[k].values[c].Null? {
          continue;
        }
        ghost var m1, t := records.Contents(), index.tree;
        var inserted := index.Insert(rows[k].values[c].i, rows[k].id);
        BackfillStep(m1, records.Contents(), trees, t, index.tree);
        SameRowsTrans(m, m1, records.Contents());
        if inserted.Err? {
          RefusedWhenLarge(t, Entry(rows[k].values[c].i, rows[k].id));
          KeyedEntriesPrefix(rows, c, k);
          ShapeRefuses(t, Entry(rows[k].values[c].i, rows[k].id), rows, c, k);
          ForestPrefix(records.Contents(), trees, index.tree);
          return Err(inserted.error);
        }
        if !inserted.value {
          return Err(TableCorruption);
        }
        GrownHalfFull(t, Entry(rows[k].values[c].i, rows[k].id), index.tree);
        ShapeGrows(t, Entry(rows[k].values[c].i, rows[k].id), index.tree, EntryList(rows[..k], c));
      }
      assert rows[..|rows|] == rows;
      ShapeIsFilled(index.tree, EntryList(rows, c));
      ForestPrefix(records.Contents(), trees, index.tree);
      r := Ok(index);
    }

    /** Opens an index by name, and finds its table and column. */
    method OpenNamed(indexName: Text) returns (r: Result<(BPlusTreeIndex, TableDefinition, nat)>)
      requires Valid()
      modifies records.pool, records.pool.heap
      ensures Valid() && records.Slots() == old(records.Slots()) && records.Contents() == old(records.Contents())
      ensures var i := FindFirst(IndexLike(indexName), catalog.indexes);
        if i == None then r == Err(OutOfRange) else
          var table := TableOf(catalog.tables, catalog.indexes[i.value]);
          && r.Ok? && fresh(r.value.0) && r.value.0.Valid() && r.value.0.records == records
          && r.value.0.tree == trees[i.value] && WellFormed(trees[i.value]) && table in catalog.tables
          && r.value.1 == table && r.value.2 == ColumnOf(table, catalog.indexes[i.value].column)
    {
      hide WellFormed, Stored, Forest, RowsOk, TargetOk, TablesOk, RecordStore.Contents, PoolSlots, TableOk,
           HasUnpinned, SameName, FindFirst, TableOf, ColumnOf, BufferPool.Valid;
      var i := FindFirst(IndexLike(indexName), catalog.indexes);
      if i == None {
        return Err(OutOfRange);
      }
      var definition := catalog.indexes[i.value];
      IndexTable(catalog.tables, definition);
      var t := FindFirst(TableLike(definition.table), catalog.tables);
      if t == None {
        return Err(OutOfRange);
      }
      var table := catalog.tables[t.value];
      var c := FindFirst(ColumnIs(definition.column), table.schema);
      if c == None || table.schema[c.value].dataType != Integer {
        return Err(CatalogCorruption);
      }
      var opened' := BPlusTreeIndex.Open(records, definition.headerId);
      TreeOfForest(records.Contents(), trees, i.value);
      if opened'.Err? {
        return Err(IndexCorruption);
      }
      StoredUnique(records.Contents(), opened'.value.tree, trees[i.value]);
      r := Ok((opened'.value, table, c.value));
    }

    /** Reads the row that an index entry stands for, checking that it does. */
    method ReadIndexRow(table: TableDefinition, c: nat, key: int64, id: RecordId) returns (r: Result<TableRow>)
      requires Valid() && table in catalog.tables && c < |table.schema| && table.schema[c].dataType == Integer
      modifies records.pool, records.pool.heap
      ensures Valid() && records.Slots() == old(records.Slots()) && records.Contents() == old(records.Contents())
      ensures var rows := Rows(table, records.Contents());
        r == if Matching(rows, c, Entry(key, id)) then Ok(TableRow(id, rows[id])) else Err(TableCorruption)
    {
      hide Forest, RecordStore.Contents, PoolSlots, TableOk, HasUnpinned, SameName, Kept, Parse, DecodeRow, Rows,
           TablesOk, RecordOk, RowTuple, KeyAt, ValidTuple, BufferPool.Valid;
      var bytes := records.Read(id);
      if bytes.Err? {
        return Err(TableCorruption);
      }
      RowOrNot(catalog.tables, table, records.Contents(), id);
      var e := Parse(bytes.value);
      if e.Err? || e.value.table != table.name {
        return Err(TableCorruption);
      }
      var values := DecodeRow(table, e.value);
      if values.Err? {
        return Err(TableCorruption);
      }
      RowsFit(table, records.Contents());
      KeyOrNull(table, values.value, c);
      KeyIs(values.value, c);
      if values.value[c].Null? || values.value[c].i != key {
        return Err(TableCorruption);
      }
      r := Ok(TableRow(id, values.value));
    }

    /** Reads the rows of index entries in the given order. */
    method ReadIndexRows(table: TableDefinition, c: nat, es: seq<Entry>) returns (r: Result<seq<TableRow>>)
      requires Valid() && table in catalog.tables && c < |table.schema| && table.schema[c].dataType == Integer
      modifies records.pool, records.pool.heap
      ensures Valid() && records.Slots() == old(records.Slots()) && records.Contents() == old(records.Contents())
      ensures RowsRead(Rows(table, records.Contents()), c, es, r)
    {
      hide Forest, RecordStore.Contents, PoolSlots, TableOk, HasUnpinned, SameName, Rows, TablesOk, RowsOk, Matching,
           catalog.Valid, RowTuple, BufferPool.Valid;
      ghost var m := records.Contents();
      var rows: seq<TableRow> := [];
      for k := 0 to |es|
        invariant Valid() && records.Slots() == old(records.Slots()) && records.Contents() == m
        invariant RowsRead(Rows(table, m), c, es[..k], Ok(rows))
      {
        var row := ReadIndexRow(table, c, es[k].key, es[k].value);
        RowsReadStep(Rows(table, m), c, es, k, rows);
        if row.Err? {
          return Err(row.error);
        }
        rows := rows + [row.value];
      }
      assert es[..|es|] == es;
      r := Ok(rows);
    }

    /** The rows that an index lists under a key, up to the limit: the filtered scan, if the index is in step. */
    method LookupIndex(indexName: Text, key: int64, limit: Option<nat>) returns (r: Result<seq<TableRow>>)
      requires Valid()
      modifies records.pool, records.pool.heap
      ensures Valid() && records.Slots() == old(records.Slots()) && records.Contents() == old(records.Contents())
      ensures var i, m := FindFirst(IndexLike(indexName), catalog.indexes), records.Contents();
        if i == None then r == Err(OutOfRange) else
          var table := TableOf(catalog.tables, catalog.indexes[i.value]);
          var c := ColumnOf(table, catalog.indexes[i.value].column);
          && (InStep() ==> r == Ok(Take(Filter(HasKey(c, key), Scanned(table, m)), limit)))
          && (r.Ok? ==> forall row :: row in r.value ==> row in Scanned(table, m) && HasKey(c, key)(row))
          && (r.Err? ==> r.error == TableCorruption)
    {
      hide Forest, RecordStore.Contents, PoolSlots, TableOk, HasUnpinned, SameName, Rows, TablesOk, RowsOk, Matching,
           Scanned, FindFirst, TargetOk, TableOf, ColumnOf, WellFormed, Agreeing, Flatten, WithKey, Filter, KeyAt,
           BPlusTreeIndex.Matches, Stored, RowTuple, BufferPool.Valid;
      var opened' := OpenNamed(indexName);
      if opened'.Err? {
        return Err(opened'.error);
      }
      var (index, table, c) := opened'.value;
      ghost var i, m := FindFirst(IndexLike(indexName), catalog.indexes).value, records.Contents();
      var ids := index.Find(key, limit);
      if ids.Err? {
        return Err(IndexCorruption);
      }
      KeyColumn(catalog.tables, catalog.indexes, i);
      r := ReadIndexRows(table, c, Under(key, ids.value));
      LookupRows(catalog.tables, table, m, c, r, Under(key, ids.value));
      if Agreeing(catalog.tables, catalog.indexes, trees, m) {
        LookupAgrees(catalog.tables, catalog.indexes, trees, m, i, key, limit, r);
      }
    }

    /**
     The rows of an index range in key order of either direction, record order under one key, up to the
     limit: the filtered scan stably sorted by key, if the index is in step.
     */
    method LookupIndexRange(indexName: Text, lower: Option<int64>, upper: Option<int64>, descending: bool,
                            limit: Option<nat>)
      returns (r: Result<seq<TableRow>>)
      requires Valid()
      modifies records.pool, records.pool.heap
      ensures Valid() && records.Slots() == old(records.Slots()) && records.Contents() == old(records.Contents())
      ensures var i, m := FindFirst(IndexLike(indexName), catalog.indexes), records.Contents();
        if i == None then r == Err(OutOfRange)
        else if lower.Some? && upper.Some? && lower.value > upper.value then r == Err(InvalidArgument)
        else
          var table := TableOf(catalog.tables, catalog.indexes[i.value]);
          var c := ColumnOf(table, catalog.indexes[i.value].column);
          && (InStep() ==>
                r == Ok(Take(StableSort(ByKey(c, descending), Filter(KeyWithin(c, lower, upper), Scanned(table, m))), limit)))
          && (r.Ok? ==> forall row :: row in r.value ==> row in Scanned(table, m) && KeyAt(row.values, c).Some?)
          && (r.Err? ==> r.error == TableCorruption)
    {
      hide Forest, RecordStore.Contents, PoolSlots, TableOk, HasUnpinned, SameName, Rows, TablesOk, RowsOk, Matching,
           Scanned, FindFirst, TargetOk, TableOf, ColumnOf, WellFormed, Agreeing, Flatten, Between, Filter, KeyAt,
           BPlusTreeIndex.Matches, Stored, StableSort, GroupsReversed, RowTuple, BufferPool.Valid;
      var opened' := OpenNamed(indexName);
      if opened'.Err? {
        return Err(opened'.error);
      }
      var (index, table, c) := opened'.value;
      ghost var i, m := FindFirst(IndexLike(indexName), catalog.indexes).value, records.Contents();
      var needsFullRange := descending && (limit == None || limit.value > 0);
      var entries := index.Range(lower, upper, if needsFullRange then None else limit);
      if entries.Err? {
        return Err(InvalidArgument);
      }
      KeyColumn(catalog.tables, catalog.indexes, i);
      if !descending {
        r := ReadIndexRows(table, c, entries.value);
      } else {
        r := ReadDescending(table, c, entries.value, limit);
      }
      ghost var es := if descending then Take(GroupsReversed(entries.value), limit) else entries.value;
      LookupRows(catalog.tables, table, m, c, r, es);
      if Agreeing(catalog.tables, catalog.indexes, trees, m) {
        RangeAgrees(catalog.tables, catalog.indexes, trees, m, i, lower, upper, descending, limit, entries.value, r);
      }
    }

    /** Reads the entries group by group of equal keys, the last group first. */
    method ReadDescending(table: TableDefinition, c: nat, es: seq<Entry>,
                          limit: Option<nat>) returns (r: Result<seq<TableRow>>)
      requires Valid() && table in catalog.tables && c < |table.schema| && table.schema[c].dataType == Integer
      requires limit == Some(0) ==> es == []
      modifies records.pool, records.pool.heap
      ensures Valid() && records.Slots() == old(records.Slots()) && records.Contents() == old(records.Contents())
      ensures RowsRead(Rows(table, records.Contents()), c, Take(GroupsReversed(es), limit), r)
    {
      hide Forest, RecordStore.Contents, PoolSlots, TableOk, HasUnpinned, SameName, Rows, TablesOk, RowsOk, Matching,
           catalog.Valid, GroupsReversed, RowsRead, RowTuple, BufferPool.Valid;
      ghost var m, all := records.Contents(), GroupsReversed(es);
      var rows: seq<TableRow> := [];
      ghost var done: seq<Entry> := [];
      NothingRead(Rows(table, m), c, es);
      var groupEnd: nat := |es|;
      while groupEnd > 0
        invariant groupEnd <= |es| && Valid() && records.Slots() == old(records.Slots()) && records.Contents() == m
        invariant all == done + GroupsReversed(es[..groupEnd]) && |rows| == |done|
        invariant RowsRead(Rows(table, m), c, done, Ok(rows))
        invariant limit.Some? && es != [] ==> |rows| < limit.value
      {
        var groupBegin: nat := groupEnd - 1;
        while groupBegin > 0 && es[groupBegin - 1].key == es[groupEnd - 1].key
          invariant groupBegin < groupEnd
          invariant forall k :: groupBegin <= k < groupEnd ==> es[k].key == es[groupEnd - 1].key
          invariant GroupStart(es[..groupEnd], groupEnd - 1) == GroupStart(es[..groupEnd], groupBegin)
        {
          groupBegin := groupBegin - 1;
        }
        GroupTaken(es, groupBegin, groupEnd);
        var full, group := ReadGroup(table, c, es, groupBegin, groupEnd, limit, rows, done, all);
        if group.Err? || full {
          return group;
        }
        rows, done := group.value, done + es[groupBegin..groupEnd];
        assert all == done + GroupsReversed(es[..groupBegin]);
        groupEnd := groupBegin;
      }
      AllGroupsRead(all, done, es, limit);
      r := Ok(rows);
    }

    /** Reads one group of equal keys behind the rows read so far; `full` says that the limit has been reached. */
    method ReadGroup(table: TableDefinition, c: nat, es: seq<Entry>, begin: nat, end: nat, limit: Option<nat>,
                     before: seq<TableRow>, ghost done: seq<Entry>, ghost all: seq<Entry>)
      returns (full: bool, r: Result<seq<TableRow>>)
      requires Valid() && table in catalog.tables && c < |table.schema| && table.schema[c].dataType == Integer
      requires begin < end <= |es| && done + es[begin..end] <= all && |before| == |done|
      requires RowsRead(Rows(table, records.Contents()), c, done, Ok(before)) && (limit.Some? ==> |before| < limit.value)
      modifies records.pool, records.pool.heap
      ensures Valid() && records.Slots() == old(records.Slots()) && records.Contents() == old(records.Contents())
      ensures r.Err? || full ==> RowsRead(Rows(table, records.Contents()), c, Take(all, limit), r)
      ensures r.Ok? && !full ==>
        && RowsRead(Rows(table, records.Contents()), c, done + es[begin..end], r)
        && |r.value| == |done| + (end - begin) && (limit.Some? ==> |r.value| < limit.value)
    {
      hide Forest, RecordStore.Contents, PoolSlots, TableOk, HasUnpinned, SameName, Rows, TablesOk, RowsOk, Matching,
           catalog.Valid, RowsRead, BufferPool.Valid, Indexed, RowTuple, GotInto, Take, RowsAt, AllMatch;
      ghost var m := records.Contents();
      ghost var stored := Rows(table, m);
      var rows := before;
      ghost var got := done;
      GotNothing(done, es, begin);
      for offset := begin to end
        invariant Valid() && records.Slots() == old(records.Slots()) && records.Contents() == m
        invariant GotInto(got, done, es, begin, offset) && |rows| == |got| == |done| + (offset - begin)
        invariant RowsRead(stored, c, got, Ok(rows))
        invariant limit.Some? ==> |rows| < limit.value
      {
        var row := ReadIndexRow(table, c, es[offset].key, es[offset].value);
        GroupCut(all, got, done, es, begin, end, offset, limit);
        RowsReadMore(stored, c, got, es[offset], rows, Take(all, limit));
        if row.Err? {
          return false, Err(row.error);
        }
        got := got + [es[offset]];
        rows := rows + [row.value];
        if limit == Some(|rows|) {
          return true, Ok(rows);
        }
      }
      GotAll(got, done, es, begin, end);
      full, r := false, Ok(rows);
    }

    /** Carries out one change, whether it succeeds or is refused. */
    method Apply(change: Change, ghost most: nat)
      requires InStep() && AtMost(catalog.tables, records.Contents(), most)
      requires |records.Slots()| + Growth(change, |catalog.indexes|, most) <= MAX_PAGES
      modifies this`trees, catalog`indexes, records, records.pool, records.pool.heap
      ensures InStep() && |records.Slots()| <= |old(records.Slots())| + Growth(change, |old(catalog.indexes)|, most)
      ensures |catalog.indexes| <= |old(catalog.indexes)| + if change.AddIndex? then 1 else 0
      ensures AtMost(catalog.tables, records.Contents(), most + if change.AddRow? then 1 else 0)
    {
      hide Forest, RecordStore.Contents, PoolSlots, TableOk, HasUnpinned, SameRows, Agreeing, IndexesOk, AtMost,
           Agrees, Rows, RowInserted, EraseOutcome, TablesOk, RowsOk, SameEntries, Acceptable, FindFirst, Definable,
           TooManyKeys, KeysFit, ValidTuple, RowTuple, BufferPool.Valid;
      ghost var m := records.Contents();
      match change {
        case AddRow(table, values) =>
          var r := Insert(table, values);
          RowsGrow(catalog.tables, catalog.indexes, old(trees), trees, m, records.Contents(), table, values, r, most);
        case DropRow(table, id) =>
          var r := Erase(table, id);
          RowsShrink(catalog.tables, catalog.indexes, old(trees), trees, m, records.Contents(), table, id, r, most);
        case AddIndex(index, table, column) =>
          var r := CreateIndex(index, table, column, most);
          RowsStay(catalog.tables, m, records.Contents(), most);
      }
    }

    /** After any run of row insertions, row erasures and index creations, every index is in step with its table. */
    method Run(changes: seq<Change>, ghost most: nat)
      requires InStep() && AtMost(catalog.tables, records.Contents(), most)
      requires |records.Slots()| + PagesNeeded(changes, |catalog.indexes|, most) <= MAX_PAGES
      modifies this`trees, catalog`indexes, records, records.pool, records.pool.heap
      ensures InStep() && catalog.tables == old(catalog.tables)
    {
      hide AtMost, RecordStore.Contents, PoolSlots, Agreeing, Growth, PagesNeeded, TableOk, IndexesOk, Forest, RowsOk,
           TablesOk;
      ghost var count, rows := |catalog.indexes|, most;
      assert changes[0..] == changes;
      for i := 0 to |changes|
        invariant InStep() && AtMost(catalog.tables, records.Contents(), rows) && |catalog.indexes| <= count
        invariant |records.Slots()| + PagesNeeded(changes[i..], count, rows) <= MAX_PAGES
        invariant catalog.tables == old(catalog.tables)
      {
        NeededStep(changes, i, |catalog.indexes|, count, rows);
        Apply(changes[i], rows);
        if changes[i].AddIndex? {
          count := count + 1;
        }
        if changes[i].AddRow? {
          rows := rows + 1;
        }
      }
    }
  }

  /** The opened indexes carry the keys that they have to list the row under. */
  ghost predicate KeysFor(os: seq<OpenIndex>, at: seq<nat>, tables: seq<TableDefinition>, indexes: seq<IndexDefinition>,
                          name: Text, values: Tuple)
    requires IndexesOk(tables, indexes)
  {
    && |os| == |at|
    && forall k :: 0 <= k < |os| ==> at[k] < |indexes| && os[k].key == KeyFor(tables, indexes[at[k]], name, values)
  }

  /** A reading with rows delivered before it. */
  function ReadAfter(rows: seq<TableRow>, rest: Result<seq<TableRow>>): Result<seq<TableRow>> {
    if rest.Err? then rest else Ok(rows + rest.value)
  }

  lemma ReadAll(all: seq<TableRow>)
    ensures ReadAfter([], Ok(all)) == Ok(all)
  {
    assert [] + all == all;
  }

  lemma ReadNext(rows: seq<TableRow>, next: Result<Option<TableRow>>, rest: Result<seq<TableRow>>,
                 after: Result<seq<TableRow>>, all: seq<TableRow>)
    requires rest == NextThen(next, after) && ReadAfter(rows, rest) == Ok(all)
    ensures next.Ok?
    ensures next.value == None ==> rows == all
    ensures next.value.Some? ==> ReadAfter(rows + [next.value.value], after) == Ok(all)
  {
    if next.Ok? && next.value == None {
      assert rows + [] == rows;
    } else if next.Ok? && after.Ok? {
      assert rows + ([next.value.value] + after.value) == rows + [next.value.value] + after.value;
    }
  }

  /** A cursor over a sound store reads the rows of a scan. */
  lemma RecordsRead(records: RecordStore, tables: seq<TableDefinition>, table: TableDefinition)
    requires records.Ready() && TablesOk(tables) && table in tables && RowsOk(tables, records.Contents())
    ensures Reading(table, Rest(records.Slots(), 0, 0, |records.Slots()|)) == Ok(Scanned(table, records.Contents()))
  {
    hide Rest, Reading, Scanned, RowsOk, TablesOk, StoreOf, PoolSlots, RowTuple;
    RestIsListing(records.Slots());
    ListingUnique(records.Contents(), Rest(records.Slots(), 0, 0, |records.Slots()|), Listing(records.Contents()));
    ScannedExact(tables, table, records.Contents());
  }

  lemma NothingOpened(indexes: seq<IndexDefinition>, name: Text, trees: seq<Tree>, records: RecordStore)
    ensures Opened([], [], trees, records) && Positions(indexes, name, [], 0)
  {
  }

  lemma PositionsStep(indexes: seq<IndexDefinition>, name: Text, at: seq<nat>, i: nat)
    requires i < |indexes| && Positions(indexes, name, at, i)
    ensures indexes[i].table != name ==> Positions(indexes, name, at, i + 1)
    ensures indexes[i].table == name ==> Positions(indexes, name, at + [i], i + 1)
    ensures i !in at
  {
    if indexes[i].table == name {
      var more := at + [i];
      assert more[|at|] == i;
      assert forall j :: j in at ==> j in more;
    }
  }

  lemma OpenedMore(os: seq<OpenIndex>, at: seq<nat>, trees: seq<Tree>, records: RecordStore, o: OpenIndex, i: nat)
    requires Opened(os, at, trees, records) && i !in at && i < |trees|
    requires forall k :: 0 <= k < |os| ==> os[k].tree != o.tree
    requires o.tree.records == records && o.tree.Matches() && o.tree.tree == trees[i]
    ensures Opened(os + [o], at + [i], trees, records)
  {
    hide BPlusTreeIndex.Matches;
  }

  // ---------------------------------------------------------------- storing a row

  /** The key of the row in every index of the catalog. */
  ghost function KeysOf(tables: seq<TableDefinition>, indexes: seq<IndexDefinition>, name: Text, values: Tuple)
    : (keys: seq<Option<int64>>)
    requires IndexesOk(tables, indexes)
    ensures |keys| == |indexes| && forall i :: 0 <= i < |keys| ==> keys[i] == KeyFor(tables, indexes[i], name, values)
  {
    seq(|indexes|, i requires 0 <= i < |indexes| => KeyFor(tables, indexes[i], name, values))
  }

  /** The row is in its table under a new id, and in every index of the table; nothing else has changed. */
  ghost predicate RowInserted(tables: seq<TableDefinition>, indexes: seq<IndexDefinition>, was: seq<Tree>,
                              now: seq<Tree>,
                              m: Store, m': Store, table: TableDefinition, id: RecordId, values: Tuple)
  {
    && id !in m
    && Rows(table, m') == Rows(table, m)[id := values]
    && (forall other: TableDefinition :: other.name != table.name ==> Rows(other, m') == Rows(other, m))
    && IndexesOk(tables, indexes) && EntriesAdded(tables, indexes, was, now, table.name, id, values)
  }

  /** No index that has to list the row has a full root. */
  ghost predicate RootsHaveRoom(tables: seq<TableDefinition>, indexes: seq<IndexDefinition>, trees: seq<Tree>,
                                name: Text, values: Tuple)
  {
    && IndexesOk(tables, indexes) && |trees| == |indexes|
    && forall i :: 0 <= i < |trees| && KeyFor(tables, indexes[i], name, values).Some? ==>
         |trees[i].leaves| < INTERNAL_CAPACITY
  }

  /** Every index that has to list the row takes it under this id, and does not list it yet. */
  ghost predicate Listable(tables: seq<TableDefinition>, indexes: seq<IndexDefinition>, trees: seq<Tree>,
                           name: Text, id: RecordId, values: Tuple)
  {
    && IndexesOk(tables, indexes) && |trees| == |indexes|
    && forall i :: 0 <= i < |trees| && KeyFor(tables, indexes[i], name, values).Some? ==>
         var e := Entry(KeyFor(tables, indexes[i], name, values).value, id);
         Takes(trees[i], e) && e !in EntrySet(trees[i])
  }

  /** The row fits a page, and every index takes it under the id that it gets. */
  ghost predicate Insertable(tables: seq<TableDefinition>, indexes: seq<IndexDefinition>, trees: seq<Tree>,
                             table: TableDefinition, id: RecordId, values: Tuple)
  {
    && |WrapRow(table, EncodeTuple(values))| <= MAX_RECORD_BYTES
    && Listable(tables, indexes, trees, table.name, id, values)
  }

  /** The table exists, the row fits its schema and a page, and every index has room. */
  ghost predicate Acceptable(tables: seq<TableDefinition>, indexes: seq<IndexDefinition>, trees: seq<Tree>,
                             name: Text, values: Tuple)
  {
    var t := FindFirst(TableLike(name), tables);
    && t.Some? && ValidTuple(tables[t.value].schema, values)
    && |WrapRow(tables[t.value], EncodeTuple(values))| <= MAX_RECORD_BYTES
    && RootsHaveRoom(tables, indexes, trees, tables[t.value].name, values)
  }

  lemma SameEntriesRefl(trees: seq<Tree>)
    ensures SameEntries(trees, trees)
  {
  }

  lemma RowIsRecord(tables: seq<TableDefinition>, table: TableDefinition, values: Tuple)
    requires TablesOk(tables) && table in tables && ValidTuple(table.schema, values)
    ensures WrapRow(table, EncodeTuple(values)) != [] && HasMagic(WrapRow(table, EncodeTuple(values)))
  {
    hide TablesOk, ValidTuple, WrapRow, EncodeTuple, Parse, RecordOk;
    WrappedRow(tables, table, values);
  }

  lemma OpenedKeyed(os: seq<OpenIndex>, at: seq<nat>, tables: seq<TableDefinition>, indexes: seq<IndexDefinition>,
                    name: Text, values: Tuple)
    requires IndexesOk(tables, indexes) && KeysFor(os, at, tables, indexes, name, values)
    requires Positions(indexes, name, at, |indexes|)
    ensures KeyedBy(os, at, KeysOf(tables, indexes, name, values))
    ensures |os| <= |indexes|
  {
    hide TargetOk, TableOf, ColumnOf, KeyAt, SameName;
    PositionsGrow(indexes, name, at, |at|);
  }

  lemma {:induction false} PositionsGrow(indexes: seq<IndexDefinition>, name: Text, at: seq<nat>, k: nat)
    requires Positions(indexes, name, at, |indexes|) && k <= |at|
    ensures forall j :: 0 <= j < k ==> at[j] >= j
    ensures k <= |indexes|
  {
    if k > 0 {
      PositionsGrow(indexes, name, at, k - 1);
      assert at[k - 1] < |indexes|;
      if k >= 2 {
        assert at[k - 2] >= k - 2;
        assert at[k - 2] < at[k - 1];
      }
    }
  }

  /** With the row's record stored, the trees are as before and the row is in its table. */
  lemma RowStored(tables: seq<TableDefinition>, table: TableDefinition, trees: seq<Tree>, m: Store, id: RecordId,
                  values: Tuple)
    requires TablesOk(tables) && table in tables && ValidTuple(table.schema, values) && id !in m && Forest(m, trees)
    ensures var m' := m[id := WrapRow(table, EncodeTuple(values))];
      && Forest(m', trees) && Rows(table, m') == Rows(table, m)[id := values]
      && (forall other: TableDefinition :: other.name != table.name ==> Rows(other, m') == Rows(other, m))
      && (RowsOk(tables, m) ==> RowsOk(tables, m'))
  {
    hide TablesOk, ValidTuple, WrapRow, EncodeTuple, Forest, RowsOk, Rows, HasMagic, RowTuple;
    RowAdded(tables, table, m, id, values);
    ForestFrame(m, m[id := WrapRow(table, EncodeTuple(values))], trees);
  }

  /** Taking the row's record away again leaves the rows as they were in the beginning. */
  lemma RowUnstored(m: Store, m1: Store, m3: Store, trees: seq<Tree>, id: RecordId)
    requires id !in m && id in m1 && HasMagic(m1[id]) && m1 == m[id := m1[id]]
    requires SameRows(m1, m3) && Forest(m3, trees)
    ensures Forest(m3 - {id}, trees) && SameRows(m, m3 - {id})
  {
    hide HasMagic, Forest;
    ForestFrame(m3, m3 - {id}, trees);
  }

  lemma HeadersKept(was: seq<Tree>, now: seq<Tree>, indexes: seq<IndexDefinition>)
    requires SameHeaders(was, now) && |was| == |indexes|
    requires forall i :: 0 <= i < |was| ==> was[i].header == indexes[i].headerId
    ensures |now| == |indexes| && forall i :: 0 <= i < |now| ==> now[i].header == indexes[i].headerId
  {
  }

  /** With the same rows and entries as before, the store is as sound and as much in step as before. */
  lemma RowsKeptOk(tables: seq<TableDefinition>, indexes: seq<IndexDefinition>, was: seq<Tree>, now: seq<Tree>,
                   m: Store, m': Store)
    requires SameRows(m, m') && SameEntries(was, now) && IndexesOk(tables, indexes) && RowsOk(tables, m)
    ensures RowsOk(tables, m')
    ensures Agreeing(tables, indexes, was, m) ==> Agreeing(tables, indexes, now, m')
  {
    hide SameRows, SameEntries, IndexesOk, RowsOk, Agreeing, Rows, RowTuple;
    SameRowsMeans(tables, m, m');
    if Agreeing(tables, indexes, was, m) {
      SameAgrees(tables, indexes, was, now, m, m');
    }
  }

  /** A refusal means a full root, unless the index was out of step. */
  lemma RefusalExplained(tables: seq<TableDefinition>, indexes: seq<IndexDefinition>, was: seq<Tree>, m: Store,
                         table: TableDefinition, id: RecordId, values: Tuple, os: seq<OpenIndex>, at: seq<nat>,
                         updated: nat, error: Error)
    requires IndexesOk(tables, indexes) && id !in m && |was| == |indexes|
    requires KeyedBy(os, at, KeysOf(tables, indexes, table.name, values)) && updated < |os|
    requires RefusedAt(was[at[updated]], os[updated].key, id, error)
    ensures error == PageFull || error == TableCorruption
    ensures error == TableCorruption ==> !Agreeing(tables, indexes, was, m)
    ensures RootsHaveRoom(tables, indexes, was, table.name, values) ==> error == TableCorruption
    ensures !Listable(tables, indexes, was, table.name, id, values)
  {
    hide TargetOk, TableOf, ColumnOf, KeyAt, SameName, EntrySet, RouteLeaf, WellFormed;
    var i := at[updated];
    assert Agreeing(tables, indexes, was, m) ==> IndexAgrees(tables, indexes[i], was[i], m);
  }

  /** When every index has taken the row, it is inserted and the indexes are in step with the rows. */
  lemma RowListed(tables: seq<TableDefinition>, indexes: seq<IndexDefinition>, was: seq<Tree>, now: seq<Tree>,
                  m: Store, m2: Store, table: TableDefinition, id: RecordId, values: Tuple)
    requires TablesOk(tables) && IndexesOk(tables, indexes) && table in tables && ValidTuple(table.schema, values)
    requires |was| == |indexes| && (forall i :: 0 <= i < |was| ==> was[i].header == indexes[i].headerId)
    requires id !in m && SameRows(m[id := WrapRow(table, EncodeTuple(values))], m2) && RowsOk(tables, m)
    requires AddedBelow(was, now, KeysOf(tables, indexes, table.name, values), id, |indexes|)
    ensures |now| == |indexes| && (forall i :: 0 <= i < |now| ==> now[i].header == indexes[i].headerId)
    ensures RowsOk(tables, m2) && RowInserted(tables, indexes, was, now, m, m2, table, id, values)
    ensures Listable(tables, indexes, was, table.name, id, values)
    ensures Agreeing(tables, indexes, was, m) ==> Agreeing(tables, indexes, now, m2)
  {
    hide Takes, TargetOk, TablesOk, ValidTuple, WrapRow, EncodeTuple, RowsOk, Rows, SameRows, EntrySet, Agreeing,
         SameName, KeyFor, RowTuple;
    var m1 := m[id := WrapRow(table, EncodeTuple(values))];
    RowAdded(tables, table, m, id, values);
    SameRowsMeans(tables, m1, m2);
    forall i | 0 <= i < |indexes|
      ensures now[i].header == was[i].header
      ensures EntrySet(now[i]) == EntrySet(was[i]) + EntriesOf(KeyFor(tables, indexes[i], table.name, values), id)
      ensures KeyFor(tables, indexes[i], table.name, values).Some? ==>
        var e := Entry(KeyFor(tables, indexes[i], table.name, values).value, id);
        Takes(was[i], e) && e !in EntrySet(was[i])
    {
      assert AddedTree(was[i], now[i], KeysOf(tables, indexes, table.name, values)[i], id, i < |indexes|);
    }
    if Agreeing(tables, indexes, was, m) {
      AddedAgrees(tables, indexes, was, now, m, m2, table, id, values);
    }
  }

  // ---------------------------------------------------------------- erasing a row

  /** Under a sound store, a record is a row of the table or not; which one, its envelope tells. */
  lemma RowOrNot(tables: seq<TableDefinition>, table: TableDefinition, m: Store, id: RecordId)
    requires TablesOk(tables) && table in tables && RowsOk(tables, m) && id in m
    ensures var e := Parse(m[id]);
      if id in Rows(table, m) then e.Ok? && e.value.table == table.name && DecodeRow(table, e.value) == Ok(Rows(table, m)[id])
      else if e.Ok? then e.value.table != table.name else e.error == InvalidArgument
  {
    hide ValidTable, Folded, DecodeRow, Get;
    assert RecordOk(tables, m[id]);
    RowInOk(tables, table, m[id]);
    hide Parse;
  }

  /**
     If every index lists the row, the erasure has taken place completely. Otherwise the row stays, and
     with k the first index that misses it: indexes before k have their entry back unless they lose it,
     and all others are untouched.
     */
  ghost predicate EraseOutcome(tables: seq<TableDefinition>, indexes: seq<IndexDefinition>, was: seq<Tree>,
                               now: seq<Tree>, m: Store, m': Store, table: TableDefinition, id: RecordId, r: Result<bool>)
  {
    && IndexesOk(tables, indexes) && id in Rows(table, m)
    && var values := Rows(table, m)[id];
    var keys := KeysOf(tables, indexes, table.name, values);
    if ListedEverywhere(was, keys, id) then
      && r == Ok(true) && Rows(table, m') == Rows(table, m) - {id}
      && (forall other: TableDefinition :: other.name != table.name ==> Rows(other, m') == Rows(other, m))
      && EntriesRemoved(tables, indexes, was, now, table.name, id, values)
    else
      && r == Err(TableCorruption) && SameRows(m, m')
      && exists k :: FirstMissing(was, keys, id, k) && UndoneBefore(was, now, keys, id, k)
  }

  /** The catalog positions of some opened indexes. */
  ghost function AtSet(at: seq<nat>, some: seq<nat>): set<nat> {
    set j | 0 <= j < |some| && some[j] < |at| :: at[some[j]]
  }

  /** Different opened indexes that have a key for the row. */
  ghost predicate KeyedOnes(os: seq<OpenIndex>, some: seq<nat>) {
    && (forall j :: 0 <= j < |some| ==> some[j] < |os| && os[some[j]].key.Some?)
    && forall i, j :: 0 <= i < j < |some| ==> some[i] != some[j]
  }

  /** Exactly the opened indexes below `stop` that have a key for the row. */
  ghost predicate StoppedAt(os: seq<OpenIndex>, removed: seq<nat>, stop: nat) {
    forall j :: j in removed <==> 0 <= j < stop && j < |os| && os[j].key.Some?
  }

  lemma StoppedMore(os: seq<OpenIndex>, removed: seq<nat>, k: nat)
    requires StoppedAt(os, removed, k) && k < |os| && os[k].key.Some?
    ensures StoppedAt(os, removed + [k], k + 1)
  {
  }

  lemma NothingRemoved(was: seq<Tree>, keys: seq<Option<int64>>, id: RecordId, at: seq<nat>)
    requires |was| == |keys|
    ensures RemovedIn(was, was, keys, id, AtSet(at, []))
  {
  }

  lemma AtDistinct(os: seq<OpenIndex>, at: seq<nat>, keys: seq<Option<int64>>, i: nat, j: nat)
    requires KeyedBy(os, at, keys) && i < |os| && j < |os| && i != j
    ensures |at| == |os| && at[i] != at[j] && at[i] < |keys|
  {
  }

  lemma AtSetMore(os: seq<OpenIndex>, at: seq<nat>, keys: seq<Option<int64>>, some: seq<nat>, k: nat)
    requires KeyedBy(os, at, keys) && k < |os|
    requires forall j :: 0 <= j < |some| ==> some[j] < |os| && some[j] != k
    ensures |at| == |os| && at[k] !in AtSet(at, some) && AtSet(at, some + [k]) == AtSet(at, some) + {at[k]}
  {
    hide KeyedBy;
    AtLength(os, at, keys);
    forall j | 0 <= j < |some|
      ensures at[some[j]] != at[k]
    {
      AtDistinct(os, at, keys, some[j], k);
    }
    var more := some + [k];
    assert more[|some|] == k;
    assert forall j :: 0 <= j < |some| ==> more[j] == some[j];
  }

  lemma AtLength(os: seq<OpenIndex>, at: seq<nat>, keys: seq<Option<int64>>)
    requires KeyedBy(os, at, keys)
    ensures |at| == |os| && forall k :: 0 <= k < |at| ==> at[k] < |keys| && os[k].key == keys[at[k]]
  {
  }

  /** An index that has not been worked on is as it was. */
  lemma StillListed(was: seq<Tree>, now: seq<Tree>, os: seq<OpenIndex>, at: seq<nat>, keys: seq<Option<int64>>,
                    id: RecordId, removed: seq<nat>, k: nat)
    requires KeyedBy(os, at, keys) && k < |os| && RemovedIn(was, now, keys, id, AtSet(at, removed))
    requires forall j :: 0 <= j < |removed| ==> removed[j] < k
    ensures |at| == |os| && at[k] < |was| == |now| && now[at[k]] == was[at[k]]
  {
    hide KeyedBy, AtSet, RemovedTree;
    AtLength(os, at, keys);
    AtSetMore(os, at, keys, removed, k);
  }

  lemma RemovedMore(was: seq<Tree>, now: seq<Tree>, then': seq<Tree>, os: seq<OpenIndex>, at: seq<nat>,
                    keys: seq<Option<int64>>, id: RecordId, removed: seq<nat>, k: nat)
    requires KeyedBy(os, at, keys) && k < |os| && os[k].key.Some?
    requires RemovedIn(was, now, keys, id, AtSet(at, removed))
    requires forall j :: 0 <= j < |removed| ==> removed[j] < k
    requires |then'| == |now| && at[k] < |now| && then' == now[at[k] := then'[at[k]]]
    requires WellFormed(now[at[k]]) && then'[at[k]].header == now[at[k]].header
    requires var t, e := now[at[k]], Entry(os[k].key.value, id);
      e in EntrySet(t) && EraseFrom(t, e) == Some(then'[at[k]]) && EntrySet(then'[at[k]]) == EntrySet(t) - {e}
    ensures RemovedIn(was, then', keys, id, AtSet(at, removed + [k]))
  {
    hide KeyedBy, AtSet, RemovedIn, EntrySet, EraseFrom, WellFormed;
    AtLength(os, at, keys);
    AtSetMore(os, at, keys, removed, k);
    StillListed(was, now, os, at, keys, id, removed, k);
    RemovedOne(was, now, then', keys, id, AtSet(at, removed), at[k]);
  }

  lemma PutBackOne(was: seq<Tree>, now: seq<Tree>, then': seq<Tree>, os: seq<OpenIndex>, at: seq<nat>,
                   keys: seq<Option<int64>>, id: RecordId, removed: seq<nat>, position: nat, r: Result<bool>)
    requires KeyedBy(os, at, keys) && KeyedOnes(os, removed) && position < |removed|
    requires RestoredBut(was, now, keys, id, AtSet(at, removed), AtSet(at, removed[..position + 1]))
    requires var k := removed[position];
      && |then'| == |now| && at[k] < |now| && then' == now[at[k] := then'[at[k]]]
      && then'[at[k]].header == now[at[k]].header && WellFormed(now[at[k]])
      && var t, e := now[at[k]], Entry(os[k].key.value, id);
      && (r == Ok(false) <==> e in EntrySet(t)) && (r.Err? <==> Rejects(t, e))
      && (r == Ok(true) ==> EntrySet(then'[at[k]]) == EntrySet(t) + {e}) && (r != Ok(true) ==> then' == now)
    ensures RestoredBut(was, then', keys, id, AtSet(at, removed), AtSet(at, removed[..position]))
  {
    hide KeyedBy, AtSet, EntrySet, Rejects, WellFormed, RemovedTree, PutBackTree;
    var k := removed[position];
    assert removed[..position + 1] == removed[..position] + [k];
    AtLength(os, at, keys);
    AtSetMore(os, at, keys, removed[..position], k);
    AtSetHas(at, removed, position);
    PutBackRestores(was[at[k]], now[at[k]], then'[at[k]], keys[at[k]], id, r);
    hide RestoredBut;
    RestoredOne(was, now, then', keys, id, AtSet(at, removed), AtSet(at, removed[..position + 1]), at[k]);
    assert AtSet(at, removed[..position + 1]) - {at[k]} == AtSet(at, removed[..position]);
  }

  lemma AtSetHas(at: seq<nat>, some: seq<nat>, j: nat)
    requires j < |some| && some[j] < |at|
    ensures at[some[j]] in AtSet(at, some)
  {
  }

  lemma NothingLeftRemoved(at: seq<nat>, removed: seq<nat>)
    ensures AtSet(at, removed[..0]) == {}
  {
  }

  /** Where the removal stopped is the first index that misses the row, and all before it have been undone. */
  lemma UndoneAtStop(was: seq<Tree>, mid: seq<Tree>, now: seq<Tree>, os: seq<OpenIndex>, at: seq<nat>,
                     keys: seq<Option<int64>>, id: RecordId, removed: seq<nat>, stop: nat)
    requires KeyedBy(os, at, keys) && stop < |os| && os[stop].key.Some? && StoppedAt(os, removed, stop)
    requires RemovedIn(was, mid, keys, id, AtSet(at, removed)) && RestoredBut(was, now, keys, id, AtSet(at, removed), {})
    requires stop < |at| && at[stop] < |was| && Entry(os[stop].key.value, id) !in EntrySet(was[at[stop]])
    ensures at[stop] < |keys| && FirstMissing(was, keys, id, at[stop]) && UndoneBefore(was, now, keys, id, at[stop])
  {
    hide KeyedBy, EntrySet, PutBackTree, WellFormed, EraseFrom;
    AtLength(os, at, keys);
    forall i | 0 <= i < |was|
      ensures i in AtSet(at, removed) <==> i < at[stop] && keys[i].Some?
    {
      RemovedPositions(os, at, keys, removed, stop, i);
    }
    forall i | 0 <= i < at[stop]
      ensures !Misses(was, keys, id, i)
    {
      assert i in AtSet(at, removed) ==> RemovedTree(was[i], mid[i], keys[i], id);
    }
  }

  lemma RemovedPositions(os: seq<OpenIndex>, at: seq<nat>, keys: seq<Option<int64>>, removed: seq<nat>, stop: nat, i: nat)
    requires KeyedBy(os, at, keys) && stop <= |os| && StoppedAt(os, removed, stop) && i < |keys|
    ensures i in AtSet(at, removed) <==> i < Bound(at, stop, |keys|) && keys[i].Some?
  {
    assert forall k :: stop <= k < |at| ==> at[stop] <= at[k];
    if i < Bound(at, stop, |keys|) && keys[i].Some? {
      var k :| 0 <= k < |at| && at[k] == i;
      assert k in removed;
      var j :| 0 <= j < |removed| && removed[j] == k;
      AtSetHas(at, removed, j);
    }
    if i in AtSet(at, removed) {
      var j :| 0 <= j < |removed| && removed[j] < |at| && at[removed[j]] == i;
      assert removed[j] in removed;
      assert stop < |at| ==> at[removed[j]] < at[stop];
    }
  }

  /** In a database that is in step, no index misses a row. */
  lemma MissingMeansOutOfStep(tables: seq<TableDefinition>, indexes: seq<IndexDefinition>, was: seq<Tree>, m: Store,
                              table: TableDefinition, id: RecordId, keys: seq<Option<int64>>, i: nat)
    requires TablesOk(tables) && IndexesOk(tables, indexes) && table in tables && id in Rows(table, m) && |was| == |indexes|
    requires keys == KeysOf(tables, indexes, table.name, Rows(table, m)[id])
    requires FirstMissing(was, keys, id, i)
    ensures !Agreeing(tables, indexes, was, m)
  {
    hide TargetOk, TableOf, ColumnOf, KeyAt, SameName, EntrySet, Rows, TablesOk, RowTuple;
    if Agreeing(tables, indexes, was, m) {
      assert IndexAgrees(tables, indexes[i], was[i], m);
      assert indexes[i].table == table.name;
      NamedTable(tables, table, indexes[i]);
    }
  }

  /** After an undone erasure, the database is as sound as before, and in the state that EraseOutcome describes. */
  lemma EraseUndone(tables: seq<TableDefinition>, indexes: seq<IndexDefinition>, was: seq<Tree>, now: seq<Tree>,
                    m: Store, m': Store, table: TableDefinition, id: RecordId, values: Tuple, keys: seq<Option<int64>>,
                    k: nat)
    requires IndexesOk(tables, indexes) && keys == KeysOf(tables, indexes, table.name, values)
    requires |was| == |indexes| && (forall i :: 0 <= i < |was| ==> was[i].header == indexes[i].headerId)
    requires RowsOk(tables, m) && SameRows(m, m') && FirstMissing(was, keys, id, k) && UndoneBefore(was, now, keys, id, k)
    requires id in Rows(table, m) && Rows(table, m)[id] == values
    ensures RowsOk(tables, m') && |now| == |indexes| && forall i :: 0 <= i < |now| ==> now[i].header == indexes[i].headerId
    ensures EraseOutcome(tables, indexes, was, now, m, m', table, id, Err(TableCorruption))
  {
    hide TargetOk, KeyFor, SameName, Rows, RowsOk, SameRows, EntrySet, Misses, WellFormed, RowTuple;
    SameRowsMeans(tables, m, m');
    forall i | 0 <= i < |indexes|
      ensures now[i].header == indexes[i].headerId
    {
      assert now[i] == was[i] || PutBackTree(was[i], now[i], keys[i], id);
    }
  }

  /** When every index has given up the row, dropping its record completes the erasure. */
  lemma AllRemoved(tables: seq<TableDefinition>, indexes: seq<IndexDefinition>, was: seq<Tree>, now: seq<Tree>,
                   m: Store, m1: Store, table: TableDefinition, id: RecordId, values: Tuple,
                   os: seq<OpenIndex>, at: seq<nat>, keys: seq<Option<int64>>, removed: seq<nat>)
    requires TablesOk(tables) && IndexesOk(tables, indexes) && table in tables
    requires keys == KeysOf(tables, indexes, table.name, values) && KeyedBy(os, at, keys)
    requires |was| == |indexes| && (forall i :: 0 <= i < |was| ==> was[i].header == indexes[i].headerId)
    requires RowsOk(tables, m) && SameRows(m, m1) && id in Rows(table, m) && Rows(table, m)[id] == values
    requires RemovedIn(was, now, keys, id, AtSet(at, removed)) && Forest(m1, now)
    requires StoppedAt(os, removed, |os|)
    ensures var m' := m1 - {id};
      && id in m1 && Forest(m', now) && RowsOk(tables, m')
      && EraseOutcome(tables, indexes, was, now, m, m', table, id, Ok(true))
      && (Agreeing(tables, indexes, was, m) ==> Agreeing(tables, indexes, now, m'))
    ensures |now| == |indexes| && forall i :: 0 <= i < |now| ==> now[i].header == indexes[i].headerId
  {
    hide TargetOk, SameName, Rows, RowsOk, SameRows, EntrySet, TablesOk, Forest, KeyFor, EraseFrom, WellFormed,
         Agreeing, RowTuple;
    SameRowsMeans(tables, m, m1);
    RowIsNoNode(table, m1, id, now);
    RowRemoved(tables, table, m1, id);
    forall i | 0 <= i < |indexes|
      ensures EntrySet(now[i]) == EntrySet(was[i]) - EntriesOf(KeyFor(tables, indexes[i], table.name, values), id)
      ensures now[i].header == indexes[i].headerId
    {
      if keys[i].Some? {
        var k :| 0 <= k < |at| && at[k] == i;
        assert k in removed;
        var j :| 0 <= j < |removed| && removed[j] == k;
        assert i in AtSet(at, removed);
        assert RemovedTree(was[i], now[i], keys[i], id);
      }
    }
    if Agreeing(tables, indexes, was, m) {
      RemovedAgrees(tables, indexes, was, now, m, m1 - {id}, table, id);
    }
  }

  /** Dropping the record of a row does not touch the trees. */
  lemma RowIsNoNode(table: TableDefinition, m: Store, id: RecordId, trees: seq<Tree>)
    requires id in Rows(table, m) && Forest(m, trees)
    ensures id in m && Forest(m - {id}, trees)
  {
    hide Forest, Parse, DecodeRow;
    ForestFrame(m, m - {id}, trees);
  }

  // ---------------------------------------------------------------- creating an index

  /** No table has more rows than `most`. */
  ghost predicate AtMost(tables: seq<TableDefinition>, m: Store, most: nat) {
    forall table :: table in tables ==> |Rows(table, m)| <= most
  }

  /** An index of this name can be made on this column. */
  predicate Definable(tables: seq<TableDefinition>, indexes: seq<IndexDefinition>, indexName: Text, tableName: Text,
                      columnName: Text)
  {
    && NameOk(indexName) && FindFirst(IndexLike(indexName), indexes) == None
    && var t := FindFirst(TableLike(tableName), tables);
    && t.Some?
    && var c := FindFirst(ColumnLike(columnName), tables[t.value].schema);
    && c.Some? && tables[t.value].schema[c.value].dataType == Integer
  }

  function DefinitionError(tables: seq<TableDefinition>, indexes: seq<IndexDefinition>, indexName: Text,
                           tableName: Text): Error {
    if NameOk(indexName) && FindFirst(IndexLike(indexName), indexes) == None && FindFirst(TableLike(tableName), tables) == None
    then OutOfRange else InvalidArgument
  }

  function IndexRecordSize(indexName: Text, table: TableDefinition, c: nat): nat
    requires c < |table.schema|
  {
    22 + |indexName| + |table.name| + |table.schema[c].name|
  }

  /** The record of the new definition fits a page. */
  predicate DefinitionFits(tables: seq<TableDefinition>, indexName: Text, tableName: Text, columnName: Text) {
    var t := FindFirst(TableLike(tableName), tables);
    && t.Some?
    && var c := FindFirst(ColumnLike(columnName), tables[t.value].schema);
    && c.Some? && IndexRecordSize(indexName, tables[t.value], c.value) <= MAX_RECORD_BYTES
  }

  /** Added to an empty tree in record order, the keys of the column meet no full root. */
  ghost predicate KeysFit(tables: seq<TableDefinition>, m: Store, tableName: Text, columnName: Text) {
    var t := FindFirst(TableLike(tableName), tables);
    && t.Some?
    && var c := FindFirst(ColumnLike(columnName), tables[t.value].schema);
    && c.Some? && Filled(EntryList(Scanned(tables[t.value], m), c.value)).Some?
  }

  /** More rows have a key in the column than a tree is sure to take. */
  ghost predicate TooManyKeys(tables: seq<TableDefinition>, m: Store, tableName: Text, columnName: Text) {
    var t := FindFirst(TableLike(tableName), tables);
    && t.Some?
    && var c := FindFirst(ColumnLike(columnName), tables[t.value].schema);
    && c.Some? && |KeyedEntries(Scanned(tables[t.value], m), c.value)| >= SURE_CAPACITY
  }

  /** One index has been added, on column c of the table, and holds exactly the keys of its rows. */
  ghost predicate NewIndex(tables: seq<TableDefinition>, was: seq<IndexDefinition>, now: seq<IndexDefinition>,
                           trees: seq<Tree>, trees': seq<Tree>, m: Store, indexName: Text, table: TableDefinition, c: nat)
    requires c < |table.schema|
  {
    && |trees'| == |trees| + 1 && trees'[..|trees|] == trees
    && now == was + [IndexDefinition(indexName, table.name, table.schema[c].name, trees'[|trees|].header)]
    && Agrees(trees'[|trees|], Rows(table, m), c)
  }

  ghost predicate IndexCreated(tables: seq<TableDefinition>, was: seq<IndexDefinition>, now: seq<IndexDefinition>,
                               trees: seq<Tree>, trees': seq<Tree>, m: Store, indexName: Text, tableName: Text, columnName: Text)
  {
    && Definable(tables, was, indexName, tableName, columnName)
    && var table := tables[FindFirst(TableLike(tableName), tables).value];
    NewIndex(tables, was, now, trees, trees', m, indexName, table, FindFirst(ColumnLike(columnName), table.schema).value)
  }

  lemma NoKeys(rows: seq<TableRow>, c: nat)
    ensures KeyedEntries(rows[..0], c) == {}
  {
  }

  lemma EntryIs(r: TableRow, c: nat)
    requires c < |r.values| && (r.values[c].Null? || r.values[c].IntValue?)
    ensures EntryFor(r, c) == if r.values[c].Null? then None else Some(Entry(r.values[c].i, r.id))
  {
  }

  /** A tree of two new records stands beside the others. */
  lemma CreatedForest(m: Store, m': Store, trees: seq<Tree>, t: Tree)
    requires Forest(m, trees) && WellFormed(t) && Stored(m', t) && t == EmptyTree(t.header, t.root)
    requires t.header !in m && t.root !in m && m' - {t.header, t.root} == m
    ensures Forest(m', trees + [t]) && SameRows(m, m') && HalfFull(t)
  {
    hide Stored, WellFormed, Forest;
    EmptyHalfFull(t.header, t.root);
    assert forall id :: id in m ==> id in m' - {t.header, t.root};
    assert forall id :: id in m' && id != t.header && id != t.root ==> id in m' - {t.header, t.root};
    ForestGrow(m, m', trees, t);
  }

  lemma BackfillStep(m: Store, m': Store, trees: seq<Tree>, t: Tree, t': Tree)
    requires Forest(m, trees + [t]) && WellFormed(t') && Stored(m', t') && OutsideKept(m, t, m', t')
    ensures Forest(m', trees + [t']) && SameRows(m, m')
  {
    hide Stored, WellFormed, Forest, OutsideKept, SameRows;
    ForestStep(m, m', trees + [t], |trees|, t');
    assert (trees + [t])[|trees| := t'] == trees + [t'];
  }

  lemma GrownHalfFull(t: Tree, e: Entry, t': Tree)
    requires WellFormed(t) && HalfFull(t) && InsertedBy(t, e, t')
    ensures HalfFull(t')
  {
    hide WellFormed, HalfFull, InsertInto;
    var rightId, rootId :| InsertedByIds(t, e, rightId, rootId, t');
    InsertKeepsHalfFull(t, e, rightId, rootId);
  }

  /** The leaves are what the entries make of an empty tree. */
  ghost predicate HasShape(t: Tree, es: seq<Entry>) {
    Filled(es) == Some(ShapeOf(t.leaves))
  }

  lemma EmptyShape(t: Tree, rows: seq<TableRow>, c: nat)
    requires t == EmptyTree(t.header, t.root)
    ensures HasShape(t, EntryList(rows[..0], c))
  {
    assert ShapeOf(t.leaves) == [[]];
  }

  lemma ShapeGrows(t: Tree, e: Entry, t': Tree, es: seq<Entry>)
    requires WellFormed(t) && InsertedBy(t, e, t') && HasShape(t, es)
    ensures HasShape(t', es + [e])
  {
    hide WellFormed, InsertInto, Filled, Grown;
    var rightId, rootId :| InsertedByIds(t, e, rightId, rootId, t');
    FilledMore(es, e);
    GrownSame(t, e, rightId, rootId);
  }

  lemma ShapeRefuses(t: Tree, e: Entry, rows: seq<TableRow>, c: nat, k: nat)
    requires WellFormed(t) && Rejects(t, e) && k < |rows| && HasShape(t, EntryList(rows[..k], c))
    requires EntryList(rows[..k + 1], c) == EntryList(rows[..k], c) + [e]
    ensures Filled(EntryList(rows, c)) == None
  {
    hide WellFormed, InsertInto, Filled, Grown, EntryList, Rejects;
    FilledMore(EntryList(rows[..k], c), e);
    GrownSame(t, e, t.header, t.header);
    RootFullIsRejection(t, e, t.header, t.header);
    EntryListPrefix(rows, c, k + 1);
    var es, n := EntryList(rows, c), |EntryList(rows[..k + 1], c)|;
    assert es[..n] == EntryList(rows[..k + 1], c);
    FilledPrefix(es, n);
  }

  lemma ShapeIsFilled(t: Tree, es: seq<Entry>)
    requires HasShape(t, es)
    ensures Filled(es).Some?
  {
  }

  lemma RefusedWhenLarge(t: Tree, e: Entry)
    requires WellFormed(t) && HalfFull(t) && IdFits(e.value) && Rejects(t, e)
    ensures |EntrySet(t)| >= SURE_CAPACITY
  {
    hide WellFormed, HalfFull, InsertInto, EntrySet, Rejects;
    RootFullIsRejection(t, e, t.header, t.header);
    RootFullNeedsEntries(t, e, t.header, t.header);
  }

  lemma TableFound(tables: seq<TableDefinition>, t: nat)
    requires TablesOk(tables) && t < |tables|
    ensures FindFirst(TableLike(tables[t].name), tables) == Some(t) && tables[t] in tables && ValidTable(tables[t])
  {
    hide Folded, ValidTable;
    var f := FindFirst(TableLike(tables[t].name), tables);
    assert TableLike(tables[t].name)(tables[t]);
    TableUnique(tables, f.value, t);
  }

  /** The rows of a scan are live, fit the schema and are not more than the table's rows. */
  lemma ScanFacts(tables: seq<TableDefinition>, table: TableDefinition, m: Store, most: nat)
    requires TablesOk(tables) && table in tables && RowsOk(tables, m) && AtMost(tables, m, most)
    ensures var rows := Scanned(table, m);
      && |rows| <= most && StrictlySorted(ById(), rows) && Lists(Rows(table, m), rows)
      && forall k :: 0 <= k < |rows| ==> rows[k].id in m && ValidTuple(table.schema, rows[k].values)
  {
    hide Scanned, Reading, RowsOk, TablesOk, ValidTuple, RowTuple;
    var rows := Scanned(table, m);
    ScannedExact(tables, table, m);
    ScanCount(Rows(table, m), rows);
    RowsFit(table, m);
    forall k | 0 <= k < |rows|
      ensures rows[k].id in m && ValidTuple(table.schema, rows[k].values)
    {
      assert rows[k] in rows;
    }
  }

  /** The definition of a new index passes all checks of the catalog and keeps its spelling. */
  lemma DefinitionRegistrable(tables: seq<TableDefinition>, indexes: seq<IndexDefinition>, trees: seq<Tree>, m: Store,
                              d: IndexDefinition, t: nat, c: nat)
    requires TablesOk(tables) && t < |tables| && c < |tables[t].schema| && tables[t].schema[c].dataType == Integer
    requires NameOk(d.name) && FindFirst(IndexLike(d.name), indexes) == None
    requires d.table == tables[t].name && d.column == tables[t].schema[c].name
    requires Forest(m, trees) && |trees| == |indexes| && forall i :: 0 <= i < |trees| ==> trees[i].header == indexes[i].headerId
    requires d.headerId !in m
    ensures Registrable(tables, indexes, d) && Normalized(tables, d) == d
  {
    hide Folded, Forest, WellFormed, FindFirst, TablesOk, DistinctColumns, IsHeader, LeavesStored, ChildrenOf,
         HoldsInternal;
    TableFound(tables, t);
    ColumnLikeFound(tables[t], c);
    forall i | 0 <= i < |indexes|
      ensures !SameName(indexes[i].name, d.name) && indexes[i].headerId != d.headerId
    {
      assert !IndexLike(d.name)(indexes[i]);
      TreeOfForest(m, trees, i);
    }
  }

  lemma ColumnLikeFound(table: TableDefinition, c: nat)
    requires ValidTable(table) && c < |table.schema|
    ensures FindFirst(ColumnLike(table.schema[c].name), table.schema) == Some(c)
  {
    hide Folded;
    var f := FindFirst(ColumnLike(table.schema[c].name), table.schema);
    assert ColumnLike(table.schema[c].name)(table.schema[c]);
  }

  /** A catalog record is no row and no node: rows and trees stay as they are. */
  lemma RecordBesides(m: Store, m': Store, id: RecordId, bytes: seq<byte>, trees: seq<Tree>)
    requires Added(m, m', id, bytes) && |bytes| >= 4 && bytes[..4] == INDEX_MAGIC && Forest(m, trees)
    ensures SameRows(m, m') && Forest(m', trees)
  {
    hide Forest;
    assert bytes[..4][2] != ROW_MAGIC[2];
    assert !HasMagic(bytes);
    hide HasMagic;
    ForestFrame(m, m', trees);
  }

  lemma IndexInStep(tables: seq<TableDefinition>, indexes: seq<IndexDefinition>, trees: seq<Tree>, t: Tree, m: Store,
                    m': Store,
                    d: IndexDefinition, table: TableDefinition, c: nat)
    requires TablesOk(tables) && IndexesOk(tables, indexes) && IndexesOk(tables, indexes + [d]) && table in tables
    requires ValidTable(table) && c < |table.schema|
    requires d.table == table.name && d.column == table.schema[c].name && t.header == d.headerId
    requires SameRows(m, m') && Lists(Rows(table, m), Scanned(table, m))
    requires EntrySet(t) == KeyedEntries(Scanned(table, m), c)
    ensures NewIndex(tables, indexes, indexes + [d], trees, trees + [t], m, d.name, table, c)
    ensures Agreeing(tables, indexes, trees, m) ==> Agreeing(tables, indexes + [d], trees + [t], m')
  {
    hide SameName, EntrySet, KeyedEntries, Rows, SameRows, Scanned, Lists, TablesOk, ValidTable, Agrees, RowTuple;
    SameRowsMeans(tables, m, m');
    KeyedEntriesAgree(t, Rows(table, m), Scanned(table, m), c);
    var all, more := indexes + [d], trees + [t];
    assert all[|indexes|] == d && more[|trees|] == t && more[..|trees|] == trees;
    NamedTable(tables, table, d);
    ColumnFound(table, c);
    if Agreeing(tables, indexes, trees, m) {
      forall i | 0 <= i < |all|
        ensures IndexAgrees(tables, all[i], more[i], m')
      {
        if i < |indexes| {
          assert IndexAgrees(tables, indexes[i], trees[i], m);
        }
      }
    }
  }

  // ---------------------------------------------------------------- lookups

  /** The table and column of an index are found again under their stored names. */
  lemma IndexTable(tables: seq<TableDefinition>, d: IndexDefinition)
    requires TablesOk(tables) && TargetOk(tables, d)
    ensures var t := FindFirst(TableLike(d.table), tables);
      && t.Some? && tables[t.value] == TableOf(tables, d)
      && FindFirst(ColumnIs(d.column), tables[t.value].schema) == Some(ColumnOf(tables[t.value], d.column))
      && tables[t.value].schema[ColumnOf(tables[t.value], d.column)].dataType == Integer
  {
    hide Folded, ValidTable;
    var t := FindFirst(TableIs(d.table), tables).value;
    TableFound(tables, t);
  }

  lemma KeyColumn(tables: seq<TableDefinition>, indexes: seq<IndexDefinition>, i: nat)
    requires IndexesOk(tables, indexes) && i < |indexes|
    ensures var table := TableOf(tables, indexes[i]);
      var c := ColumnOf(table, indexes[i].column);
      c < |table.schema| && table.schema[c].dataType == Integer
  {
  }

  /** The result of reading the rows of some entries: all of them, or damage if one does not match. */
  ghost predicate RowsRead(rows: RowMap, c: nat, es: seq<Entry>, r: Result<seq<TableRow>>) {
    if AllMatch(rows, c, es) then r == Ok(RowsAt(rows, Ids(es))) else r == Err(TableCorruption)
  }

  lemma RowsReadStep(rows: RowMap, c: nat, es: seq<Entry>, k: nat, read: seq<TableRow>)
    requires k < |es| && RowsRead(rows, c, es[..k], Ok(read))
    ensures if Matching(rows, c, es[k]) then RowsRead(rows, c, es[..k + 1], Ok(read + [TableRow(es[k].value, rows[es[k].value])]))
            else RowsRead(rows, c, es, Err(TableCorruption))
  {
    hide KeyAt;
    assert es[..k + 1] == es[..k] + [es[k]];
    if Matching(rows, c, es[k]) {
      assert Ids(es[..k + 1]) == Ids(es[..k]) + [es[k].value];
      assert AllMatch(rows, c, es[..k + 1]);
      assert RowsAt(rows, Ids(es[..k + 1])) == RowsAt(rows, Ids(es[..k])) + [TableRow(es[k].value, rows[es[k].value])];
    } else {
      assert !AllMatch(rows, c, es);
    }
  }

  /** One more entry of those that are to be read. */
  lemma RowsReadMore(rows: RowMap, c: nat, done: seq<Entry>, e: Entry, read: seq<TableRow>, all: seq<Entry>)
    requires RowsRead(rows, c, done, Ok(read)) && done + [e] <= all
    ensures if Matching(rows, c, e) then RowsRead(rows, c, done + [e], Ok(read + [TableRow(e.value, rows[e.value])]))
            else RowsRead(rows, c, all, Err(TableCorruption))
  {
    var es := done + [e];
    RowsReadStep(rows, c, es, |done|, read);
    assert es[..|done|] == done && es[..|done| + 1] == es;
    if !Matching(rows, c, e) {
      assert all[|done|] == e;
    }
  }

  lemma NothingRead(rows: RowMap, c: nat, es: seq<Entry>)
    ensures RowsRead(rows, c, [], Ok([]))
    ensures GroupsReversed(es) == [] + GroupsReversed(es[..|es|])
  {
    assert es[..|es|] == es;
    assert RowsAt(rows, Ids([])) == [];
  }

  lemma GroupTaken(es: seq<Entry>, begin: nat, end: nat)
    requires begin < end <= |es| && forall k :: begin <= k < end ==> es[k].key == es[end - 1].key
    requires GroupStart(es[..end], end - 1) == GroupStart(es[..end], begin)
    requires begin > 0 ==> es[begin - 1].key != es[end - 1].key
    ensures GroupsReversed(es[..end]) == es[begin..end] + GroupsReversed(es[..begin])
  {
    assert es[..end][begin..] == es[begin..end] && es[..end][..begin] == es[..begin];
  }

  /** `got` are the entries read before, and those of the group up to `offset`. */
  ghost predicate GotInto(got: seq<Entry>, before: seq<Entry>, es: seq<Entry>, begin: nat, offset: nat) {
    begin <= offset <= |es| && got == before + es[begin..offset]
  }

  lemma GotNothing(before: seq<Entry>, es: seq<Entry>, begin: nat)
    requires begin <= |es|
    ensures GotInto(before, before, es, begin, begin)
  {
  }

  lemma GotAll(got: seq<Entry>, before: seq<Entry>, es: seq<Entry>, begin: nat, end: nat)
    requires GotInto(got, before, es, begin, end)
    ensures begin <= end <= |es| && got == before + es[begin..end]
  {
  }

  lemma GroupCut(all: seq<Entry>, got: seq<Entry>, before: seq<Entry>, es: seq<Entry>, begin: nat, end: nat, offset: nat,
                 limit: Option<nat>)
    requires GotInto(got, before, es, begin, offset) && offset < end <= |es| && before + es[begin..end] <= all
    requires limit.Some? ==> |got| < limit.value
    ensures var more := got + [es[offset]];
      && GotInto(more, before, es, begin, offset + 1) && more <= Take(all, limit)
      && (limit == Some(|more|) ==> more == Take(all, limit))
  {
    var more := got + [es[offset]];
    assert more == before + es[begin..offset + 1];
    assert more == (before + es[begin..end])[..|more|];
    assert more == all[..|more|];
  }

  lemma AllGroupsRead(all: seq<Entry>, done: seq<Entry>, es: seq<Entry>, limit: Option<nat>)
    requires all == done + GroupsReversed(es[..0])
    requires limit.Some? ==> |done| <= limit.value
    ensures done == Take(all, limit)
  {
    assert es[..0] == [];
    assert done + [] == done;
  }

  function Under(key: int64, ids: seq<RecordId>): (es: seq<Entry>)
    ensures |es| == |ids| && forall k :: 0 <= k < |es| ==> es[k] == Entry(key, ids[k])
  {
    seq(|ids|, k requires 0 <= k < |ids| => Entry(key, ids[k]))
  }

  /** Whatever an index lists, only rows of the table with the entry's key are delivered. */
  lemma LookupRows(tables: seq<TableDefinition>, table: TableDefinition, m: Store, c: nat, r: Result<seq<TableRow>>,
                   es: seq<Entry>)
    requires TablesOk(tables) && table in tables && RowsOk(tables, m) && RowsRead(Rows(table, m), c, es, r)
    ensures r.Ok? ==> forall row :: row in r.value ==>
      row in Scanned(table, m) && KeyAt(row.values, c).Some? && exists k :: 0 <= k < |es| && es[k] == Entry(KeyAt(row.values, c).value, row.id)
    ensures r.Err? ==> r.error == TableCorruption
  {
    hide TablesOk, RowsOk, Scanned, KeyAt, RowTuple;
    ScannedExact(tables, table, m);
    if r.Ok? {
      forall row | row in r.value
        ensures row in Scanned(table, m) && KeyAt(row.values, c).Some?
        ensures exists k :: 0 <= k < |es| && es[k] == Entry(KeyAt(row.values, c).value, row.id)
      {
        var k :| 0 <= k < |r.value| && r.value[k] == row;
        assert Matching(Rows(table, m), c, es[k]);
      }
    }
  }

  lemma ScanLists(tables: seq<TableDefinition>, table: TableDefinition, m: Store)
    requires TablesOk(tables) && table in tables && RowsOk(tables, m)
    ensures Lists(Rows(table, m), Scanned(table, m))
  {
    hide TablesOk, RowsOk, Scanned, RowTuple;
    ScannedExact(tables, table, m);
  }

  /** A key lookup in an index that is in step. */
  lemma LookupAgrees(tables: seq<TableDefinition>, indexes: seq<IndexDefinition>, trees: seq<Tree>, m: Store, i: nat,
                     key: int64, limit: Option<nat>, r: Result<seq<TableRow>>)
    requires TablesOk(tables) && IndexesOk(tables, indexes) && RowsOk(tables, m) && i < |indexes|
    requires Agreeing(tables, indexes, trees, m) && WellFormed(trees[i])
    requires var table := TableOf(tables, indexes[i]);
      RowsRead(Rows(table, m), ColumnOf(table, indexes[i].column), Under(key, Take(WithKey(Flatten(trees[i].leaves), key), limit)), r)
    ensures var table := TableOf(tables, indexes[i]);
      r == Ok(Take(Filter(HasKey(ColumnOf(table, indexes[i].column), key), Scanned(table, m)), limit))
  {
    hide TablesOk, RowsOk, Scanned, KeyAt, Rows, WellFormed, Flatten, WithKey, ColumnOf, TargetOk, Filter, SameName,
         Agrees, RowTuple;
    var table := TableOf(tables, indexes[i]);
    var c := ColumnOf(table, indexes[i].column);
    var rows, ids := Rows(table, m), WithKey(Flatten(trees[i].leaves), key);
    assert IndexAgrees(tables, indexes[i], trees[i], m);
    ScanLists(tables, table, m);
    LookupIsFilter(trees[i], rows, Scanned(table, m), c, key);
    var cut := Take(ids, limit);
    assert AllMatch(rows, c, Under(key, cut));
    assert Ids(Under(key, cut)) == cut;
    RowsAtTake(rows, ids, limit);
  }

  /** A range lookup in an index that is in step. */
  lemma RangeAgrees(tables: seq<TableDefinition>, indexes: seq<IndexDefinition>, trees: seq<Tree>, m: Store, i: nat,
                    lower: Option<int64>, upper: Option<int64>, descending: bool, limit: Option<nat>, entries: seq<Entry>,
                    r: Result<seq<TableRow>>)
    requires TablesOk(tables) && IndexesOk(tables, indexes) && RowsOk(tables, m) && i < |indexes|
    requires Agreeing(tables, indexes, trees, m) && WellFormed(trees[i])
    requires entries == Take(Between(Flatten(trees[i].leaves), lower, upper),
                             if descending && (limit == None || limit.value > 0) then None else limit)
    requires var table := TableOf(tables, indexes[i]);
      RowsRead(Rows(table, m), ColumnOf(table, indexes[i].column),
               if descending then Take(GroupsReversed(entries), limit) else entries, r)
    ensures var table := TableOf(tables, indexes[i]);
      var c := ColumnOf(table, indexes[i].column);
      r == Ok(Take(StableSort(ByKey(c, descending), Filter(KeyWithin(c, lower, upper), Scanned(table, m))), limit))
  {
    hide TablesOk, RowsOk, Scanned, KeyAt, Rows, WellFormed, Flatten, Between, ColumnOf, TargetOk, Filter, SameName,
         Agrees, StableSort, GroupsReversed, Ordered, Directed, RowTuple;
    var table := TableOf(tables, indexes[i]);
    var c := ColumnOf(table, indexes[i].column);
    var rows, between := Rows(table, m), Between(Flatten(trees[i].leaves), lower, upper);
    assert IndexAgrees(tables, indexes[i], trees[i], m);
    ScanLists(tables, table, m);
    WellFormedOrdered(trees[i]);
    BetweenExact(Flatten(trees[i].leaves), lower, upper);
    OrderedIsDirected(between);
    GroupsReversedDirected(between);
    var es := if descending then GroupsReversed(between) else between;
    RangeIsSort(trees[i], rows, Scanned(table, m), c, lower, upper, descending, es);
    if descending && limit == Some(0) {
      NothingRead(rows, c, []);
    }
    CutRead(rows, c, es, limit, r);
  }

  /** Reading the first entries reads the first rows. */
  lemma CutRead(rows: RowMap, c: nat, es: seq<Entry>, limit: Option<nat>, r: Result<seq<TableRow>>)
    requires AllMatch(rows, c, es) && RowsRead(rows, c, Take(es, limit), r)
    ensures r == Ok(Take(RowsAt(rows, Ids(es)), limit))
  {
    hide KeyAt;
    IdsTake(es, limit);
    RowsAtTake(rows, Ids(es), limit);
  }

  // ---------------------------------------------------------------- whole runs

  datatype Change =
    | AddRow(table: Text, values: Tuple)
    | DropRow(table: Text, id: RecordId)
    | AddIndex(index: Text, table: Text, column: Text)

  /** The most pages that a change can add, with this many indexes and at most so many rows in a table. */
  function Growth(change: Change, indexes: nat, rows: nat): nat {
    match change
    case AddRow(_, _) => 1 + 2 * indexes
    case DropRow(_, _) => 2 * indexes
    case AddIndex(_, _, _) => 3 + 2 * rows
  }

  function PagesNeeded(changes: seq<Change>, indexes: nat, rows: nat): nat {
    if changes == [] then 0 else
    Growth(changes[0], indexes, rows) +
    PagesNeeded(changes[1..], indexes + (if changes[0].AddIndex? then 1 else 0), rows + if changes[0].AddRow? then 1 else 0)
  }

  lemma NeededStep(changes: seq<Change>, i: nat, indexes: nat, bound: nat, rows: nat)
    requires i < |changes| && indexes <= bound
    ensures PagesNeeded(changes[i..], bound, rows) >=
      Growth(changes[i], indexes, rows) +
      PagesNeeded(changes[i + 1..], bound + (if changes[i].AddIndex? then 1 else 0), rows + if changes[i].AddRow? then 1 else 0)
  {
    assert changes[i..][1..] == changes[i + 1..];
  }

  lemma RowsStay(tables: seq<TableDefinition>, m: Store, m': Store, most: nat)
    requires AtMost(tables, m, most) && SameRows(m, m')
    ensures AtMost(tables, m', most) && AtMost(tables, m', most + 1)
  {
    hide SameRows, Rows, RowsOk, RowTuple;
    SameRowsMeans(tables, m, m');
  }

  lemma RowsGrow(tables: seq<TableDefinition>, indexes: seq<IndexDefinition>, was: seq<Tree>, now: seq<Tree>,
                 m: Store, m': Store,
                 tableName: Text, values: Tuple, r: Result<RecordId>, most: nat)
    requires TablesOk(tables) && AtMost(tables, m, most)
    requires r.Err? ==> SameRows(m, m')
    requires r.Ok? ==> var t := FindFirst(TableLike(tableName), tables);
      t.Some? && RowInserted(tables, indexes, was, now, m, m', tables[t.value], r.value, values)
    ensures AtMost(tables, m', most + 1)
  {
    hide SameRows, Rows, RowsOk, ValidTable, Folded, IndexesOk, EntriesAdded, RowTuple;
    if r.Err? {
      RowsStay(tables, m, m', most);
    } else {
      var t := FindFirst(TableLike(tableName), tables).value;
      forall other | other in tables
        ensures |Rows(other, m')| <= most + 1
      {
        if other.name == tables[t].name {
          var i :| 0 <= i < |tables| && tables[i] == other;
          TableUnique(tables, i, t);
          OneMore(Rows(other, m), r.value, values);
        }
      }
    }
  }

  lemma OneMore(rows: RowMap, id: RecordId, values: Tuple)
    ensures |rows[id := values]| <= |rows| + 1
  {
    assert rows[id := values].Keys == rows.Keys + {id};
  }

  lemma RowsShrink(tables: seq<TableDefinition>, indexes: seq<IndexDefinition>, was: seq<Tree>, now: seq<Tree>,
                   m: Store, m': Store,
                   tableName: Text, id: RecordId, r: Result<bool>, most: nat)
    requires TablesOk(tables) && AtMost(tables, m, most)
    requires r != Ok(true) ==> SameRows(m, m')
    requires r == Ok(true) ==> var t := FindFirst(TableLike(tableName), tables);
      t.Some? && EraseOutcome(tables, indexes, was, now, m, m', tables[t.value], id, r)
    ensures AtMost(tables, m', most)
  {
    hide SameRows, Rows, RowsOk, ValidTable, Folded, IndexesOk, EntriesRemoved, RowTuple;
    if r != Ok(true) {
      RowsStay(tables, m, m', most);
    } else {
      var t := FindFirst(TableLike(tableName), tables).value;
      forall other | other in tables
        ensures |Rows(other, m')| <= most
      {
        if other.name == tables[t].name {
          var i :| 0 <= i < |tables| && tables[i] == other;
          TableUnique(tables, i, t);
          SubsetCount((Rows(other, m) - {id}).Keys, Rows(other, m).Keys);
        }
      }
    }
  }

  // ---------------------------------------------------------------- progress of an update

  /** The opened indexes stand at ascending positions, with the keys given there; all other keys are absent. */
  ghost predicate KeyedBy(os: seq<OpenIndex>, at: seq<nat>, keys: seq<Option<int64>>) {
    && |os| == |at|
    && (forall k :: 0 <= k < |at| ==> at[k] < |keys| && os[k].key == keys[at[k]])
    && (forall j, k :: 0 <= j < k < |at| ==> at[j] < at[k])
    && (forall i :: 0 <= i < |keys| && keys[i].Some? ==> i in at)
  }

  /** The catalog position of the n-th opened index; behind the last one, the number of indexes. */
  function Bound(at: seq<nat>, n: nat, count: nat): nat {
    if n < |at| then at[n] else count
  }

  /** Below the bound, the row is listed and was not before; from there on, the trees are untouched. */
  ghost predicate AddedBelow(was: seq<Tree>, now: seq<Tree>, keys: seq<Option<int64>>, id: RecordId, bound: nat) {
    && |was| == |now| == |keys|
    && forall i :: 0 <= i < |was| ==> AddedTree(was[i], now[i], keys[i], id, i < bound)
  }

  ghost predicate AddedTree(was: Tree, now: Tree, key: Option<int64>, id: RecordId, added: bool) {
    if added && key.Some? then
      && now.header == was.header && Entry(key.value, id) !in EntrySet(was) && Takes(was, Entry(key.value, id))
      && EntrySet(now) == EntrySet(was) + {Entry(key.value, id)}
    else now == was
  }

  /** The tree has room for the entry where it belongs. */
  ghost predicate Takes(t: Tree, e: Entry) {
    WellFormed(t) && !Rejects(t, e)
  }

  /** Like AddedBelow, but a tree from the bound on need only hold the same entries. */
  ghost predicate TakenBelow(was: seq<Tree>, now: seq<Tree>, keys: seq<Option<int64>>, id: RecordId, bound: nat) {
    && |was| == |now| == |keys|
    && forall i :: 0 <= i < |was| ==> TakenTree(was[i], now[i], keys[i], id, i < bound)
  }

  ghost predicate TakenTree(was: Tree, now: Tree, key: Option<int64>, id: RecordId, added: bool) {
    if added then AddedTree(was, now, key, id, true)
    else now.header == was.header && EntrySet(now) == EntrySet(was)
  }

  ghost predicate SameHeaders(was: seq<Tree>, now: seq<Tree>) {
    |was| == |now| && forall i :: 0 <= i < |was| ==> now[i].header == was[i].header
  }

  /** Why an index does not take a row: it is full in the wrong place, or it lists the row already. */
  ghost predicate RefusedAt(t: Tree, key: Option<int64>, id: RecordId, error: Error) {
    && WellFormed(t) && key.Some?
    && (error == PageFull || error == TableCorruption)
    && (error == PageFull ==> Rejects(t, Entry(key.value, id)))
    && (error == TableCorruption ==> Entry(key.value, id) in EntrySet(t))
  }

  lemma RefusedMeans(t: Tree, key: Option<int64>, id: RecordId)
    requires WellFormed(t) && key.Some?
    ensures Rejects(t, Entry(key.value, id)) ==> RefusedAt(t, key, id, PageFull)
    ensures Entry(key.value, id) in EntrySet(t) ==> RefusedAt(t, key, id, TableCorruption)
  {
  }

  lemma SameRowsRefl(m: Store)
    ensures SameRows(m, m)
  {
  }

  lemma KeyedAt(os: seq<OpenIndex>, at: seq<nat>, keys: seq<Option<int64>>, trees: seq<Tree>, records: RecordStore,
                k: nat)
    requires KeyedBy(os, at, keys) && Opened(os, at, trees, records) && k < |os|
    ensures |at| == |os| && at[k] < |keys| && at[k] < |trees| && os[k].key == keys[at[k]]
    ensures os[k].tree in set k | 0 <= k < |os| :: os[k].tree
  {
  }

  lemma KeyedLength(os: seq<OpenIndex>, at: seq<nat>, keys: seq<Option<int64>>)
    requires KeyedBy(os, at, keys)
    ensures |at| == |os| && Bound(at, |os|, |keys|) == |keys|
  {
  }

  /** Between two opened positions, no index has a key. */
  lemma GapHasNoKey(os: seq<OpenIndex>, at: seq<nat>, keys: seq<Option<int64>>, k: nat, i: nat)
    requires KeyedBy(os, at, keys) && k <= |at| && i < |keys|
    requires (k > 0 ==> at[k - 1] < i) && i < Bound(at, k, |keys|)
    ensures keys[i] == None
  {
    forall j | 0 <= j < |at|
      ensures at[j] != i
    {
      assert k > 0 && j < k - 1 ==> at[j] < at[k - 1];
      assert k < j ==> at[k] < at[j];
    }
  }

  lemma AddedNone(was: seq<Tree>, os: seq<OpenIndex>, at: seq<nat>, keys: seq<Option<int64>>, id: RecordId)
    requires |was| == |keys| && KeyedBy(os, at, keys)
    ensures AddedBelow(was, was, keys, id, Bound(at, 0, |keys|))
  {
    hide KeyedBy, Bound;
    forall i | 0 <= i < |was|
      ensures AddedTree(was[i], was[i], keys[i], id, i < Bound(at, 0, |keys|))
    {
      if i < Bound(at, 0, |keys|) {
        GapHasNoKey(os, at, keys, 0, i);
      }
    }
  }

  /** Moving the bound past opened index k concerns that index only. */
  lemma BoundMoves(os: seq<OpenIndex>, at: seq<nat>, keys: seq<Option<int64>>, k: nat, i: nat)
    requires KeyedBy(os, at, keys) && k < |os| && i < |keys| && i != at[k] && keys[i].Some?
    ensures i < Bound(at, k, |keys|) <==> i < Bound(at, k + 1, |keys|)
  {
    hide KeyedBy, Bound;
    KeyedOrder(os, at, keys, k);
    if at[k] < i < Bound(at, k + 1, |keys|) {
      GapHasNoKey(os, at, keys, k + 1, i);
    }
  }

  lemma KeyedOrder(os: seq<OpenIndex>, at: seq<nat>, keys: seq<Option<int64>>, k: nat)
    requires KeyedBy(os, at, keys) && k < |os|
    ensures |at| == |os| && at[k] < |keys| && os[k].key == keys[at[k]]
    ensures Bound(at, k, |keys|) == at[k] < Bound(at, k + 1, |keys|)
  {
  }

  /** The next opened tree is still untouched; without a key there is nothing to do in it. */
  lemma AddedStep(was: seq<Tree>, now: seq<Tree>, os: seq<OpenIndex>, at: seq<nat>, keys: seq<Option<int64>>,
                  id: RecordId, k: nat)
    requires KeyedBy(os, at, keys) && k < |os| && AddedBelow(was, now, keys, id, Bound(at, k, |keys|))
    ensures |at| == |os| && at[k] < |was| == |now| && now[at[k]] == was[at[k]]
    ensures os[k].key == None ==> AddedBelow(was, now, keys, id, Bound(at, k + 1, |keys|))
  {
    hide KeyedBy, Bound, EntrySet;
    KeyedOrder(os, at, keys, k);
    assert AddedTree(was[at[k]], now[at[k]], keys[at[k]], id, at[k] < Bound(at, k, |keys|));
    forall i | 0 <= i < |was| && os[k].key == None
      ensures AddedTree(was[i], now[i], keys[i], id, i < Bound(at, k + 1, |keys|))
    {
      assert AddedTree(was[i], now[i], keys[i], id, i < Bound(at, k, |keys|));
      if i != at[k] && keys[i].Some? {
        BoundMoves(os, at, keys, k, i);
      }
    }
  }

  lemma AddedTo(was: seq<Tree>, now: seq<Tree>, then': seq<Tree>, os: seq<OpenIndex>, at: seq<nat>,
                keys: seq<Option<int64>>, id: RecordId, k: nat)
    requires KeyedBy(os, at, keys) && k < |os| && os[k].key.Some? && AddedBelow(was, now, keys, id, Bound(at, k, |keys|))
    requires |then'| == |now| && at[k] < |now| && then' == now[at[k] := then'[at[k]]]
    requires then'[at[k]].header == now[at[k]].header && Entry(os[k].key.value, id) !in EntrySet(now[at[k]])
    requires Takes(now[at[k]], Entry(os[k].key.value, id))
    requires EntrySet(then'[at[k]]) == EntrySet(now[at[k]]) + {Entry(os[k].key.value, id)}
    ensures AddedBelow(was, then', keys, id, Bound(at, k + 1, |keys|))
  {
    hide KeyedBy, Bound, EntrySet, Takes;
    KeyedOrder(os, at, keys, k);
    forall i | 0 <= i < |was|
      ensures AddedTree(was[i], then'[i], keys[i], id, i < Bound(at, k + 1, |keys|))
    {
      assert AddedTree(was[i], now[i], keys[i], id, i < Bound(at, k, |keys|));
      if i != at[k] && keys[i].Some? {
        BoundMoves(os, at, keys, k, i);
      }
    }
  }

  lemma AddedIsTaken(was: seq<Tree>, now: seq<Tree>, keys: seq<Option<int64>>, id: RecordId, bound: nat)
    requires AddedBelow(was, now, keys, id, bound)
    ensures TakenBelow(was, now, keys, id, bound)
  {
    hide EntrySet;
    forall i | 0 <= i < |was|
      ensures TakenTree(was[i], now[i], keys[i], id, i < bound)
    {
      assert AddedTree(was[i], now[i], keys[i], id, i < bound);
    }
  }

  lemma TakenStep(was: seq<Tree>, now: seq<Tree>, then': seq<Tree>, os: seq<OpenIndex>, at: seq<nat>,
                  keys: seq<Option<int64>>, id: RecordId, k: nat)
    requires KeyedBy(os, at, keys) && k < |os| && TakenBelow(was, now, keys, id, Bound(at, k + 1, |keys|))
    requires |then'| == |now| && at[k] < |now| && then' == now[at[k] := then'[at[k]]]
    requires then'[at[k]].header == now[at[k]].header
    requires if os[k].key == None then then'[at[k]] == now[at[k]] else
      Entry(os[k].key.value, id) in EntrySet(now[at[k]]) ==>
        EntrySet(then'[at[k]]) == EntrySet(now[at[k]]) - {Entry(os[k].key.value, id)}
    ensures TakenBelow(was, then', keys, id, Bound(at, k, |keys|))
  {
    hide KeyedBy, Bound, EntrySet;
    KeyedOrder(os, at, keys, k);
    forall i | 0 <= i < |was|
      ensures TakenTree(was[i], then'[i], keys[i], id, i < Bound(at, k, |keys|))
    {
      assert TakenTree(was[i], now[i], keys[i], id, i < Bound(at, k + 1, |keys|));
      if i != at[k] && keys[i].Some? {
        BoundMoves(os, at, keys, k, i);
      }
    }
  }

  lemma TakenAll(was: seq<Tree>, now: seq<Tree>, os: seq<OpenIndex>, at: seq<nat>, keys: seq<Option<int64>>,
                 id: RecordId)
    requires KeyedBy(os, at, keys) && TakenBelow(was, now, keys, id, Bound(at, 0, |keys|))
    ensures SameEntries(was, now) && SameHeaders(was, now)
  {
    hide KeyedBy, Bound, EntrySet;
    forall i | 0 <= i < |was|
      ensures EntrySet(now[i]) == EntrySet(was[i]) && now[i].header == was[i].header
    {
      assert TakenTree(was[i], now[i], keys[i], id, i < Bound(at, 0, |keys|));
      if i < Bound(at, 0, |keys|) {
        GapHasNoKey(os, at, keys, 0, i);
      }
    }
  }

  lemma IndexedColumn(tables: seq<TableDefinition>, table: TableDefinition, index: IndexDefinition)
    requires TargetOk(tables, index) && TableOf(tables, index) == table
    ensures FindFirst(ColumnIs(index.column), table.schema) == Some(ColumnOf(table, index.column))
    ensures ColumnOf(table, index.column) < |table.schema|
    ensures table.schema[ColumnOf(table, index.column)].dataType == Integer
  {
  }

  lemma KeyIs(values: Tuple, c: nat)
    requires c < |values| && (values[c].Null? || values[c].IntValue?)
    ensures KeyAt(values, c) == if values[c].Null? then None else Some(values[c].i)
  {
  }
}
