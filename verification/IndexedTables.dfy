/** Several trees and the rows of all tables in one store, and what keeps the trees in step with the rows. */
module IndexedTables {
  import opened Wrappers
  import opened Sequences
  import opened Stores
  import opened BPlusNodes
  import opened BPlusTrees
  import opened BPlusStorage
  import opened BPlusTreeLaws
  import opened BPlusSearch
  import opened Tuples
  import opened Catalogs
  import opened TableRows

  // ---------------------------------------------------------------- trees side by side

  /** The trees have no record in common. */
  ghost predicate Apart(t: Tree, u: Tree) {
    forall id :: Unowned(t, id) || Unowned(u, id)
  }

  ghost predicate AllStored(m: Store, trees: seq<Tree>) {
    forall i :: 0 <= i < |trees| ==> WellFormed(trees[i]) && Stored(m, trees[i])
  }

  /** The trees are all stored, side by side. */
  ghost predicate Forest(m: Store, trees: seq<Tree>) {
    && AllStored(m, trees)
    && forall i, j :: 0 <= i < |trees| && 0 <= j < |trees| && i != j ==> Apart(trees[i], trees[j])
  }

  lemma TreeOfForest(m: Store, trees: seq<Tree>, k: nat)
    requires Forest(m, trees) && k < |trees|
    ensures WellFormed(trees[k]) && Stored(m, trees[k])
  {
  }

  /** The records of a tree are live, and none of them is a row. */
  lemma NodeRecords(m: Store, t: Tree)
    requires WellFormed(t) && Stored(m, t)
    ensures forall id :: !Unowned(t, id) ==> id in m && !HasMagic(m[id])
  {
    hide IsHeader, IsLeaf, IsInternal, HasMagic, LeavesOrdered, DistinctIds, NodeOk;
    forall id | !Unowned(t, id)
      ensures id in m && !HasMagic(m[id])
    {
      if i :| 0 <= i < |t.leaves| && t.leaves[i].id == id {
        assert HoldsLeaf(m, id, LeafOf(t.leaves, i));
      }
      assert id in m;
      NodesAreNotRows(m[id]);
    }
  }

  /** Working on one tree leaves the other trees and all rows as they are. */
  lemma ForestStep(m: Store, m': Store, trees: seq<Tree>, k: nat, t': Tree)
    requires Forest(m, trees) && k < |trees| && WellFormed(t') && Stored(m', t')
    requires OutsideKept(m, trees[k], m', t')
    ensures Forest(m', trees[k := t']) && SameRows(m, m')
  {
    hide WellFormed, Stored, Unowned, HasMagic;
    TreeOfForest(m, trees, k);
    NodeRecords(m, trees[k]);
    NodeRecords(m', t');
    forall i | 0 <= i < |trees| && i != k
      ensures Stored(m', trees[i]) && Apart(trees[i], t') && Apart(t', trees[i])
    {
      TreeOfForest(m, trees, i);
      NodeRecords(m, trees[i]);
      assert Apart(trees[i], trees[k]);
      StoredFrame(m, m', trees[i]);
    }
  }

  /** The forest is not affected by records that are not its own. */
  lemma ForestFrame(m: Store, m': Store, trees: seq<Tree>)
    requires Forest(m, trees)
    requires forall id :: id in m && !HasMagic(m[id]) ==> id in m' && m'[id] == m[id]
    ensures Forest(m', trees)
  {
    hide WellFormed, Stored, Unowned, HasMagic, Apart;
    forall i | 0 <= i < |trees|
      ensures Stored(m', trees[i])
    {
      TreeOfForest(m, trees, i);
      NodeRecords(m, trees[i]);
      StoredFrame(m, m', trees[i]);
    }
  }

  /** Adding a tree made of new records only. */
  lemma ForestGrow(m: Store, m': Store, trees: seq<Tree>, t: Tree)
    requires Forest(m, trees) && WellFormed(t) && Stored(m', t)
    requires forall id :: id in m ==> Unowned(t, id) && id in m' && m'[id] == m[id]
    requires forall id :: id in m' && id !in m ==> !Unowned(t, id)
    ensures Forest(m', trees + [t]) && SameRows(m, m')
  {
    hide WellFormed, Stored, Unowned, HasMagic;
    NodeRecords(m', t);
    forall i | 0 <= i < |trees|
      ensures Stored(m', trees[i]) && Apart(trees[i], t) && Apart(t, trees[i])
    {
      TreeOfForest(m, trees, i);
      NodeRecords(m, trees[i]);
      StoredFrame(m, m', trees[i]);
    }
  }

  lemma ForestPrefix(m: Store, trees: seq<Tree>, t: Tree)
    requires Forest(m, trees + [t])
    ensures Forest(m, trees)
  {
    var all := trees + [t];
    assert forall i :: 0 <= i < |trees| ==> all[i] == trees[i];
  }

  // ---------------------------------------------------------------- keys of a row

  /** The key under which an index has to list a row of the named table. */
  function KeyFor(tables: seq<TableDefinition>, index: IndexDefinition, name: Text, values: Tuple): Option<int64>
    requires TargetOk(tables, index)
  {
    if index.table == name then KeyAt(values, ColumnOf(TableOf(tables, index), index.column)) else None
  }

  function EntriesOf(key: Option<int64>, id: RecordId): set<Entry> {
    if key == None then {} else {Entry(key.value, id)}
  }

  lemma NamedTable(tables: seq<TableDefinition>, table: TableDefinition, index: IndexDefinition)
    requires TablesOk(tables) && TargetOk(tables, index) && table in tables && index.table == table.name
    ensures TableOf(tables, index) == table
  {
    hide Folded, ValidTable;
    var i :| 0 <= i < |tables| && tables[i] == table;
    SpellingFound(tables, i);
  }

  // ---------------------------------------------------------------- agreement

  /** Every index holds exactly the keys and ids of the rows of its table. */
  ghost predicate Agreeing(tables: seq<TableDefinition>, indexes: seq<IndexDefinition>, trees: seq<Tree>, m: Store)
    requires IndexesOk(tables, indexes)
  {
    && |trees| == |indexes|
    && forall i :: 0 <= i < |indexes| ==> IndexAgrees(tables, indexes[i], trees[i], m)
  }

  ghost predicate IndexAgrees(tables: seq<TableDefinition>, index: IndexDefinition, t: Tree, m: Store)
    requires TargetOk(tables, index)
  {
    var table := TableOf(tables, index);
    Agrees(t, Rows(table, m), ColumnOf(table, index.column))
  }

  /** The row (id, values) of a table has been added to each of its indexes. */
  ghost predicate EntriesAdded(tables: seq<TableDefinition>, indexes: seq<IndexDefinition>, was: seq<Tree>,
                               now: seq<Tree>,
                               name: Text, id: RecordId, values: Tuple)
    requires IndexesOk(tables, indexes)
  {
    && |was| == |now| == |indexes|
    && forall i :: 0 <= i < |indexes| ==>
         EntrySet(now[i]) == EntrySet(was[i]) + EntriesOf(KeyFor(tables, indexes[i], name, values), id)
  }

  ghost predicate EntriesRemoved(tables: seq<TableDefinition>, indexes: seq<IndexDefinition>, was: seq<Tree>,
                                 now: seq<Tree>,
                                 name: Text, id: RecordId, values: Tuple)
    requires IndexesOk(tables, indexes)
  {
    && |was| == |now| == |indexes|
    && forall i :: 0 <= i < |indexes| ==>
         EntrySet(now[i]) == EntrySet(was[i]) - EntriesOf(KeyFor(tables, indexes[i], name, values), id)
  }

  /** The trees may have another shape, but they hold the same entries. */
  ghost predicate SameEntries(was: seq<Tree>, now: seq<Tree>) {
    |was| == |now| && forall i :: 0 <= i < |was| ==> EntrySet(now[i]) == EntrySet(was[i])
  }

  lemma OneAdded(t: Tree, t': Tree, rows: RowMap, rows': RowMap, c: nat, id: RecordId, values: Tuple)
    requires Agrees(t, rows, c) && id !in rows && rows' == rows[id := values]
    requires EntrySet(t') == EntrySet(t) + EntriesOf(KeyAt(values, c), id)
    ensures Agrees(t', rows', c)
  {
    hide EntrySet, KeyAt;
  }

  lemma OneRemoved(t: Tree, t': Tree, rows: RowMap, c: nat, id: RecordId)
    requires Agrees(t, rows, c) && id in rows
    requires EntrySet(t') == EntrySet(t) - EntriesOf(KeyAt(rows[id], c), id)
    ensures Agrees(t', rows - {id}, c)
  {
    hide EntrySet, KeyAt;
  }

  lemma OtherAgrees(t: Tree, t': Tree, rows: RowMap, c: nat)
    requires Agrees(t, rows, c) && EntrySet(t') == EntrySet(t)
    ensures Agrees(t', rows, c)
  {
    hide EntrySet, KeyAt;
  }

  /** Adding a row and its entries keeps the indexes in step. */
  lemma AddedAgrees(tables: seq<TableDefinition>, indexes: seq<IndexDefinition>, was: seq<Tree>, now: seq<Tree>,
                    m: Store, m': Store, table: TableDefinition, id: RecordId, values: Tuple)
    requires TablesOk(tables) && IndexesOk(tables, indexes) && table in tables
    requires Agreeing(tables, indexes, was, m) && EntriesAdded(tables, indexes, was, now, table.name, id, values)
    requires id !in m && Rows(table, m') == Rows(table, m)[id := values]
    requires forall other: TableDefinition :: other.name != table.name ==> Rows(other, m') == Rows(other, m)
    ensures Agreeing(tables, indexes, now, m')
  {
    hide TargetOk, SameName, ValidTable, EntrySet, Rows, RowTuple, TableOf, ColumnOf, KeyAt, TablesOk, Agrees;
    forall i | 0 <= i < |indexes|
      ensures IndexAgrees(tables, indexes[i], now[i], m')
    {
      assert IndexAgrees(tables, indexes[i], was[i], m);
      var of := TableOf(tables, indexes[i]);
      var c := ColumnOf(of, indexes[i].column);
      if indexes[i].table == table.name {
        NamedTable(tables, table, indexes[i]);
        OneAdded(was[i], now[i], Rows(table, m), Rows(table, m'), c, id, values);
      } else {
        OtherAgrees(was[i], now[i], Rows(of, m), c);
      }
    }
  }

  /** Removing a row and its entries keeps the indexes in step. */
  lemma RemovedAgrees(tables: seq<TableDefinition>, indexes: seq<IndexDefinition>, was: seq<Tree>, now: seq<Tree>,
                      m: Store, m': Store, table: TableDefinition, id: RecordId)
    requires TablesOk(tables) && IndexesOk(tables, indexes) && table in tables && id in Rows(table, m)
    requires Agreeing(tables, indexes, was, m)
    requires EntriesRemoved(tables, indexes, was, now, table.name, id, Rows(table, m)[id])
    requires Rows(table, m') == Rows(table, m) - {id}
    requires forall other: TableDefinition :: other.name != table.name ==> Rows(other, m') == Rows(other, m)
    ensures Agreeing(tables, indexes, now, m')
  {
    hide TargetOk, SameName, ValidTable, EntrySet, Rows, RowTuple, TableOf, ColumnOf, KeyAt, TablesOk, Agrees;
    forall i | 0 <= i < |indexes|
      ensures IndexAgrees(tables, indexes[i], now[i], m')
    {
      assert IndexAgrees(tables, indexes[i], was[i], m);
      var of := TableOf(tables, indexes[i]);
      var c := ColumnOf(of, indexes[i].column);
      if indexes[i].table == table.name {
        NamedTable(tables, table, indexes[i]);
        OneRemoved(was[i], now[i], Rows(table, m), c, id);
      } else {
        OtherAgrees(was[i], now[i], Rows(of, m), c);
      }
    }
  }

  /** Agreement is about entry sets and rows only. */
  lemma SameAgrees(tables: seq<TableDefinition>, indexes: seq<IndexDefinition>, was: seq<Tree>, now: seq<Tree>,
                   m: Store, m': Store)
    requires IndexesOk(tables, indexes) && Agreeing(tables, indexes, was, m)
    requires SameEntries(was, now) && SameRows(m, m')
    ensures Agreeing(tables, indexes, now, m')
  {
    hide TargetOk, SameName, EntrySet, TableOf, ColumnOf, Rows, SameRows, RowTuple;
    SameRowsMeans(tables, m, m');
    forall i | 0 <= i < |indexes|
      ensures IndexAgrees(tables, indexes[i], now[i], m')
    {
      assert IndexAgrees(tables, indexes[i], was[i], m);
    }
  }

  // ---------------------------------------------------------------- erasing a row

  /** The row's entry has been taken out of the index. */
  ghost predicate RemovedTree(was: Tree, now: Tree, key: Option<int64>, id: RecordId) {
    && key.Some? && WellFormed(was) && now.header == was.header
    && Entry(key.value, id) in EntrySet(was) && EraseFrom(was, Entry(key.value, id)) == Some(now)
    && EntrySet(now) == EntrySet(was) - {Entry(key.value, id)}
  }

  /** An entry that was taken out is back, or it is lost, in the one shape in which a tree refuses it. */
  ghost predicate PutBackTree(was: Tree, now: Tree, key: Option<int64>, id: RecordId) {
    && key.Some? && WellFormed(was) && now.header == was.header
    && var e := Entry(key.value, id);
    && e in EntrySet(was)
    && EntrySet(now) == if RestoreBlocked(was, e) then EntrySet(was) - {e} else EntrySet(was)
  }

  /** The entry is gone from the indexes at the positions in `done`; all others are untouched. */
  ghost predicate RemovedIn(was: seq<Tree>, now: seq<Tree>, keys: seq<Option<int64>>, id: RecordId, done: set<nat>) {
    && |was| == |now| == |keys|
    && forall i :: 0 <= i < |was| ==> if i in done then RemovedTree(was[i], now[i], keys[i], id) else now[i] == was[i]
  }

  /** The entry is still gone from the indexes in `left`, was put back in the rest of `done`; all others are untouched. */
  ghost predicate RestoredBut(was: seq<Tree>, now: seq<Tree>, keys: seq<Option<int64>>, id: RecordId, done: set<nat>,
                              left: set<nat>)
  {
    && |was| == |now| == |keys|
    && forall i :: 0 <= i < |was| ==>
         if i in left then RemovedTree(was[i], now[i], keys[i], id)
         else if i in done then PutBackTree(was[i], now[i], keys[i], id)
         else now[i] == was[i]
  }

  lemma RemovedOne(was: seq<Tree>, now: seq<Tree>, then': seq<Tree>, keys: seq<Option<int64>>, id: RecordId,
                   done: set<nat>,
                   i: nat)
    requires RemovedIn(was, now, keys, id, done) && i < |was| && i !in done
    requires |then'| == |now| && then' == now[i := then'[i]] && RemovedTree(was[i], then'[i], keys[i], id)
    ensures RemovedIn(was, then', keys, id, done + {i})
  {
    hide RemovedTree;
  }

  lemma RemovedIsRestorable(was: seq<Tree>, now: seq<Tree>, keys: seq<Option<int64>>, id: RecordId, done: set<nat>)
    requires RemovedIn(was, now, keys, id, done)
    ensures RestoredBut(was, now, keys, id, done, done)
  {
    hide RemovedTree, PutBackTree, EntrySet;
  }

  lemma RestoredOne(was: seq<Tree>, now: seq<Tree>, then': seq<Tree>, keys: seq<Option<int64>>, id: RecordId,
                    done: set<nat>, left: set<nat>, i: nat)
    requires RestoredBut(was, now, keys, id, done, left) && i < |was| && i in left && i in done
    requires |then'| == |now| && then' == now[i := then'[i]] && PutBackTree(was[i], then'[i], keys[i], id)
    ensures RestoredBut(was, then', keys, id, done, left - {i})
  {
    hide RemovedTree, PutBackTree;
  }

  /** Putting an entry back gives the old set, or fails exactly in the blocked shape. */
  lemma PutBackRestores(was: Tree, mid: Tree, now: Tree, key: Option<int64>, id: RecordId, r: Result<bool>)
    requires RemovedTree(was, mid, key, id) && WellFormed(mid) && now.header == mid.header
    requires var e := Entry(key.value, id);
      && (r == Ok(false) <==> e in EntrySet(mid)) && (r.Err? <==> Rejects(mid, e))
      && (r == Ok(true) ==> EntrySet(now) == EntrySet(mid) + {e}) && (r != Ok(true) ==> now == mid)
    ensures PutBackTree(was, now, key, id)
    ensures r.Err? <==> RestoreBlocked(was, Entry(key.value, id))
  {
    hide EntrySet, EraseFrom, Rejects, RestoreBlocked, WellFormed;
    var e := Entry(key.value, id);
    RestoreRejected(was, e);
    assert EntrySet(was) - {e} + {e} == EntrySet(was);
    assert r.Ok? && !r.value ==> r == Ok(false);
    assert r.Ok? && r.value ==> r == Ok(true);
  }

  /** The index at position i has to list the row and does not. */
  ghost predicate Misses(trees: seq<Tree>, keys: seq<Option<int64>>, id: RecordId, i: nat)
    requires i < |trees| == |keys|
  {
    keys[i].Some? && Entry(keys[i].value, id) !in EntrySet(trees[i])
  }

  /** Every index that has to list the row does. */
  ghost predicate ListedEverywhere(trees: seq<Tree>, keys: seq<Option<int64>>, id: RecordId) {
    |trees| == |keys| && forall i :: 0 <= i < |keys| ==> !Misses(trees, keys, id, i)
  }

  ghost predicate FirstMissing(trees: seq<Tree>, keys: seq<Option<int64>>, id: RecordId, k: nat) {
    && k < |trees| == |keys| && Misses(trees, keys, id, k)
    && forall i :: 0 <= i < k ==> !Misses(trees, keys, id, i)
  }

  /** The entries of the row have been put back, as far as possible, in the indexes before k; all others are untouched. */
  ghost predicate UndoneBefore(was: seq<Tree>, now: seq<Tree>, keys: seq<Option<int64>>, id: RecordId, k: nat) {
    && |was| == |now| == |keys|
    && forall i :: 0 <= i < |was| ==>
         if i < k && keys[i].Some? then PutBackTree(was[i], now[i], keys[i], id) else now[i] == was[i]
  }

  /** The tree would refuse the entry once it has been taken out. */
  ghost predicate Loses(t: Tree, key: Option<int64>, id: RecordId) {
    key.Some? && WellFormed(t) && RestoreBlocked(t, Entry(key.value, id))
  }

  /** An undone erasure leaves all entries as they were if and only if no index before the missing one loses its entry. */
  lemma UndoneExactly(was: seq<Tree>, now: seq<Tree>, keys: seq<Option<int64>>, id: RecordId, k: nat)
    requires UndoneBefore(was, now, keys, id, k)
    ensures SameEntries(was, now) <==> forall i :: 0 <= i < k && i < |keys| ==> !Loses(was[i], keys[i], id)
  {
    hide EntrySet, WellFormed, RestoreBlocked;
    forall i | 0 <= i < |was|
      ensures EntrySet(now[i]) == EntrySet(was[i]) <==> !(i < k && Loses(was[i], keys[i], id))
    {
      if i < k && keys[i].Some? {
        var e := Entry(keys[i].value, id);
        assert PutBackTree(was[i], now[i], keys[i], id);
        assert e in EntrySet(was[i]) && e !in EntrySet(was[i]) - {e};
      }
    }
  }

  /** With room in every root that lists the row, undoing is complete. */
  lemma RestoredWithRoom(was: seq<Tree>, now: seq<Tree>, keys: seq<Option<int64>>, id: RecordId, k: nat)
    requires UndoneBefore(was, now, keys, id, k)
    requires forall i :: 0 <= i < |was| && keys[i].Some? ==> |was[i].leaves| < INTERNAL_CAPACITY
    ensures SameEntries(was, now)
  {
    hide EntrySet, WellFormed;
    UndoneExactly(was, now, keys, id, k);
  }

  // ---------------------------------------------------------------- lookups

  /** The row has this key. */
  function HasKey(c: nat, key: int64): TableRow -> bool {
    (r: TableRow) => KeyAt(r.values, c) == Some(key)
  }

  /** The row has a key within the inclusive bounds. */
  function KeyWithin(c: nat, lower: Option<int64>, upper: Option<int64>): TableRow -> bool {
    (r: TableRow) => KeyAt(r.values, c).Some? && InBounds(lower, upper, KeyAt(r.values, c).value)
  }

  /** The rows with these ids. */
  function RowsAt(rows: RowMap, ids: seq<RecordId>): (rs: seq<TableRow>)
    requires forall k :: 0 <= k < |ids| ==> ids[k] in rows
    ensures |rs| == |ids| && forall k :: 0 <= k < |ids| ==> rs[k] == TableRow(ids[k], rows[ids[k]])
  {
    seq(|ids|, k requires 0 <= k < |ids| => TableRow(ids[k], rows[ids[k]]))
  }

  lemma RowsAtMember(rows: RowMap, ids: seq<RecordId>)
    requires forall k :: 0 <= k < |ids| ==> ids[k] in rows
    ensures forall r: TableRow :: r in RowsAt(rows, ids) <==> r.id in ids && r.id in rows && rows[r.id] == r.values
  {
    var rs := RowsAt(rows, ids);
    forall r: TableRow
      ensures r in rs <==> r.id in ids && r.id in rows && rows[r.id] == r.values
    {
      if r.id in ids && r.id in rows && rows[r.id] == r.values {
        var k :| 0 <= k < |ids| && ids[k] == r.id;
        assert rs[k] == r;
      }
    }
  }

  /** `rows` lists a table in scan order. */
  ghost predicate Lists(rows: RowMap, scan: seq<TableRow>) {
    && StrictlySorted(ById(), scan)
    && forall r: TableRow :: r in scan <==> r.id in rows && rows[r.id] == r.values
  }

  /** The rows an index lists under a key are the rows of a scan that have it, in the same order. */
  lemma LookupIsFilter(t: Tree, rows: RowMap, scan: seq<TableRow>, c: nat, key: int64)
    requires WellFormed(t) && Agrees(t, rows, c) && Lists(rows, scan)
    ensures var ids := WithKey(Flatten(t.leaves), key);
      && (forall k :: 0 <= k < |ids| ==> ids[k] in rows && KeyAt(rows[ids[k]], c) == Some(key))
      && RowsAt(rows, ids) == Filter(HasKey(c, key), scan)
  {
    hide WellFormed, Flatten, WithKey, KeyAt;
    var ids := WithKey(Flatten(t.leaves), key);
    WellFormedOrdered(t);
    WithKeyExact(Flatten(t.leaves), key);
    forall k | 0 <= k < |ids|
      ensures ids[k] in rows && KeyAt(rows[ids[k]], c) == Some(key)
    {
      assert ids[k] in ids;
      assert Entry(key, ids[k]) in EntrySet(t);
    }
    var a, b := RowsAt(rows, ids), Filter(HasKey(c, key), scan);
    RowsAtMember(rows, ids);
    FilterMember(HasKey(c, key), scan);
    FilterSorted(ById(), HasKey(c, key), scan);
    forall r: TableRow
      ensures r in a <==> r in b
    {
      assert r.id in ids <==> Entry(key, r.id) in EntrySet(t);
    }
    SortedUnique(ById(), a, b);
  }

  lemma WellFormedOrdered(t: Tree)
    requires WellFormed(t)
    ensures Ordered(Flatten(t.leaves))
  {
    FlattenOrdered(t.leaves);
  }

  /** The order on a key column; rows without a key come last in both directions. */
  predicate KeyBefore(c: nat, descending: bool, a: TableRow, b: TableRow) {
    var x, y := KeyAt(a.values, c), KeyAt(b.values, c);
    if x == None || y == None then x.Some? && y == None
    else if descending then y.value < x.value else x.value < y.value
  }

  function ByKey(c: nat, descending: bool): (TableRow, TableRow) -> bool {
    (a: TableRow, b: TableRow) => KeyBefore(c, descending, a, b)
  }

  lemma ByKeyWeak(c: nat, descending: bool, s: seq<TableRow>)
    ensures StrictWeakOn(ByKey(c, descending), s)
  {
  }

  function Ids(es: seq<Entry>): (ids: seq<RecordId>)
    ensures |ids| == |es| && forall k :: 0 <= k < |es| ==> ids[k] == es[k].value
  {
    seq(|es|, k requires 0 <= k < |es| => es[k].value)
  }

  /** Entry order with the keys reversed but not the ids under one key. */
  predicate ReverseLess(a: Entry, b: Entry) {
    b.key < a.key || (a.key == b.key && IdLess(a.value, b.value))
  }

  ghost predicate Directed(descending: bool, es: seq<Entry>) {
    forall i, j :: 0 <= i < j < |es| ==> if descending then ReverseLess(es[i], es[j]) else EntryLess(es[i], es[j])
  }

  /**
     Entries of the range, each once, in key order of either direction: their rows are the filtered
     scan, stably sorted by the key.
     */
  lemma RangeIsSort(t: Tree, rows: RowMap, scan: seq<TableRow>, c: nat, lower: Option<int64>, upper: Option<int64>,
                    descending: bool, es: seq<Entry>)
    requires WellFormed(t) && Agrees(t, rows, c) && Lists(rows, scan)
    requires Directed(descending, es)
    requires forall e :: e in es <==> e in EntrySet(t) && InBounds(lower, upper, e.key)
    ensures forall k :: 0 <= k < |es| ==> es[k].value in rows && KeyAt(rows[es[k].value], c) == Some(es[k].key)
    ensures RowsAt(rows, Ids(es)) == StableSort(ByKey(c, descending), Filter(KeyWithin(c, lower, upper), scan))
  {
    hide WellFormed, Flatten, EntrySet, KeyAt, StableSort, Filter;
    forall k | 0 <= k < |es|
      ensures es[k].value in rows && KeyAt(rows[es[k].value], c) == Some(es[k].key)
    {
      assert es[k] in es;
    }
    var within := KeyWithin(c, lower, upper);
    var r, s := RowsAt(rows, Ids(es)), Filter(within, scan);
    FilterMember(within, scan);
    FilterSorted(ById(), within, scan);
    RangeMembers(rows, es, c, r);
    forall row: TableRow
      ensures row in r <==> row in s
    {
      var key := KeyAt(row.values, c);
      assert key.Some? ==> (Entry(key.value, row.id) in es <==> Entry(key.value, row.id) in EntrySet(t) && InBounds(lower, upper, key.value));
    }
    ByKeyWeak(c, descending, s);
    RangeOrder(rows, es, c, descending, r);
    StrictOrderIsStableSort(ByKey(c, descending), ById(), s, r);
  }

  lemma RangeMembers(rows: RowMap, es: seq<Entry>, c: nat, r: seq<TableRow>)
    requires forall k :: 0 <= k < |es| ==> es[k].value in rows && KeyAt(rows[es[k].value], c) == Some(es[k].key)
    requires r == RowsAt(rows, Ids(es))
    ensures forall row: TableRow :: row in r <==>
      row.id in rows && rows[row.id] == row.values && KeyAt(row.values, c).Some? && Entry(KeyAt(row.values, c).value, row.id) in es
  {
    hide KeyAt;
    forall row: TableRow
      ensures row in r <==>
        row.id in rows && rows[row.id] == row.values && KeyAt(row.values, c).Some? && Entry(KeyAt(row.values, c).value, row.id) in es
    {
      if row in r {
        var k :| 0 <= k < |r| && r[k] == row;
        assert es[k] == Entry(KeyAt(row.values, c).value, row.id);
      }
      if row.id in rows && rows[row.id] == row.values && KeyAt(row.values, c).Some? && Entry(KeyAt(row.values, c).value, row.id) in es {
        var k :| 0 <= k < |es| && es[k] == Entry(KeyAt(row.values, c).value, row.id);
        assert r[k] == row;
      }
    }
  }

  lemma RangeOrder(rows: RowMap, es: seq<Entry>, c: nat, descending: bool, r: seq<TableRow>)
    requires forall k :: 0 <= k < |es| ==> es[k].value in rows && KeyAt(rows[es[k].value], c) == Some(es[k].key)
    requires r == RowsAt(rows, Ids(es)) && Directed(descending, es)
    ensures Sorted(ByKey(c, descending), r)
    ensures forall i, j :: 0 <= i < j < |r| && Equivalent(ByKey(c, descending), r[i], r[j]) ==> ById()(r[i], r[j])
  {
    hide KeyAt;
    forall i, j | 0 <= i < j < |r|
      ensures !KeyBefore(c, descending, r[j], r[i])
      ensures Equivalent(ByKey(c, descending), r[i], r[j]) ==> IdLess(r[i].id, r[j].id)
    {
      assert if descending then ReverseLess(es[i], es[j]) else EntryLess(es[i], es[j]);
    }
  }

  // ---------------------------------------------------------------- reversed key groups

  /** The start of the run of equal keys that ends the sequence, searched downwards from g. */
  function GroupStart(es: seq<Entry>, g: nat): (start: nat)
    requires g < |es|
    requires forall k :: g <= k < |es| ==> es[k].key == es[|es| - 1].key
    ensures start <= g && forall k :: start <= k < |es| ==> es[k].key == es[|es| - 1].key
    ensures start > 0 ==> es[start - 1].key != es[|es| - 1].key
  {
    if g > 0 && es[g - 1].key == es[|es| - 1].key then GroupStart(es, g - 1) else g
  }

  /** The groups of equal keys, last group first; inside a group the order is kept. */
  function GroupsReversed(es: seq<Entry>): seq<Entry> {
    if es == [] then [] else
    var g := GroupStart(es, |es| - 1);
    es[g..] + GroupsReversed(es[..g])
  }

  lemma {:induction false} GroupsReversedDirected(es: seq<Entry>)
    requires Ordered(es)
    ensures Directed(true, GroupsReversed(es))
    ensures forall e :: e in GroupsReversed(es) <==> e in es
  {
    hide Ordered, Directed;
    if es == [] {
      NoneDirected();
    } else {
      var g := GroupStart(es, |es| - 1);
      assert es == es[..g] + es[g..];
      OrderedConcat(es[..g], es[g..]);
      GroupsReversedDirected(es[..g]);
      GroupBehind(es, g, GroupsReversed(es[..g]));
    }
  }

  lemma NoneDirected()
    ensures Directed(true, [])
  {
  }

  lemma GroupBehind(es: seq<Entry>, g: nat, behind: seq<Entry>)
    requires Ordered(es) && g < |es| && forall k :: g <= k < |es| ==> es[k].key == es[|es| - 1].key
    requires g > 0 ==> es[g - 1].key != es[|es| - 1].key
    requires Directed(true, behind) && forall e :: e in behind <==> e in es[..g]
    ensures Directed(true, es[g..] + behind)
  {
    var r := es[g..] + behind;
    var n := |es| - g;
    forall i, j | 0 <= i < j < |r|
      ensures ReverseLess(r[i], r[j])
    {
      if j < n {
        assert EntryLess(es[g + i], es[g + j]);
      } else if i < n {
        assert r[j] in behind;
        var k :| 0 <= k < |es[..g]| && es[..g][k] == r[j];
        assert k < g - 1 ==> EntryLess(es[k], es[g - 1]);
        assert EntryLess(es[g - 1], es[|es| - 1]);
      } else {
        assert ReverseLess(behind[i - n], behind[j - n]);
      }
    }
  }

  lemma OrderedIsDirected(es: seq<Entry>)
    requires Ordered(es)
    ensures Directed(false, es)
  {
  }

  // ---------------------------------------------------------------- limits

  /** Every entry stands for a row that has its key. */
  predicate AllMatch(rows: RowMap, c: nat, es: seq<Entry>) {
    forall k :: 0 <= k < |es| ==> Matching(rows, c, es[k])
  }

  predicate Matching(rows: RowMap, c: nat, e: Entry) {
    e.value in rows && KeyAt(rows[e.value], c) == Some(e.key)
  }

  /** Cutting the entries cuts their rows. */
  lemma RowsAtTake(rows: RowMap, ids: seq<RecordId>, limit: Option<nat>)
    requires forall k :: 0 <= k < |ids| ==> ids[k] in rows
    ensures RowsAt(rows, Take(ids, limit)) == Take(RowsAt(rows, ids), limit)
  {
  }

  lemma IdsTake(es: seq<Entry>, limit: Option<nat>)
    ensures Ids(Take(es, limit)) == Take(Ids(es), limit)
  {
  }

  // ---------------------------------------------------------------- building an index

  /** The index entries of some rows. */
  function KeyedEntries(rows: seq<TableRow>, c: nat): set<Entry> {
    set r | r in rows && KeyAt(r.values, c).Some? :: Entry(KeyAt(r.values, c).value, r.id)
  }

  function EntryFor(r: TableRow, c: nat): Option<Entry> {
    if KeyAt(r.values, c) == None then None else Some(Entry(KeyAt(r.values, c).value, r.id))
  }

  /** Some row has this entry. */
  predicate Contributed(rows: seq<TableRow>, c: nat, e: Entry) {
    exists k :: 0 <= k < |rows| && EntryFor(rows[k], c) == Some(e)
  }

  lemma KeyedEntriesMember(rows: seq<TableRow>, c: nat)
    ensures forall e :: e in KeyedEntries(rows, c) <==> Contributed(rows, c, e)
  {
    forall e
      ensures e in KeyedEntries(rows, c) <==> Contributed(rows, c, e)
    {
      if k :| 0 <= k < |rows| && EntryFor(rows[k], c) == Some(e) {
        assert rows[k] in rows;
      }
      if e in KeyedEntries(rows, c) {
        var r :| r in rows && KeyAt(r.values, c).Some? && e == Entry(KeyAt(r.values, c).value, r.id);
        var k :| 0 <= k < |rows| && rows[k] == r;
        assert EntryFor(rows[k], c) == Some(e);
      }
    }
  }

  lemma ContributedMore(front: seq<TableRow>, r: TableRow, c: nat, e: Entry)
    ensures Contributed(front + [r], c, e) <==> Contributed(front, c, e) || EntryFor(r, c) == Some(e)
  {
    hide EntryFor;
    var more := front + [r];
    assert more[|front|] == r;
    assert forall k :: 0 <= k < |front| ==> more[k] == front[k];
  }

  lemma NewContribution(rows: seq<TableRow>, c: nat, k: nat, e: Entry)
    requires k < |rows| && StrictlySorted(ById(), rows) && EntryFor(rows[k], c) == Some(e)
    ensures !Contributed(rows[..k], c, e)
  {
    forall j | 0 <= j < k
      ensures EntryFor(rows[..k][j], c) != Some(e)
    {
      assert ById()(rows[j], rows[k]);
    }
  }

  /** One more row adds its entry, which is new because its id is. */
  lemma KeyedEntriesStep(rows: seq<TableRow>, c: nat, k: nat)
    requires k < |rows| && StrictlySorted(ById(), rows)
    ensures var e := EntryFor(rows[k], c);
      && (e == None ==> KeyedEntries(rows[..k + 1], c) == KeyedEntries(rows[..k], c))
      && (e.Some? ==> && KeyedEntries(rows[..k + 1], c) == KeyedEntries(rows[..k], c) + {e.value}
                      && e.value !in KeyedEntries(rows[..k], c))
  {
    hide KeyedEntries, EntryFor, Contributed;
    KeyedEntriesMember(rows[..k], c);
    KeyedEntriesMember(rows[..k + 1], c);
    assert rows[..k + 1] == rows[..k] + [rows[k]];
    var e := EntryFor(rows[k], c);
    forall f
      ensures f in KeyedEntries(rows[..k + 1], c) <==> f in KeyedEntries(rows[..k], c) || e == Some(f)
    {
      ContributedMore(rows[..k], rows[k], c, f);
    }
    if e.Some? {
      NewContribution(rows, c, k, e.value);
    }
  }

  lemma KeyedEntriesPrefix(rows: seq<TableRow>, c: nat, k: nat)
    requires k <= |rows|
    ensures KeyedEntries(rows[..k], c) <= KeyedEntries(rows, c)
    ensures |KeyedEntries(rows[..k], c)| <= |KeyedEntries(rows, c)|
  {
    assert forall r :: r in rows[..k] ==> r in rows;
    SubsetCount(KeyedEntries(rows[..k], c), KeyedEntries(rows, c));
  }

  /** The index entries of some rows, in the order of the rows. */
  function EntryList(rows: seq<TableRow>, c: nat): seq<Entry> {
    if rows == [] then [] else
    var e := EntryFor(rows[|rows| - 1], c);
    EntryList(rows[..|rows| - 1], c) + if e.Some? then [e.value] else []
  }

  lemma EntryListStep(rows: seq<TableRow>, c: nat, k: nat)
    requires k < |rows|
    ensures var e := EntryFor(rows[k], c);
      && (e == None ==> EntryList(rows[..k + 1], c) == EntryList(rows[..k], c))
      && (e.Some? ==> EntryList(rows[..k + 1], c) == EntryList(rows[..k], c) + [e.value])
  {
    assert rows[..k + 1][..k] == rows[..k];
    assert EntryList(rows[..k], c) + [] == EntryList(rows[..k], c);
  }

  lemma {:induction false} EntryListPrefix(rows: seq<TableRow>, c: nat, k: nat)
    requires k <= |rows|
    ensures EntryList(rows[..k], c) <= EntryList(rows, c)
    decreases |rows| - k
  {
    if k < |rows| {
      EntryListStep(rows, c, k);
      EntryListPrefix(rows, c, k + 1);
    } else {
      assert rows[..k] == rows;
    }
  }

  lemma SubsetCount<T>(a: set<T>, b: set<T>)
    requires a <= b
    ensures |a| <= |b|
  {
    assert b == a + (b - a);
  }

  /** A tree with the entries of all rows of a table is in step with it. */
  lemma KeyedEntriesAgree(t: Tree, rows: RowMap, scan: seq<TableRow>, c: nat)
    requires Lists(rows, scan) && EntrySet(t) == KeyedEntries(scan, c)
    ensures Agrees(t, rows, c)
  {
    hide KeyAt;
    forall e
      ensures e in EntrySet(t) <==> e.value in rows && KeyAt(rows[e.value], c) == Some(e.key)
    {
      if e.value in rows && KeyAt(rows[e.value], c) == Some(e.key) {
        assert TableRow(e.value, rows[e.value]) in scan;
      }
    }
  }

  function IdSet(rows: seq<TableRow>): set<RecordId> {
    set r | r in rows :: r.id
  }

  /** A scan has no more rows than the table. */
  lemma ScanCount(rows: RowMap, scan: seq<TableRow>)
    requires StrictlySorted(ById(), scan) && forall r :: r in scan ==> r.id in rows
    ensures |scan| <= |rows|
  {
    SortedIds(scan);
    SubsetCount(IdSet(scan), rows.Keys);
  }

  lemma {:induction false} SortedIds(scan: seq<TableRow>)
    requires StrictlySorted(ById(), scan)
    ensures |IdSet(scan)| == |scan|
  {
    hide IdSet;
    if scan == [] {
      NoIds();
    } else {
      var n := |scan| - 1;
      SortedIds(scan[..n]);
      assert scan == scan[..n] + [scan[n]];
      forall r | r in scan[..n]
        ensures r.id != scan[n].id
      {
        var k :| 0 <= k < n && scan[..n][k] == r;
        assert ById()(scan[k], scan[n]);
      }
      IdsMore(scan[..n], scan[n]);
    }
  }

  lemma NoIds()
    ensures IdSet([]) == {}
  {
  }

  lemma IdIn(rows: seq<TableRow>, id: RecordId)
    ensures id in IdSet(rows) <==> exists k :: 0 <= k < |rows| && rows[k].id == id
  {
  }

  lemma IdsMore(rows: seq<TableRow>, r: TableRow)
    requires forall x :: x in rows ==> x.id != r.id
    ensures |IdSet(rows + [r])| == |IdSet(rows)| + 1
  {
    var more := rows + [r];
    forall id
      ensures id in IdSet(more) <==> id in IdSet(rows) || id == r.id
    {
      IdIn(rows, id);
      IdIn(more, id);
      assert more[|rows|] == r && forall k :: 0 <= k < |rows| ==> more[k] == rows[k];
    }
    hide IdSet;
    assert IdSet(more) == IdSet(rows) + {r.id};
  }
}
