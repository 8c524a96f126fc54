/** Named tables and index trees, and the records that are written for them. */
module Catalogs {
  import opened Wrappers
  import opened Bytes
  import opened Sequences
  import opened BufferPools
  import opened HeapFiles
  import opened PageGuards
  import opened Stores
  import opened RecordStores
  import opened BPlusTrees
  import opened BPlusStorage
  import opened BPlusTreeIndexes
  import opened Tuples
  import opened TupleCodec

  const MAX_NAME := 0xFFFF
  const MAX_VERSION := 0xFFFF_FFFF

  // ---------------------------------------------------------------- names

  function Lower(c: byte): byte {
    if 65 <= c <= 90 then c + 32 else c
  }

  /** The key under which names are compared: ASCII letters in lower case. */
  function Folded(name: Text): Text {
    seq(|name|, i requires 0 <= i < |name| => Lower(name[i]))
  }

  predicate SameName(a: Text, b: Text) {
    Folded(a) == Folded(b)
  }

  /** Names are the same byte for byte, except that ASCII letters may differ in case. */
  lemma SameNameMeans(a: Text, b: Text)
    ensures SameName(a, b) <==> |a| == |b| && forall i :: 0 <= i < |a| ==> CaseApart(a[i], b[i])
  {
    if SameName(a, b) {
      assert |Folded(a)| == |Folded(b)|;
      forall i | 0 <= i < |a|
        ensures CaseApart(a[i], b[i])
      {
        assert Folded(a)[i] == Folded(b)[i];
      }
    }
    if |a| == |b| && forall i :: 0 <= i < |a| ==> CaseApart(a[i], b[i]) {
      assert forall i :: 0 <= i < |a| ==> Folded(a)[i] == Folded(b)[i];
    }
  }

  /** The same byte, or an ASCII letter in its two cases. */
  predicate CaseApart(x: byte, y: byte) {
    x == y || (65 <= x <= 90 && y == x + 32) || (65 <= y <= 90 && x == y + 32)
  }

  // ---------------------------------------------------------------- definitions

  datatype TableDefinition = TableDefinition(name: Text, schema: Schema, version: nat)

  datatype IndexDefinition = IndexDefinition(name: Text, table: Text, column: Text, headerId: RecordId)

  predicate NameOk(name: Text) {
    0 < |name| <= MAX_NAME
  }

  predicate DistinctColumns(schema: Schema) {
    forall i, j :: 0 <= i < j < |schema| ==> !SameName(schema[i].name, schema[j].name)
  }

  predicate ValidTable(t: TableDefinition) {
    && NameOk(t.name)
    && 0 < |t.schema| <= MAX_COLUMNS
    && 0 < t.version <= MAX_VERSION
    && (forall i :: 0 <= i < |t.schema| ==> NameOk(t.schema[i].name))
    && DistinctColumns(t.schema)
  }

  function ColumnIs(name: Text): Column -> bool {
    (c: Column) => c.name == name
  }

  function ColumnLike(name: Text): Column -> bool {
    (c: Column) => SameName(c.name, name)
  }

  function TableIs(name: Text): TableDefinition -> bool {
    (t: TableDefinition) => t.name == name
  }

  function TableLike(name: Text): TableDefinition -> bool {
    (t: TableDefinition) => SameName(t.name, name)
  }

  function IndexLike(name: Text): IndexDefinition -> bool {
    (i: IndexDefinition) => SameName(i.name, name)
  }

  /** The index names an existing table and one of its integer columns, in their stored spelling. */
  predicate TargetOk(tables: seq<TableDefinition>, index: IndexDefinition) {
    var t := FindFirst(TableIs(index.table), tables);
    t.Some? && IntegerColumn(tables[t.value], index.column)
  }

  predicate IntegerColumn(table: TableDefinition, column: Text) {
    var c := FindFirst(ColumnIs(column), table.schema);
    c.Some? && table.schema[c.value].dataType == Integer
  }

  /** The table an index belongs to. */
  function TableOf(tables: seq<TableDefinition>, index: IndexDefinition): (t: TableDefinition)
    requires TargetOk(tables, index)
    ensures t in tables && t.name == index.table && IntegerColumn(t, index.column)
  {
    tables[FindFirst(TableIs(index.table), tables).value]
  }

  /** The position of the indexed column. */
  function ColumnOf(table: TableDefinition, column: Text): (c: nat)
    requires IntegerColumn(table, column)
    ensures c < |table.schema| && table.schema[c].name == column && table.schema[c].dataType == Integer
  {
    FindFirst(ColumnIs(column), table.schema).value
  }

  predicate TablesOk(tables: seq<TableDefinition>) {
    && (forall i :: 0 <= i < |tables| ==> ValidTable(tables[i]))
    && (forall i, j :: 0 <= i < j < |tables| ==> !SameName(tables[i].name, tables[j].name))
  }

  predicate IndexesOk(tables: seq<TableDefinition>, indexes: seq<IndexDefinition>) {
    && (forall i :: 0 <= i < |indexes| ==> NameOk(indexes[i].name) && TargetOk(tables, indexes[i]))
    && (forall i, j :: 0 <= i < j < |indexes| ==> !SameName(indexes[i].name, indexes[j].name))
    && (forall i, j :: 0 <= i < j < |indexes| ==> indexes[i].headerId != indexes[j].headerId)
  }

  /** In a valid list of tables, a spelling belongs to one table. */
  lemma TableUnique(tables: seq<TableDefinition>, i: nat, j: nat)
    requires TablesOk(tables) && i < |tables| && j < |tables| && SameName(tables[i].name, tables[j].name)
    ensures i == j
  {
  }

  /** A new table with a new name disturbs no index. */
  lemma TargetKept(tables: seq<TableDefinition>, table: TableDefinition, index: IndexDefinition)
    requires TargetOk(tables, index)
    ensures TargetOk(tables + [table], index) && TableOf(tables + [table], index) == TableOf(tables, index)
  {
    var more := tables + [table];
    var i, j := FindFirst(TableIs(index.table), tables), FindFirst(TableIs(index.table), more);
    assert more[i.value] == tables[i.value];
    assert TableIs(index.table)(more[i.value]);
  }

  // ---------------------------------------------------------------- records

  const TABLE_MAGIC: seq<byte> := [0x50, 0x46, 0x43, 0x31]
  const INDEX_MAGIC: seq<byte> := [0x50, 0x46, 0x58, 0x31]
  const CATALOG_VERSION := 1

  /** A text with its length before it. */
  function TextField(t: Text): (r: seq<byte>)
    ensures |r| == 2 + |t|
  {
    LE(2, |t|) + t
  }

  function TypeTag(t: DataType): byte {
    match t
    case Integer => 1
    case Text => 2
    case Boolean => 3
  }

  function ColumnField(c: Column): (r: seq<byte>)
    ensures |r| == 4 + |c.name|
  {
    TextField(c.name) + [TypeTag(c.dataType), if c.nullable then 1 else 0]
  }

  function ColumnFields(schema: Schema): seq<byte> {
    if schema == [] then [] else ColumnFields(schema[..|schema| - 1]) + ColumnField(schema[|schema| - 1])
  }

  /** The record of a table definition. */
  function TableRecord(t: TableDefinition): (r: seq<byte>)
    ensures |r| == 14 + |t.name| + |ColumnFields(t.schema)| && r[..4] == TABLE_MAGIC
  {
    TABLE_MAGIC + LE(2, CATALOG_VERSION) + LE(4, t.version) + TextField(t.name) + LE(2, |t.schema|) + ColumnFields(t.schema)
  }

  /** The record of an index definition. */
  function IndexRecord(i: IndexDefinition): (r: seq<byte>)
    ensures |r| == 22 + |i.name| + |i.table| + |i.column| && r[..4] == INDEX_MAGIC
  {
    INDEX_MAGIC + LE(2, CATALOG_VERSION) + LE(2, 0) + LE(4, i.headerId.page) + LE(2, i.headerId.slot) + LE(2, 0)
    + TextField(i.name) + TextField(i.table) + TextField(i.column)
  }

  method AppendText(output: seq<byte>, t: Text) returns (r: seq<byte>)
    ensures r == output + TextField(t)
  {
    r := AppendLE(output, 2, |t|);
    r := r + t;
  }

  /** Appends the fields of a definition one after the other. */
  method EncodeTable(t: TableDefinition) returns (r: seq<byte>)
    ensures r == TableRecord(t)
  {
    hide LE, ColumnField;
    r := AppendLE(TABLE_MAGIC, 2, CATALOG_VERSION);
    r := AppendLE(r, 4, t.version);
    r := AppendText(r, t.name);
    r := AppendLE(r, 2, |t.schema|);
    ghost var head := r;
    for i := 0 to |t.schema|
      invariant r == head + ColumnFields(t.schema[..i])
    {
      assert t.schema[..i + 1][..i] == t.schema[..i];
      r := AppendColumn(r, t.schema[i]);
      assert head + (ColumnFields(t.schema[..i]) + ColumnField(t.schema[i]))
          == head + ColumnFields(t.schema[..i]) + ColumnField(t.schema[i]);
    }
    assert t.schema[..|t.schema|] == t.schema;
  }

  method AppendColumn(output: seq<byte>, c: Column) returns (r: seq<byte>)
    ensures r == output + ColumnField(c)
  {
    r := AppendText(output, c.name);
    r := r + [TypeTag(c.dataType)];
    r := r + [if c.nullable then 1 else 0];
  }

  method EncodeIndex(i: IndexDefinition) returns (r: seq<byte>)
    ensures r == IndexRecord(i)
  {
    hide LE, TextField;
    r := AppendLE(INDEX_MAGIC, 2, CATALOG_VERSION);
    r := AppendLE(r, 2, 0);
    r := AppendLE(r, 4, i.headerId.page);
    r := AppendLE(r, 2, i.headerId.slot);
    r := AppendLE(r, 2, 0);
    r := AppendText(r, i.name);
    r := AppendText(r, i.table);
    r := AppendText(r, i.column);
  }

  /** Every column takes four bytes besides its name. */
  lemma {:induction false} ColumnFieldsSize(schema: Schema)
    ensures |ColumnFields(schema)| >= 4 * |schema|
    ensures forall i :: 0 <= i < |schema| ==> |ColumnFields(schema)| >= 4 * |schema| + |schema[i].name|
  {
    if schema != [] {
      ColumnFieldsSize(schema[..|schema| - 1]);
    }
  }

  // ---------------------------------------------------------------- the catalog

  class Catalog {
    const records: RecordStore
    var tables: seq<TableDefinition>
    var indexes: seq<IndexDefinition>

    ghost predicate Valid()
      reads this
    {
      TablesOk(tables) && IndexesOk(tables, indexes)
    }

    /** The catalog of a database without tables. */
    constructor (records: RecordStore)
      ensures this.records == records && tables == [] && indexes == [] && Valid()
    {
      this.records := records;
      tables, indexes := [], [];
    }

    /** Stores a valid definition under a new name, if its record fits a page. */
    method CreateTable(table: TableDefinition) returns (r: Result<RecordId>)
      requires Valid() && records.Ready() && |records.Slots()| < MAX_PAGES
      modifies this`tables, records, records.pool, records.pool.heap
      ensures Valid() && records.Ready()
      ensures r.Ok? <==> Creatable(old(tables), table) && |TableRecord(table)| <= MAX_RECORD_BYTES
      ensures tables == if r.Ok? then old(tables) + [table] else old(tables)
      ensures r.Ok? ==> Added(old(records.Contents()), records.Contents(), r.value, TableRecord(table))
                        && |records.Slots()| <= |old(records.Slots())| + 1
      ensures r.Err? ==> records.Slots() == old(records.Slots()) && records.Contents() == old(records.Contents())
                         && r.error == if Creatable(old(tables), table) then PageFull else InvalidArgument
    {
      hide ValidTable, TargetOk, SameName, RecordStore.Contents, PoolSlots, HasUnpinned, TableOk, TableRecord,
           PlaceFor, WithPlaced, Kept, BufferPool.Valid;
      if !ValidTable(table) {
        return Err(InvalidArgument);
      }
      if FindFirst(TableLike(table.name), tables).Some? {
        return Err(InvalidArgument);
      }
      var bytes := EncodeTable(table);
      r := records.Insert(bytes);
      if r.Err? {
        return;
      }
      TableAdded(tables, indexes, table);
      tables := tables + [table];
    }

    /** The checks before a tree is looked at. */
    method CheckIndex(index: IndexDefinition) returns (ok: bool)
      ensures ok <==> Registrable(tables, indexes, index)
    {
      hide SameName, NameOk;
      if !NameOk(index.name) || !NameOk(index.table) || !NameOk(index.column) {
        return false;
      }
      for i := 0 to |indexes|
        invariant forall k :: 0 <= k < i ==>
          !SameName(indexes[k].name, index.name) && indexes[k].headerId != index.headerId
      {
        if SameName(indexes[i].name, index.name) || indexes[i].headerId == index.headerId {
          return false;
        }
      }
      var t := FindFirst(TableLike(index.table), tables);
      if t == None {
        return false;
      }
      var c := FindFirst(ColumnLike(index.column), tables[t.value].schema);
      ok := c.Some? && tables[t.value].schema[c.value].dataType == Integer;
    }

    /**
     Assigns a stored tree to a column under a new name, if the record of the definition fits a page; table
     and column get their stored spelling.
     */
    method RegisterIndex(index: IndexDefinition) returns (r: Result<RecordId>)
      requires Valid() && records.Ready() && |records.Slots()| < MAX_PAGES
      modifies this`indexes, records, records.pool, records.pool.heap
      ensures Valid() && records.Ready()
      ensures r.Ok? <==> && Registrable(old(tables), old(indexes), index) && HasTree(old(records.Contents()), index.headerId)
                         && |IndexRecord(Normalized(tables, index))| <= MAX_RECORD_BYTES
      ensures indexes == if r.Ok? then old(indexes) + [Normalized(tables, index)] else old(indexes)
      ensures r.Ok? ==> Added(old(records.Contents()), records.Contents(), r.value, IndexRecord(Normalized(tables, index)))
                        && |records.Slots()| <= |old(records.Slots())| + 1
      ensures r.Err? ==> records.Slots() == old(records.Slots()) && records.Contents() == old(records.Contents())
                         && r.error == if !Registrable(old(tables), old(indexes), index) then InvalidArgument
                                       else if !HasTree(old(records.Contents()), index.headerId) then IndexCorruption
                                       else PageFull
    {
      hide WellFormed, Stored, TargetOk, SameName, IntegerColumn, PoolSlots, TableOk, HasUnpinned,
           RecordStore.Contents, ValidTable, BufferPool.Valid, IndexRecord, PlaceFor, WithPlaced, Kept, Height,
           Registrable, Normalized, HasTree;
      var sound := CheckIndex(index);
      if !sound {
        return Err(InvalidArgument);
      }
      var tree := BPlusTreeIndex.Open(records, index.headerId);
      if tree.Err? {
        NoTree(records.Contents(), index.headerId);
        return Err(tree.error);
      }
      TreeThere(records.Contents(), tree.value.tree);
      IndexAdded(tables, indexes, index);
      var bytes := EncodeIndex(Normalized(tables, index));
      r := records.Insert(bytes);
      if r.Err? {
        return;
      }
      indexes := indexes + [Normalized(tables, index)];
    }
  }

  /** The definition is valid, and its name is new without regard to case. */
  predicate Creatable(tables: seq<TableDefinition>, table: TableDefinition) {
    ValidTable(table) && FindFirst(TableLike(table.name), tables) == None
  }

  /** What a new definition has to meet. */
  lemma CreatableMeans(tables: seq<TableDefinition>, t: TableDefinition)
    ensures Creatable(tables, t) <==>
      && 1 <= |t.name| <= 0xFFFF && 1 <= t.version <= 0xFFFF_FFFF && 1 <= |t.schema| <= 0xFFFF
      && (forall c :: c in t.schema ==> 1 <= |c.name| <= 0xFFFF)
      && (forall i, j :: 0 <= i < j < |t.schema| ==> !SameName(t.schema[i].name, t.schema[j].name))
      && (forall other :: other in tables ==> !SameName(other.name, t.name))
  {
    hide SameName;
    assert forall i :: 0 <= i < |t.schema| ==> t.schema[i] in t.schema;
    assert forall i :: 0 <= i < |tables| ==> tables[i] in tables && (TableLike(t.name)(tables[i]) <==> SameName(tables[i].name, t.name));
  }

  /** The store has one more record. */
  ghost predicate Added(m: Store, m': Store, id: RecordId, bytes: seq<byte>) {
    id !in m && m' == m[id := bytes]
  }

  /** A tree is stored under the header id. */
  ghost predicate HasTree(m: Store, header: RecordId) {
    exists t :: WellFormed(t) && Stored(m, t) && t.header == header
  }

  lemma TreeThere(m: Store, t: Tree)
    requires WellFormed(t) && Stored(m, t)
    ensures HasTree(m, t.header)
  {
  }

  lemma IndexAdded(tables: seq<TableDefinition>, indexes: seq<IndexDefinition>, index: IndexDefinition)
    requires TablesOk(tables) && IndexesOk(tables, indexes) && Registrable(tables, indexes, index)
    ensures IndexesOk(tables, indexes + [Normalized(tables, index)])
  {
    hide SameName, TargetOk, ValidTable;
    NormalizedTarget(tables, index);
  }

  lemma NoTree(m: Store, header: RecordId)
    requires forall t :: WellFormed(t) && Stored(m, t) ==> t.header != header
    ensures !HasTree(m, header)
  {
    hide WellFormed, Stored;
  }

  lemma TableAdded(tables: seq<TableDefinition>, indexes: seq<IndexDefinition>, table: TableDefinition)
    requires TablesOk(tables) && IndexesOk(tables, indexes) && Creatable(tables, table)
    ensures TablesOk(tables + [table]) && IndexesOk(tables + [table], indexes)
  {
    hide ValidTable, TargetOk, SameName;
    forall i | 0 <= i < |tables|
      ensures !SameName(tables[i].name, table.name)
    {
      assert !TableLike(table.name)(tables[i]);
    }
    forall i | 0 <= i < |indexes|
      ensures TargetOk(tables + [table], indexes[i])
    {
      TargetKept(tables, table, indexes[i]);
    }
  }

  /** What registration demands, apart from the tree. */
  predicate Registrable(tables: seq<TableDefinition>, indexes: seq<IndexDefinition>, index: IndexDefinition) {
    && NameOk(index.name) && NameOk(index.table) && NameOk(index.column)
    && (forall k :: 0 <= k < |indexes| ==>
          !SameName(indexes[k].name, index.name) && indexes[k].headerId != index.headerId)
    && var t := FindFirst(TableLike(index.table), tables);
    && t.Some?
    && var c := FindFirst(ColumnLike(index.column), tables[t.value].schema);
    && c.Some? && tables[t.value].schema[c.value].dataType == Integer
  }

  /** The definition with the stored spelling of its table and column. */
  function Normalized(tables: seq<TableDefinition>, index: IndexDefinition): IndexDefinition {
    var t := FindFirst(TableLike(index.table), tables);
    if t == None then index else
    var table := tables[t.value];
    var c := FindFirst(ColumnLike(index.column), table.schema);
    if c == None then index else index.(table := table.name, column := table.schema[c.value].name)
  }

  /** A new index names an integer column of a table, and no other index has its name or its tree. */
  lemma RegistrableMeans(tables: seq<TableDefinition>, indexes: seq<IndexDefinition>, index: IndexDefinition)
    requires TablesOk(tables)
    ensures Registrable(tables, indexes, index) <==>
      && 1 <= |index.name| <= 0xFFFF && 1 <= |index.table| <= 0xFFFF && 1 <= |index.column| <= 0xFFFF
      && (forall other :: other in indexes ==> !SameName(other.name, index.name) && other.headerId != index.headerId)
      && exists t, c :: t in tables && SameName(t.name, index.table) && c in t.schema && SameName(c.name, index.column)
                        && c.dataType == Integer
    ensures Registrable(tables, indexes, index) ==>
      exists t, c :: && t in tables && SameName(t.name, index.table) && c in t.schema && SameName(c.name, index.column)
                     && Normalized(tables, index) == IndexDefinition(index.name, t.name, c.name, index.headerId)
  {
    hide Folded;
    forall i | 0 <= i < |indexes|
      ensures indexes[i] in indexes
    {
    }
    if Registrable(tables, indexes, index) {
      var t := tables[FindFirst(TableLike(index.table), tables).value];
      var c := t.schema[FindFirst(ColumnLike(index.column), t.schema).value];
      assert t in tables && c in t.schema;
      assert TableLike(index.table)(t) && ColumnLike(index.column)(c);
    }
    if exists t, c :: t in tables && SameName(t.name, index.table) && c in t.schema && SameName(c.name, index.column)
                      && c.dataType == Integer {
      var t, c :| t in tables && SameName(t.name, index.table) && c in t.schema && SameName(c.name, index.column)
                  && c.dataType == Integer;
      LikeIsFound(tables, t, index.table);
      ColumnLikeFound(t, c, index.column);
    }
  }

  /** In a valid catalog, a name finds the one table of that name. */
  lemma LikeIsFound(tables: seq<TableDefinition>, t: TableDefinition, name: Text)
    requires TablesOk(tables) && t in tables && SameName(t.name, name)
    ensures FindFirst(TableLike(name), tables).Some? && tables[FindFirst(TableLike(name), tables).value] == t
  {
    hide Folded, ValidTable;
    var i :| 0 <= i < |tables| && tables[i] == t;
    assert TableLike(name)(tables[i]);
    var j := FindFirst(TableLike(name), tables).value;
    assert TableLike(name)(tables[j]);
    TableUnique(tables, i, j);
  }

  lemma ColumnLikeFound(t: TableDefinition, c: Column, name: Text)
    requires ValidTable(t) && c in t.schema && SameName(c.name, name)
    ensures FindFirst(ColumnLike(name), t.schema).Some? && t.schema[FindFirst(ColumnLike(name), t.schema).value] == c
  {
    hide Folded;
    var i :| 0 <= i < |t.schema| && t.schema[i] == c;
    assert ColumnLike(name)(t.schema[i]);
    var j := FindFirst(ColumnLike(name), t.schema).value;
    assert ColumnLike(name)(t.schema[j]);
    assert SameName(t.schema[i].name, t.schema[j].name) && SameName(t.schema[j].name, t.schema[i].name);
  }

  /** The spelling found without regard to case is found again exactly. */
  lemma NormalizedTarget(tables: seq<TableDefinition>, index: IndexDefinition)
    requires TablesOk(tables) && Registrable(tables, [], index)
    ensures TargetOk(tables, Normalized(tables, index))
    ensures var t := FindFirst(TableLike(index.table), tables).value;
      && TableOf(tables, Normalized(tables, index)) == tables[t]
      && ColumnOf(tables[t], Normalized(tables, index).column) == FindFirst(ColumnLike(index.column), tables[t].schema).value
  {
    hide SameName;
    var t := FindFirst(TableLike(index.table), tables).value;
    var c := FindFirst(ColumnLike(index.column), tables[t].schema).value;
    SpellingFound(tables, t);
    ColumnFound(tables[t], c);
  }

  lemma SpellingFound(tables: seq<TableDefinition>, t: nat)
    requires TablesOk(tables) && t < |tables|
    ensures FindFirst(TableIs(tables[t].name), tables) == Some(t)
  {
    var f := FindFirst(TableIs(tables[t].name), tables);
    assert TableIs(tables[t].name)(tables[t]);
    TableUnique(tables, f.value, t);
  }

  lemma ColumnFound(table: TableDefinition, c: nat)
    requires ValidTable(table) && c < |table.schema|
    ensures FindFirst(ColumnIs(table.schema[c].name), table.schema) == Some(c)
  {
    var f := FindFirst(ColumnIs(table.schema[c].name), table.schema);
    assert ColumnIs(table.schema[c].name)(table.schema[c]);
  }
}
