/** Typed rows as records: the row envelope, the rows of a table, and the order of a scan. */
module TableRows {
  import opened Wrappers
  import opened Bytes
  import opened Sequences
  import opened Stores
  import opened BPlusNodes
  import opened BPlusTrees
  import opened Tuples
  import opened TupleCodec
  import opened Catalogs

  datatype TableRow = TableRow(id: RecordId, values: Tuple)

  datatype Envelope = Envelope(table: Text, version: nat, payload: seq<byte>)

  type RowMap = map<RecordId, Tuple>

  const ROW_MAGIC: seq<byte> := [0x50, 0x46, 0x52, 0x31]
  const ROW_VERSION := 1
  const ROW_PREFIX := 12

  predicate HasMagic(b: seq<byte>) {
    |b| >= 4 && b[..4] == ROW_MAGIC
  }

  /** Splits a record into its envelope fields and the tuple bytes. */
  function Parse(b: seq<byte>): Result<Envelope> {
    if !HasMagic(b) then Err(InvalidArgument)
    else if |b| < 6 || Get(b, 4, 2) != ROW_VERSION then Err(TableCorruption)
    else if |b| < 10 || Get(b, 6, 4) == 0 then Err(TableCorruption)
    else if |b| < ROW_PREFIX || Get(b, 10, 2) == 0 then Err(TableCorruption)
    else
      var n := Get(b, 10, 2);
      if |b| - ROW_PREFIX < n then Err(TableCorruption)
      else Ok(Envelope(b[ROW_PREFIX..ROW_PREFIX + n], Get(b, 6, 4), b[ROW_PREFIX + n..]))
  }

  /** The record of a row with this name, schema version and tuple encoding. */
  function WrapBytes(name: Text, version: nat, payload: seq<byte>): seq<byte> {
    ROW_MAGIC + LE(2, ROW_VERSION) + LE(4, version) + LE(2, |name|) + name + payload
  }

  function WrapRow(table: TableDefinition, payload: seq<byte>): seq<byte> {
    WrapBytes(table.name, table.version, payload)
  }

  lemma WrapFields(name: Text, version: nat, payload: seq<byte>)
    ensures var b := WrapBytes(name, version, payload);
      && |b| == ROW_PREFIX + |name| + |payload|
      && b[..4] == ROW_MAGIC && b[4..6] == LE(2, ROW_VERSION) && b[6..10] == LE(4, version)
      && b[10..12] == LE(2, |name|) && b[12..12 + |name|] == name && b[12 + |name|..] == payload
  {
    hide LE;
  }

  /** Parsing undoes wrapping. */
  lemma ParseOfWrap(name: Text, version: nat, payload: seq<byte>)
    requires 0 < |name| <= MAX_NAME && 0 < version <= MAX_VERSION
    ensures Parse(WrapBytes(name, version, payload)) == Ok(Envelope(name, version, payload))
  {
    Pow256Values();
    WrapFields(name, version, payload);
    LERoundTrip(2, ROW_VERSION);
    LERoundTrip(4, version);
    LERoundTrip(2, |name|);
    hide LE, FromLE, WrapBytes;
  }

  /** Parsing accepts only what wrapping produces. */
  lemma WrapOfParse(b: seq<byte>)
    requires Parse(b).Ok?
    ensures var e := Parse(b).value;
      0 < |e.table| <= MAX_NAME && 0 < e.version <= MAX_VERSION && b == WrapBytes(e.table, e.version, e.payload)
  {
    hide LE, FromLE, Pow256;
    Pow256Values();
    GetBound(b, 6, 4);
    GetBound(b, 10, 2);
    LECanonical(b[4..6]);
    LECanonical(b[6..10]);
    LECanonical(b[10..12]);
    var n := Get(b, 10, 2);
    assert b == b[..4] + b[4..6] + b[6..10] + b[10..12] + b[12..12 + n] + b[12 + n..];
  }

  function DecodeRow(table: TableDefinition, e: Envelope): Result<Tuple> {
    if e.version != table.version then Err(TableCorruption) else
    var t := DecodeTuple(table.schema, e.payload);
    if t == Err(TupleCorruption) then Err(TableCorruption) else t
  }

  /** What a record means to the table: a row, nothing, or damage. */
  function RowIn(table: TableDefinition, b: seq<byte>): Result<Option<Tuple>> {
    if !HasMagic(b) then Ok(None) else
    match Parse(b)
    case Err(error) => Err(error)
    case Ok(e) =>
      if e.table != table.name then Ok(None) else
      match DecodeRow(table, e)
      case Err(error) => Err(error)
      case Ok(t) => Ok(Some(t))
  }

  function RowTuple(table: TableDefinition, b: seq<byte>): Option<Tuple> {
    var r := RowIn(table, b);
    if r.Ok? then r.value else None
  }

  /** Reading back a row that was wrapped for the table. */
  lemma RowOfWrap(table: TableDefinition, t: Tuple)
    requires ValidTable(table) && ValidTuple(table.schema, t)
    ensures var b := WrapRow(table, EncodeTuple(t));
      HasMagic(b) && Parse(b) == Ok(Envelope(table.name, table.version, EncodeTuple(t))) && RowIn(table, b) == Ok(Some(t))
  {
    hide DecodeTuple, EncodeTuple, ValidTuple, WrapBytes;
    WrapFields(table.name, table.version, EncodeTuple(t));
    ParseOfWrap(table.name, table.version, EncodeTuple(t));
    DecodeOfEncode(table.schema, t);
  }

  /** A decoded row fits the schema. */
  lemma RowFits(table: TableDefinition, b: seq<byte>)
    requires RowTuple(table, b).Some?
    ensures ValidTuple(table.schema, RowTuple(table, b).value)
  {
    hide DecodeTuple, EncodeTuple, ValidTuple;
    EncodeOfDecode(table.schema, Parse(b).value.payload);
  }

  /** Tree nodes are not rows. */
  lemma NodesAreNotRows(b: seq<byte>)
    ensures forall h :: IsHeader(b, h) ==> !HasMagic(b)
    ensures forall l :: IsLeaf(b, l) ==> !HasMagic(b)
    ensures forall cs :: IsInternal(b, cs) ==> !HasMagic(b)
  {
    assert HEADER_MAGIC[2] != ROW_MAGIC[2] && LEAF_MAGIC[2] != ROW_MAGIC[2] && INTERNAL_MAGIC[2] != ROW_MAGIC[2];
  }

  // ---------------------------------------------------------------- rows of a table

  /** The rows of a table by record id. */
  function Rows(table: TableDefinition, m: Store): (rows: RowMap)
    ensures forall id :: id in rows <==> id in m && RowTuple(table, m[id]).Some?
    ensures forall id :: id in rows ==> id in m && RowTuple(table, m[id]) == Some(rows[id])
  {
    map id | id in m && RowTuple(table, m[id]).Some? :: RowTuple(table, m[id]).value
  }

  lemma RowsFit(table: TableDefinition, m: Store)
    ensures forall id :: id in Rows(table, m) ==> ValidTuple(table.schema, Rows(table, m)[id])
  {
    forall id | id in Rows(table, m)
      ensures ValidTuple(table.schema, Rows(table, m)[id])
    {
      RowFits(table, m[id]);
    }
  }

  /** Every row record belongs to a table of the catalog and decodes under its schema. */
  predicate RecordOk(tables: seq<TableDefinition>, b: seq<byte>) {
    HasMagic(b) ==>
      && Parse(b).Ok?
      && var t := FindFirst(TableIs(Parse(b).value.table), tables);
      && t.Some? && DecodeRow(tables[t.value], Parse(b).value).Ok?
  }

  predicate RowsOk(tables: seq<TableDefinition>, m: Store) {
    forall id :: id in m ==> RecordOk(tables, m[id])
  }

  lemma RowInOk(tables: seq<TableDefinition>, table: TableDefinition, b: seq<byte>)
    requires TablesOk(tables) && table in tables && RecordOk(tables, b)
    ensures RowIn(table, b).Ok?
  {
    hide ValidTable, Folded, DecodeRow, Parse;
    if HasMagic(b) && Parse(b).value.table == table.name {
      var i :| 0 <= i < |tables| && tables[i] == table;
      SpellingFound(tables, i);
    }
  }

  /** The stores hold the same row records. */
  ghost predicate SameRows(m: Store, m': Store) {
    forall id :: && (id in m && HasMagic(m[id]) <==> id in m' && HasMagic(m'[id]))
                 && (id in m && HasMagic(m[id]) ==> m'[id] == m[id])
  }

  lemma SameRowsMeans(tables: seq<TableDefinition>, m: Store, m': Store)
    requires SameRows(m, m')
    ensures forall table :: Rows(table, m) == Rows(table, m')
    ensures RowsOk(tables, m) ==> RowsOk(tables, m')
  {
    hide HasMagic, Parse, DecodeRow;
    forall table
      ensures Rows(table, m) == Rows(table, m')
    {
      forall id
        ensures id in Rows(table, m) <==> id in Rows(table, m')
        ensures id in Rows(table, m) ==> Rows(table, m)[id] == Rows(table, m')[id]
      {
      }
    }
  }

  lemma SameRowsTrans(a: Store, b: Store, c: Store)
    requires SameRows(a, b) && SameRows(b, c)
    ensures SameRows(a, c)
  {
    hide HasMagic;
  }

  /** What the record of a row means to its table and to others. */
  lemma WrappedRow(tables: seq<TableDefinition>, table: TableDefinition, t: Tuple)
    requires TablesOk(tables) && table in tables && ValidTuple(table.schema, t)
    ensures var b := WrapRow(table, EncodeTuple(t));
      && HasMagic(b) && RecordOk(tables, b) && RowTuple(table, b) == Some(t)
      && forall other: TableDefinition :: other.name != table.name ==> RowTuple(other, b) == None
  {
    hide EncodeTuple, DecodeTuple, ValidTuple, ValidTable, WrapBytes, Folded;
    var i :| 0 <= i < |tables| && tables[i] == table;
    assert ValidTable(tables[i]);
    RowOfWrap(table, t);
    SpellingFound(tables, i);
    hide Parse, HasMagic;
  }

  /** Storing a row of a table adds it to that table and to no other. */
  lemma RowAdded(tables: seq<TableDefinition>, table: TableDefinition, m: Store, id: RecordId, t: Tuple)
    requires TablesOk(tables) && table in tables && ValidTuple(table.schema, t) && id !in m
    ensures var m' := m[id := WrapRow(table, EncodeTuple(t))];
      && Rows(table, m') == Rows(table, m)[id := t]
      && (forall other: TableDefinition :: other.name != table.name ==> Rows(other, m') == Rows(other, m))
      && (RowsOk(tables, m) ==> RowsOk(tables, m'))
  {
    hide TablesOk, WrapRow, RowTuple, RecordOk, HasMagic, ValidTuple;
    WrappedRow(tables, table, t);
  }

  /** Removing a row's record removes it from its table and from no other. */
  lemma RowRemoved(tables: seq<TableDefinition>, table: TableDefinition, m: Store, id: RecordId)
    requires id in Rows(table, m)
    ensures Rows(table, m - {id}) == Rows(table, m) - {id}
    ensures forall other: TableDefinition :: other.name != table.name ==> Rows(other, m - {id}) == Rows(other, m)
    ensures RowsOk(tables, m) ==> RowsOk(tables, m - {id})
  {
    hide Parse, HasMagic, DecodeRow, RecordOk;
  }

  // ---------------------------------------------------------------- scan order

  lemma {:induction false} GreatestExists(ids: set<RecordId>) returns (last: RecordId)
    requires ids != {}
    ensures last in ids && forall id :: id in ids && id != last ==> IdLess(id, last)
    decreases |ids|
  {
    var x :| x in ids;
    var rest := ids - {x};
    last := x;
    if rest != {} {
      var y := GreatestExists(rest);
      if IdLess(x, y) {
        last := y;
      }
      assert forall id :: id in rest && id != y ==> IdLess(id, y);
    }
    assert forall id :: id in ids ==> id == x || id in rest;
  }

  lemma {:induction false} ListingExists(m: Store) returns (rs: seq<Record>)
    ensures IsListing(m, rs)
    decreases |m|
  {
    if m.Keys == {} {
      rs := [];
    } else {
      var last := GreatestExists(m.Keys);
      var rest := m - {last};
      assert rest.Keys == m.Keys - {last};
      assert |rest| == |rest.Keys| && |m| == |m.Keys|;
      var front := ListingExists(rest);
      rs := front + [Record(last, m[last])];
      ListingSnoc(m, last, front);
    }
  }

  lemma ListingSnoc(m: Store, last: RecordId, front: seq<Record>)
    requires last in m && IsListing(m - {last}, front)
    requires forall id :: id in m && id != last ==> IdLess(id, last)
    ensures IsListing(m, front + [Record(last, m[last])])
  {
    var rs := front + [Record(last, m[last])];
    forall id | id in m
      ensures Record(id, m[id]) in rs
    {
      if id != last {
        assert id in m - {last};
        assert Record(id, (m - {last})[id]) in front;
      }
    }
  }

  /** All records in scan order. */
  ghost function Listing(m: Store): (rs: seq<Record>)
    ensures IsListing(m, rs)
  {
    assert exists rs :: IsListing(m, rs) by {
      var rs := ListingExists(m);
    }
    var rs :| IsListing(m, rs);
    rs
  }

  /** What a scan that meets these records delivers: the table's rows, or the first damage. */
  function Reading(table: TableDefinition, rs: seq<Record>): Result<seq<TableRow>> {
    if rs == [] then Ok([]) else
    match RowIn(table, rs[0].bytes)
    case Err(error) => Err(error)
    case Ok(row) =>
      var rest := Reading(table, rs[1..]);
      if rest.Err? || row == None then rest else Ok([TableRow(rs[0].id, row.value)] + rest.value)
  }

  /** The rows of a table in scan order. */
  ghost function Scanned(table: TableDefinition, m: Store): seq<TableRow> {
    var r := Reading(table, Listing(m));
    if r.Ok? then r.value else []
  }

  function ById(): (TableRow, TableRow) -> bool {
    (a: TableRow, b: TableRow) => IdLess(a.id, b.id)
  }

  lemma {:induction false} ReadingExact(table: TableDefinition, rs: seq<Record>)
    requires Ascending(rs) && forall i :: 0 <= i < |rs| ==> RowIn(table, rs[i].bytes).Ok?
    ensures var r := Reading(table, rs);
      && r.Ok? && StrictlySorted(ById(), r.value)
      && forall row :: row in r.value <==> exists i :: 0 <= i < |rs| && IsRowOf(table, rs[i], row)
  {
    hide RowIn;
    if rs != [] {
      var rest := Reading(table, rs[1..]);
      ReadingExact(table, rs[1..]);
      assert forall i :: 0 <= i < |rs[1..]| ==> rs[1..][i] == rs[i + 1];
      var first := RowIn(table, rs[0].bytes).value;
      forall row
        ensures row in Reading(table, rs).value <==> exists i :: 0 <= i < |rs| && IsRowOf(table, rs[i], row)
      {
        if i :| 0 <= i < |rs| && IsRowOf(table, rs[i], row) {
          assert i > 0 ==> IsRowOf(table, rs[1..][i - 1], row);
        }
        if row in rest.value {
          var i :| 0 <= i < |rs[1..]| && IsRowOf(table, rs[1..][i], row);
          assert IsRowOf(table, rs[i + 1], row);
        } else if first.Some? && row == TableRow(rs[0].id, first.value) {
          assert IsRowOf(table, rs[0], row);
        }
      }
      if first.Some? {
        forall k | 0 <= k < |rest.value|
          ensures IdLess(rs[0].id, rest.value[k].id)
        {
          assert rest.value[k] in rest.value;
          var i :| 0 <= i < |rs[1..]| && IsRowOf(table, rs[1..][i], rest.value[k]);
          assert IdLess(rs[0].id, rs[i + 1].id);
        }
      }
    }
  }

  predicate IsRowOf(table: TableDefinition, r: Record, row: TableRow) {
    row.id == r.id && RowTuple(table, r.bytes) == Some(row.values)
  }

  /** A scan lists exactly the rows of the table, by record id. */
  lemma ScannedExact(tables: seq<TableDefinition>, table: TableDefinition, m: Store)
    requires TablesOk(tables) && table in tables && RowsOk(tables, m)
    ensures Reading(table, Listing(m)) == Ok(Scanned(table, m))
    ensures StrictlySorted(ById(), Scanned(table, m))
    ensures forall row :: row in Scanned(table, m) <==> row.id in Rows(table, m) && Rows(table, m)[row.id] == row.values
  {
    hide RowIn, RecordOk, TablesOk, Reading;
    var rs := Listing(m);
    forall i | 0 <= i < |rs|
      ensures RowIn(table, rs[i].bytes).Ok?
    {
      RowInOk(tables, table, rs[i].bytes);
    }
    ReadingExact(table, rs);
    forall row
      ensures row in Scanned(table, m) <==> row.id in Rows(table, m) && Rows(table, m)[row.id] == row.values
    {
      if row.id in Rows(table, m) && Rows(table, m)[row.id] == row.values {
        assert Record(row.id, m[row.id]) in rs;
        var i :| 0 <= i < |rs| && rs[i] == Record(row.id, m[row.id]);
        assert IsRowOf(table, rs[i], row);
      }
    }
  }

  // ---------------------------------------------------------------- indexed columns

  /** The key a row has in an index on column c; null has none. */
  function KeyAt(values: Tuple, c: nat): Option<int64> {
    if c < |values| && values[c].IntValue? then Some(values[c].i) else None
  }

  /** The index holds exactly the pairs of key and row id of the rows whose column is not null. */
  ghost predicate Agrees(t: Tree, rows: RowMap, c: nat) {
    forall e :: e in EntrySet(t) <==> e.value in rows && KeyAt(rows[e.value], c) == Some(e.key)
  }

  /** In a fitting row, an integer column is null or has a key. */
  lemma KeyOrNull(table: TableDefinition, values: Tuple, c: nat)
    requires ValidTuple(table.schema, values) && c < |table.schema| && table.schema[c].dataType == Integer
    ensures c < |values| && (values[c].Null? || values[c].IntValue?)
    ensures KeyAt(values, c) == None <==> values[c].Null?
  {
    assert Fits(values[c], table.schema[c]);
  }
}
