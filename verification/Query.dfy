/** Pull-based row operators and their composition into queries. */
module Queries {
  import opened Wrappers
  import opened Sequences
  import opened PageFormat
  import opened BufferPools
  import opened PageGuards
  import opened Stores
  import opened RecordStores
  import opened Tuples
  import opened Catalogs
  import opened TableRows
  import opened TableStores

  type RowPredicate = TableRow -> bool

  type RowLess = (TableRow, TableRow) -> bool

  /** A value of a row; rows have the width of their schema, so that no column is missing. */
  function At(values: Tuple, c: nat): Value {
    if c < |values| then values[c] else Null
  }

  /** The row with the listed columns only, under the id of the original. */
  function Projected(columns: seq<nat>, row: TableRow): TableRow {
    TableRow(row.id, seq(|columns|, k requires 0 <= k < |columns| => At(row.values, columns[k])))
  }

  function Projection(columns: seq<nat>): TableRow -> TableRow {
    (row: TableRow) => Projected(columns, row)
  }

  /** What is to be delivered, from the next row and what comes behind it. */
  function Then(next: Option<TableRow>, rest: seq<TableRow>): seq<TableRow> {
    if next == None then [] else [next.value] + rest
  }

  /** The operators of a query plan; each is an object that advances its own position. */
  datatype RowOperator =
    | Scanning(scan: ScanOperator)
    | Listing(rows: RowsOperator)
    | Filtering(filter: FilterOperator)
    | Projecting(project: ProjectOperator)
    | Sorting(sort: SortOperator)
    | Limiting(limit: LimitOperator)
  {
    ghost function Depth(): nat {
      match this
      case Scanning(_) => 0
      case Listing(_) => 0
      case Filtering(o) => o.depth
      case Projecting(o) => o.depth
      case Sorting(o) => o.depth
      case Limiting(o) => o.depth
    }

    /** The objects that the operator and its inputs are made of, apart from the pool. */
    ghost function Repr(): set<object> {
      match this
      case Scanning(o) => {o, o.cursor, o.cursor.cursor}
      case Listing(o) => {o}
      case Filtering(o) => o.repr
      case Projecting(o) => o.repr
      case Sorting(o) => o.repr
      case Limiting(o) => o.repr
    }

    /** The operators form a chain of different objects. */
    ghost predicate Chained()
      decreases Depth()
    {
      match this
      case Scanning(_) => true
      case Listing(_) => true
      case Filtering(o) => OnTop(o, o.repr, o.depth, o.input) && o.input.Chained()
      case Projecting(o) => OnTop(o, o.repr, o.depth, o.input) && o.input.Chained()
      case Sorting(o) => OnTop(o, o.repr, o.depth, o.input) && o.input.Chained()
      case Limiting(o) => OnTop(o, o.repr, o.depth, o.input) && o.input.Chained()
    }

    /** The chain scans this pool, and the pool is not a part of it. */
    ghost predicate Over(pool: BufferPool)
      requires Chained()
      decreases Depth()
    {
      && pool !in Repr() && pool.heap !in Repr()
      && match this
         case Scanning(o) => o.cursor.cursor.pool == pool
         case Listing(_) => true
         case Filtering(o) => o.input.Over(pool)
         case Projecting(o) => o.input.Over(pool)
         case Sorting(o) => o.input.Over(pool)
         case Limiting(o) => o.input.Over(pool)
    }

    /** Positions are within bounds, and the records still to be scanned are sound. */
    ghost predicate Ready(ss: seq<Records>)
      reads Repr()
      requires Chained()
      decreases Depth()
    {
      match this
      case Scanning(o) => o.cursor.cursor.endPage <= |ss| && Reading(o.cursor.table, o.cursor.cursor.Remaining(ss)).Ok?
      case Listing(o) => o.next <= |o.rows|
      case Filtering(o) => o.input.Ready(ss)
      case Projecting(o) => o.input.Ready(ss)
      case Sorting(o) => if o.loaded then o.next <= |o.rows| else o.rows == [] && o.next == 0 && o.input.Ready(ss)
      case Limiting(o) => o.input.Ready(ss)
    }

    /** The rows still to be delivered, when the pages hold the slots ss. */
    ghost function Pending(ss: seq<Records>): seq<TableRow>
      reads Repr()
      requires Chained() && Ready(ss)
      decreases Depth()
    {
      match this
      case Scanning(o) => Reading(o.cursor.table, o.cursor.cursor.Remaining(ss)).value
      case Listing(o) => o.rows[o.next..]
      case Filtering(o) => Filter(o.accepts, o.input.Pending(ss))
      case Projecting(o) => Map(Projection(o.columns), o.input.Pending(ss))
      case Sorting(o) => if o.loaded then o.rows[o.next..] else StableSort(o.less, o.input.Pending(ss))
      case Limiting(o) => Take(o.input.Pending(ss), Some(o.remaining))
    }

    /** Delivers the next pending row. */
    method Next(ghost pool: BufferPool) returns (r: Option<TableRow>)
      requires Chained() && Over(pool) && Usable(pool) && Ready(PoolSlots(pool))
      modifies Repr(), pool, pool.heap
      ensures Usable(pool) && PoolSlots(pool) == old(PoolSlots(pool)) && Ready(PoolSlots(pool))
      ensures old(Pending(PoolSlots(pool))) == Then(r, Pending(PoolSlots(pool)))
      ensures r == None ==> Pending(PoolSlots(pool)) == []
      decreases Depth(), 2
    {
      hide PoolSlots, HasUnpinned, Reading, Filter, StableSort, TableOk, BufferPool.Valid;
      match this {
        case Scanning(o) => r := o.Next(pool);
        case Listing(o) => r := o.Next(pool);
        case Filtering(o) => r := o.Next(pool);
        case Projecting(o) => r := o.Next(pool);
        case Sorting(o) => r := o.Next(pool);
        case Limiting(o) => r := o.Next(pool);
      }
    }
  }

  /** The operator object is new to its input and one level above it. */
  ghost predicate OnTop(o: object, repr: set<object>, depth: nat, input: RowOperator) {
    o !in input.Repr() && repr == {o} + input.Repr() && depth == input.Depth() + 1
  }

  class ScanOperator {
    const cursor: TableCursor

    constructor (cursor: TableCursor)
      ensures this.cursor == cursor
    {
      this.cursor := cursor;
    }

    method Next(ghost pool: BufferPool) returns (r: Option<TableRow>)
      requires Scanning(this).Chained() && Scanning(this).Over(pool) && Usable(pool) && Scanning(this).Ready(PoolSlots(pool))
      modifies Scanning(this).Repr(), pool, pool.heap
      ensures Usable(pool) && PoolSlots(pool) == old(PoolSlots(pool)) && Scanning(this).Ready(PoolSlots(pool))
      ensures old(Scanning(this).Pending(PoolSlots(pool))) == Then(r, Scanning(this).Pending(PoolSlots(pool)))
      ensures r == None ==> Scanning(this).Pending(PoolSlots(pool)) == []
      decreases 0, 0
    {
      hide PoolSlots, HasUnpinned, Reading, TableOk, RecordCursor.Remaining;
      ghost var ss := PoolSlots(pool);
      ghost var rest := Reading(cursor.table, cursor.cursor.Remaining(ss));
      var row := cursor.Next();
      SoundReading(row, Reading(cursor.table, cursor.cursor.Remaining(ss)), rest);
      r := if row.Ok? then row.value else None;
    }
  }

  /** A sound reading meets no damage. */
  lemma SoundReading(next: Result<Option<TableRow>>, after: Result<seq<TableRow>>, rest: Result<seq<TableRow>>)
    requires rest == NextThen(next, after) && rest.Ok? && (next == Ok(None) ==> after == Ok([]))
    ensures next.Ok? && after.Ok? && rest.value == Then(next.value, after.value)
  {
  }

  class RowsOperator {
    const rows: seq<TableRow>
    var next: nat

    constructor (rows: seq<TableRow>)
      ensures this.rows == rows && next == 0
    {
      this.rows := rows;
      next := 0;
    }

    method Next(ghost pool: BufferPool) returns (r: Option<TableRow>)
      requires next <= |rows|
      modifies this
      ensures next <= |rows| && old(rows[next..]) == Then(r, rows[next..]) && (r == None ==> rows[next..] == [])
      decreases 0, 0
    {
      if next == |rows| {
        return None;
      }
      r := Some(rows[next]);
      next := next + 1;
    }
  }

  class FilterOperator {
    const input: RowOperator
    const accepts: RowPredicate
    ghost const repr: set<object>
    ghost const depth: nat

    constructor (input: RowOperator, accepts: RowPredicate)
      ensures this.input == input && this.accepts == accepts
      ensures repr == {this} + input.Repr() && depth == input.Depth() + 1
    {
      this.input := input;
      this.accepts := accepts;
      repr := {this} + input.Repr();
      depth := input.Depth() + 1;
    }

    method Next(ghost pool: BufferPool) returns (r: Option<TableRow>)
      requires Filtering(this).Chained() && Filtering(this).Over(pool) && Usable(pool)
      requires Filtering(this).Ready(PoolSlots(pool))
      modifies repr, pool, pool.heap
      ensures Usable(pool) && PoolSlots(pool) == old(PoolSlots(pool)) && Filtering(this).Ready(PoolSlots(pool))
      ensures old(Filtering(this).Pending(PoolSlots(pool))) == Then(r, Filtering(this).Pending(PoolSlots(pool)))
      ensures r == None ==> Filtering(this).Pending(PoolSlots(pool)) == []
      decreases depth, 0
    {
      hide PoolSlots, HasUnpinned, Filter, TableOk;
      ghost var ss := PoolSlots(pool);
      ghost var all := Filter(accepts, input.Pending(ss));
      while true
        invariant Usable(pool) && PoolSlots(pool) == ss && input.Ready(ss)
        invariant Filter(accepts, input.Pending(ss)) == all
        decreases |input.Pending(ss)|
      {
        var row := input.Next(pool);
        if row == None {
          FilterEmpty(accepts);
          return None;
        }
        FilterCons(accepts, row.value, input.Pending(ss));
        if accepts(row.value) {
          return row;
        }
        assert [] + Filter(accepts, input.Pending(ss)) == Filter(accepts, input.Pending(ss));
      }
    }
  }

  lemma FilterEmpty(p: RowPredicate)
    ensures Filter(p, []) == []
  {
  }

  class ProjectOperator {
    const input: RowOperator
    const columns: seq<nat>
    ghost const repr: set<object>
    ghost const depth: nat

    constructor (input: RowOperator, columns: seq<nat>)
      ensures this.input == input && this.columns == columns
      ensures repr == {this} + input.Repr() && depth == input.Depth() + 1
    {
      this.input := input;
      this.columns := columns;
      repr := {this} + input.Repr();
      depth := input.Depth() + 1;
    }

    method Next(ghost pool: BufferPool) returns (r: Option<TableRow>)
      requires Projecting(this).Chained() && Projecting(this).Over(pool) && Usable(pool)
      requires Projecting(this).Ready(PoolSlots(pool))
      modifies repr, pool, pool.heap
      ensures Usable(pool) && PoolSlots(pool) == old(PoolSlots(pool)) && Projecting(this).Ready(PoolSlots(pool))
      ensures old(Projecting(this).Pending(PoolSlots(pool))) == Then(r, Projecting(this).Pending(PoolSlots(pool)))
      ensures r == None ==> Projecting(this).Pending(PoolSlots(pool)) == []
      ensures var was := old(input.Pending(PoolSlots(pool)));
        && (r == None <==> was == [])
        && (r.Some? ==> && r.value.id == was[0].id && |r.value.values| == |columns|
                        && forall k :: 0 <= k < |columns| && columns[k] < |was[0].values| ==>
                             r.value.values[k] == was[0].values[columns[k]])
      decreases depth, 0
    {
      hide PoolSlots, HasUnpinned, TableOk;
      var row := input.Next(pool);
      if row == None {
        return None;
      }
      var projected: Tuple := [];
      for k := 0 to |columns|
        invariant |projected| == k && forall j :: 0 <= j < k ==> projected[j] == At(row.value.values, columns[j])
      {
        projected := projected + [At(row.value.values, columns[k])];
      }
      assert TableRow(row.value.id, projected) == Projected(columns, row.value);
      r := Some(TableRow(row.value.id, projected));
      MapCons(Projection(columns), row.value, input.Pending(PoolSlots(pool)));
    }
  }

  lemma MapCons(f: TableRow -> TableRow, x: TableRow, s: seq<TableRow>)
    ensures Map(f, [x] + s) == [f(x)] + Map(f, s)
  {
  }

  class SortOperator {
    const input: RowOperator
    const less: RowLess
    var rows: seq<TableRow>
    var next: nat
    var loaded: bool
    ghost const repr: set<object>
    ghost const depth: nat

    constructor (input: RowOperator, less: RowLess)
      ensures this.input == input && this.less == less && rows == [] && next == 0 && !loaded
      ensures repr == {this} + input.Repr() && depth == input.Depth() + 1
    {
      this.input := input;
      this.less := less;
      rows, next, loaded := [], 0, false;
      repr := {this} + input.Repr();
      depth := input.Depth() + 1;
    }

    method Next(ghost pool: BufferPool) returns (r: Option<TableRow>)
      requires Sorting(this).Chained() && Sorting(this).Over(pool) && Usable(pool)
      requires Sorting(this).Ready(PoolSlots(pool))
      modifies repr, pool, pool.heap
      ensures Usable(pool) && PoolSlots(pool) == old(PoolSlots(pool)) && Sorting(this).Ready(PoolSlots(pool))
      ensures old(Sorting(this).Pending(PoolSlots(pool))) == Then(r, Sorting(this).Pending(PoolSlots(pool)))
      ensures r == None ==> Sorting(this).Pending(PoolSlots(pool)) == []
      decreases depth, 1
    {
      hide PoolSlots, HasUnpinned, TableOk, StableSort, BufferPool.Valid;
      if !loaded {
        Load(pool);
      }
      if next == |rows| {
        return None;
      }
      r := Some(rows[next]);
      next := next + 1;
    }

    /** Takes in all input rows and sorts them. */
    method Load(ghost pool: BufferPool)
      requires Sorting(this).Chained() && Sorting(this).Over(pool) && Usable(pool)
      requires Sorting(this).Ready(PoolSlots(pool)) && !loaded
      modifies repr, pool, pool.heap
      ensures Usable(pool) && PoolSlots(pool) == old(PoolSlots(pool))
      ensures loaded && next == 0 && rows == old(Sorting(this).Pending(PoolSlots(pool)))
      decreases depth, 0
    {
      hide PoolSlots, HasUnpinned, TableOk, StableSort, BufferPool.Consistent;
      ghost var ss := PoolSlots(pool);
      ghost var all := input.Pending(ss);
      while true
        invariant Usable(pool) && PoolSlots(pool) == ss && input.Ready(ss) && next == 0 && !loaded
        invariant rows + input.Pending(ss) == all
        decreases |input.Pending(ss)|
      {
        ghost var rest := input.Pending(ss);
        var row := input.Next(pool);
        if row == None {
          assert rows + [] == rows;
          break;
        }
        assert rows + ([row.value] + input.Pending(ss)) == rows + [row.value] + input.Pending(ss);
        rows := rows + [row.value];
      }
      rows := StableSort(less, rows);
      loaded := true;
    }
  }

  class LimitOperator {
    const input: RowOperator
    var remaining: nat
    ghost const repr: set<object>
    ghost const depth: nat

    constructor (input: RowOperator, count: nat)
      ensures this.input == input && remaining == count
      ensures repr == {this} + input.Repr() && depth == input.Depth() + 1
    {
      this.input := input;
      remaining := count;
      repr := {this} + input.Repr();
      depth := input.Depth() + 1;
    }

    method Next(ghost pool: BufferPool) returns (r: Option<TableRow>)
      requires Limiting(this).Chained() && Limiting(this).Over(pool) && Usable(pool)
      requires Limiting(this).Ready(PoolSlots(pool))
      modifies repr, pool, pool.heap
      ensures Usable(pool) && PoolSlots(pool) == old(PoolSlots(pool)) && Limiting(this).Ready(PoolSlots(pool))
      ensures old(Limiting(this).Pending(PoolSlots(pool))) == Then(r, Limiting(this).Pending(PoolSlots(pool)))
      ensures r == None ==> Limiting(this).Pending(PoolSlots(pool)) == []
      decreases depth, 0
    {
      hide PoolSlots, HasUnpinned, TableOk;
      if remaining == 0 {
        return None;
      }
      r := input.Next(pool);
      if r == None {
        return None;
      }
      TakeCons(r.value, input.Pending(PoolSlots(pool)), remaining);
      remaining := remaining - 1;
    }
  }

  lemma TakeCons(x: TableRow, s: seq<TableRow>, n: nat)
    requires n > 0
    ensures Take([x] + s, Some(n)) == [x] + Take(s, Some(n - 1))
  {
  }

  /** All rows have this many values. */
  ghost predicate AllWide(width: nat, rows: seq<TableRow>) {
    forall i :: 0 <= i < |rows| ==> |rows[i].values| == width
  }

  lemma WideSub(width: nat, rows: seq<TableRow>, some: seq<TableRow>)
    requires AllWide(width, rows) && forall row :: row in some ==> row in rows
    ensures AllWide(width, some)
  {
    forall i | 0 <= i < |some|
      ensures |some[i].values| == width
    {
      assert some[i] in some;
    }
  }

  lemma WideBehind(width: nat, next: Option<TableRow>, rest: seq<TableRow>)
    requires AllWide(width, Then(next, rest)) && (next == None ==> rest == [])
    ensures AllWide(width, rest)
  {
    if next.Some? {
      assert rest == Then(next, rest)[1..];
    }
  }

  /** The rows of a table have the width of its schema. */
  lemma ScannedWide(tables: seq<TableDefinition>, table: TableDefinition, m: Store)
    requires TablesOk(tables) && table in tables && RowsOk(tables, m)
    ensures AllWide(|table.schema|, Scanned(table, m))
  {
    hide Scanned, TablesOk, RowsOk, RowTuple;
    ScannedExact(tables, table, m);
    RowsFit(table, m);
    forall i | 0 <= i < |Scanned(table, m)|
      ensures |Scanned(table, m)[i].values| == |table.schema|
    {
      assert Scanned(table, m)[i] in Scanned(table, m);
    }
  }

  /** A query: a chain of operators that is extended step by step and then asked for rows. */
  class Query {
    var root: RowOperator
    var columnCount: nat
    ghost const pool: BufferPool

    ghost predicate Valid()
      reads this, root.Repr(), pool, pool.heap
    {
      && root.Chained() && root.Over(pool) && this !in root.Repr()
      && Usable(pool) && root.Ready(PoolSlots(pool)) && AllWide(columnCount, root.Pending(PoolSlots(pool)))
    }

    /** The rows that the query has still to deliver. */
    ghost function Pending(): seq<TableRow>
      requires Valid()
      reads this, root.Repr(), pool, pool.heap
    {
      root.Pending(PoolSlots(pool))
    }

    constructor (root: RowOperator, columnCount: nat, ghost pool: BufferPool)
      ensures this.root == root && this.columnCount == columnCount && this.pool == pool
    {
      this.root := root;
      this.columnCount := columnCount;
      this.pool := pool;
    }

    /** A query that delivers the rows of a table. */
    static method From(tables: TableStore, tableName: Text) returns (r: Result<Query>)
      requires tables.Valid()
      ensures var t := FindFirst(TableLike(tableName), tables.catalog.tables);
        if t == None then r == Err(OutOfRange) else
          && r.Ok? && fresh(r.value) && fresh(r.value.root.Repr()) && r.value.pool == tables.records.pool
          && r.value.columnCount == |tables.catalog.tables[t.value].schema|
          && r.value.Valid() && r.value.Pending() == Scanned(tables.catalog.tables[t.value], tables.records.Contents())
    {
      hide PoolSlots, HasUnpinned, TableOk, Reading, Scanned, RecordStore.Contents, SameName, RowTuple,
           BufferPool.Valid;
      var cursor := tables.OpenCursor(tableName);
      if cursor.Err? {
        return Err(cursor.error);
      }
      ScannedWide(tables.catalog.tables, cursor.value.table, tables.records.Contents());
      var operator := new ScanOperator(cursor.value);
      var query := new Query(Scanning(operator), |cursor.value.table.schema|, tables.records.pool);
      r := Ok(query);
    }

    /** A query that delivers the given rows, which have to have the given width. */
    static method FromRows(rows: seq<TableRow>, columnCount: nat, ghost pool: BufferPool) returns (r: Result<Query>)
      requires Usable(pool)
      ensures r.Ok? <==> forall k :: 0 <= k < |rows| ==> |rows[k].values| == columnCount
      ensures r.Ok? ==> && fresh(r.value) && fresh(r.value.root.Repr()) && r.value.pool == pool
                        && r.value.columnCount == columnCount && r.value.Valid() && r.value.Pending() == rows
      ensures r.Err? ==> r.error == InvalidArgument
    {
      hide PoolSlots, HasUnpinned, TableOk, BufferPool.Valid;
      for k := 0 to |rows|
        invariant forall j :: 0 <= j < k ==> |rows[j].values| == columnCount
      {
        if |rows[k].values| != columnCount {
          return Err(InvalidArgument);
        }
      }
      var operator := new RowsOperator(rows);
      var query := new Query(Listing(operator), columnCount, pool);
      r := Ok(query);
    }

    method Filter(accepts: RowPredicate)
      requires Valid()
      modifies this
      ensures Valid() && fresh(root.Repr() - old(root.Repr())) && columnCount == old(columnCount)
      ensures Pending() == Sequences.Filter(accepts, old(Pending()))
    {
      hide PoolSlots, HasUnpinned, TableOk, Sequences.Filter, BufferPool.Valid;
      FilterMember(accepts, Pending());
      WideSub(columnCount, Pending(), Sequences.Filter(accepts, Pending()));
      var operator := new FilterOperator(root, accepts);
      root := Filtering(operator);
    }

    method Sort(less: RowLess)
      requires Valid()
      modifies this
      ensures Valid() && fresh(root.Repr() - old(root.Repr())) && columnCount == old(columnCount)
      ensures Pending() == StableSort(less, old(Pending()))
    {
      hide PoolSlots, HasUnpinned, TableOk, StableSort, BufferPool.Valid;
      SortElements(less, Pending());
      WideSub(columnCount, Pending(), StableSort(less, Pending()));
      var operator := new SortOperator(root, less);
      root := Sorting(operator);
    }

    /** Keeps the listed columns, in that order; a column outside the current rows is refused. */
    method Project(columns: seq<nat>) returns (r: Result<()>)
      requires Valid()
      modifies this
      ensures Valid() && fresh(root.Repr() - old(root.Repr()))
      ensures r.Ok? <==> forall k :: 0 <= k < |columns| ==> columns[k] < old(columnCount)
      ensures r.Ok? ==> columnCount == |columns| && Pending() == Map(Projection(columns), old(Pending()))
      ensures r.Ok? ==>
        var was := old(Pending());
        && |Pending()| == |was|
        && forall i :: 0 <= i < |was| ==>
             && Pending()[i].id == was[i].id && |Pending()[i].values| == |columns|
             && forall k :: 0 <= k < |columns| ==>
                  columns[k] < |was[i].values| && Pending()[i].values[k] == was[i].values[columns[k]]
      ensures r.Err? ==> r.error == OutOfRange && root == old(root) && columnCount == old(columnCount)
    {
      hide PoolSlots, HasUnpinned, TableOk, BufferPool.Valid;
      for k := 0 to |columns|
        invariant forall j :: 0 <= j < k ==> columns[j] < columnCount
      {
        if columns[k] >= columnCount {
          return Err(OutOfRange);
        }
      }
      var operator := new ProjectOperator(root, columns);
      root, columnCount := Projecting(operator), |columns|;
      r := Ok(());
    }

    method Limit(count: nat)
      requires Valid()
      modifies this
      ensures Valid() && fresh(root.Repr() - old(root.Repr())) && columnCount == old(columnCount)
      ensures Pending() == Take(old(Pending()), Some(count))
    {
      hide PoolSlots, HasUnpinned, TableOk, BufferPool.Valid;
      var operator := new LimitOperator(root, count);
      root := Limiting(operator);
    }

    method Next() returns (r: Option<TableRow>)
      requires Valid()
      modifies root.Repr(), pool, pool.heap
      ensures Valid() && PoolSlots(pool) == old(PoolSlots(pool)) && root == old(root)
      ensures old(Pending()) == Then(r, Pending()) && (r == None ==> Pending() == [])
    {
      hide PoolSlots, HasUnpinned, TableOk, RowOperator.Pending, RowOperator.Ready, AllWide;
      r := root.Next(pool);
      WideBehind(columnCount, r, root.Pending(PoolSlots(pool)));
    }

    /** Asking until there is no more delivers exactly the pending rows. */
    method All() returns (rows: seq<TableRow>)
      requires Valid()
      modifies root.Repr(), pool, pool.heap
      ensures Valid() && PoolSlots(pool) == old(PoolSlots(pool)) && rows == old(Pending())
    {
      hide PoolSlots, HasUnpinned, TableOk, RowOperator.Pending, RowOperator.Ready;
      ghost var all := Pending();
      rows := [];
      while true
        invariant Valid() && root == old(root) && PoolSlots(pool) == old(PoolSlots(pool)) && rows + Pending() == all
        decreases |Pending()|
      {
        ghost var rest := Pending();
        var row := Next();
        if row == None {
          assert rows + [] == rows;
          return;
        }
        assert rows + ([row.value] + Pending()) == rows + [row.value] + Pending();
        rows := rows + [row.value];
      }
    }
  }
}
