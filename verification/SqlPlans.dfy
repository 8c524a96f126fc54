/** Logical select plans: names, predicates, orderings, and the answer that a plan asks for. */
module SqlPlans {
  import opened Wrappers
  import opened Sequences
  import opened Tuples
  import opened TupleCodec
  import opened Catalogs
  import opened TableRows
  import opened IndexedTables
  import opened Queries

  datatype SqlComparison = Equal | NotEqual | Less | LessEqual | Greater | GreaterEqual

  datatype SqlPredicateKind = Comparison | IsNull | IsNotNull

  /** The comparison and the literal have no meaning for the two null tests. */
  datatype SqlPredicate =
    SqlPredicate(column: Text, kind: SqlPredicateKind, comparison: SqlComparison, literal: Value)

  datatype SqlOrder = SqlOrder(column: Text, descending: bool)

  datatype SelectPlan = SelectPlan(table: Text, selectAll: bool, columns: seq<Text>, predicates: seq<SqlPredicate>,
                                   order: Option<SqlOrder>, limit: Option<nat>)

  // ---------------------------------------------------------------- values

  predicate TextLess(a: Text, b: Text) {
    if b == [] then false
    else if a == [] then true
    else if a[0] != b[0] then a[0] < b[0]
    else TextLess(a[1..], b[1..])
  }

  /** Byte strings are totally ordered. */
  lemma {:induction false} TextTotal(a: Text, b: Text)
    ensures !(TextLess(a, b) && TextLess(b, a))
    ensures a != b <==> TextLess(a, b) || TextLess(b, a)
  {
    if a != [] && b != [] && a[0] == b[0] {
      TextTotal(a[1..], b[1..]);
      assert a == [a[0]] + a[1..] && b == [b[0]] + b[1..];
    }
  }

  lemma {:induction false} TextBetween(a: Text, b: Text, c: Text)
    requires TextLess(a, b)
    ensures TextLess(a, c) || TextLess(c, b)
  {
    if a != [] && c != [] && a[0] == c[0] && a[0] == b[0] {
      TextBetween(a[1..], b[1..], c[1..]);
    }
  }

  /** Up to the first difference the texts agree; there the first one ends, or has the smaller byte. */
  lemma TextLessMeans(a: Text, b: Text)
    ensures TextLess(a, b) <==>
      exists n :: && 0 <= n <= |a| && n <= |b| && a[..n] == b[..n]
                  && ((n == |a| && n < |b|) || (n < |a| && n < |b| && a[n] < b[n]))
  {
    if TextLess(a, b) {
      var n := TextDiffers(a, b);
      assert a[..n] == b[..n];
    }
    if n :| && 0 <= n <= |a| && n <= |b| && a[..n] == b[..n]
            && ((n == |a| && n < |b|) || (n < |a| && n < |b| && a[n] < b[n])) {
      TextDecided(a, b, n);
    }
  }

  lemma {:induction false} TextDiffers(a: Text, b: Text) returns (n: nat)
    requires TextLess(a, b)
    ensures n <= |a| && n < |b| && a[..n] == b[..n] && (n < |a| ==> a[n] < b[n])
  {
    if a == [] || a[0] != b[0] {
      n := 0;
    } else {
      var k := TextDiffers(a[1..], b[1..]);
      n := k + 1;
      assert a[..n] == [a[0]] + a[1..][..k] && b[..n] == [b[0]] + b[1..][..k];
    }
  }

  lemma {:induction false} TextDecided(a: Text, b: Text, n: nat)
    requires n <= |a| && n < |b| && a[..n] == b[..n] && (n < |a| ==> a[n] < b[n])
    ensures TextLess(a, b)
  {
    if n > 0 {
      assert a[0] == a[..n][0] && b[0] == b[..n][0];
      assert a[1..][..n - 1] == a[..n][1..] && b[1..][..n - 1] == b[..n][1..];
      TextDecided(a[1..], b[1..], n - 1);
    }
  }

  /** The order within a column type; values of another type are never below anything. */
  predicate ValueLess(t: DataType, a: Value, b: Value) {
    match t
    case Integer => a.IntValue? && b.IntValue? && a.i < b.i
    case Text => a.TextValue? && b.TextValue? && TextLess(a.s, b.s)
    case Boolean => a.BoolValue? && b.BoolValue? && !a.b && b.b
  }

  predicate Compare(t: DataType, left: Value, right: Value, comparison: SqlComparison) {
    match comparison
    case Equal => left == right
    case NotEqual => left != right
    case Less => ValueLess(t, left, right)
    case LessEqual => !ValueLess(t, right, left)
    case Greater => ValueLess(t, right, left)
    case GreaterEqual => !ValueLess(t, left, right)
  }

  /** On values of one type, the six comparisons are those of a total order. */
  lemma ComparisonLaws(t: DataType, a: Value, b: Value)
    requires Matches(a, t) && Matches(b, t)
    ensures Compare(t, a, b, Less) <==> Compare(t, b, a, Greater)
    ensures Compare(t, a, b, Less) ==> !Compare(t, a, b, Equal) && !Compare(t, a, b, Greater)
    ensures Compare(t, a, b, Less) || Compare(t, a, b, Equal) || Compare(t, a, b, Greater)
    ensures Compare(t, a, b, LessEqual) <==> Compare(t, a, b, Less) || Compare(t, a, b, Equal)
    ensures Compare(t, a, b, GreaterEqual) <==> Compare(t, a, b, Greater) || Compare(t, a, b, Equal)
    ensures Compare(t, a, b, NotEqual) <==> !Compare(t, a, b, Equal)
  {
    if t == Text {
      TextTotal(a.s, b.s);
    }
  }

  // ---------------------------------------------------------------- predicates and orderings

  /** A comparison with null on either side is not true. */
  predicate HoldsAt(c: nat, t: DataType, p: SqlPredicate, row: TableRow) {
    var v := At(row.values, c);
    match p.kind
    case IsNull => v.Null?
    case IsNotNull => !v.Null?
    case Comparison => !v.Null? && !p.literal.Null? && Compare(t, v, p.literal, p.comparison)
  }

  function PredicateAt(c: nat, t: DataType, p: SqlPredicate): RowPredicate {
    (row: TableRow) => HoldsAt(c, t, p, row)
  }

  /** Nulls come last in both directions. */
  predicate RowBefore(c: nat, t: DataType, descending: bool, a: TableRow, b: TableRow) {
    var x, y := At(a.values, c), At(b.values, c);
    if x.Null? || y.Null? then !x.Null? && y.Null?
    else if descending then ValueLess(t, y, x) else ValueLess(t, x, y)
  }

  function ByColumn(c: nat, t: DataType, descending: bool): RowLess {
    (a: TableRow, b: TableRow) => RowBefore(c, t, descending, a, b)
  }

  /** Every row has a null or a value of the column's type there. */
  predicate TypedAt(c: nat, t: DataType, s: seq<TableRow>) {
    forall r :: r in s ==> At(r.values, c).Null? || Matches(At(r.values, c), t)
  }

  /** Orderings are what a sort demands of its comparator. */
  lemma RowBeforeWeak(c: nat, t: DataType, descending: bool, s: seq<TableRow>)
    requires TypedAt(c, t, s)
    ensures StrictWeakOn(ByColumn(c, t, descending), s)
  {
    forall a, b | a in s && b in s
      ensures RowBefore(c, t, descending, a, b) ==> !RowBefore(c, t, descending, b, a)
    {
      var x, y := At(a.values, c), At(b.values, c);
      if x.TextValue? && y.TextValue? {
        TextTotal(x.s, y.s);
      }
    }
    forall a, b, d | a in s && b in s && d in s && RowBefore(c, t, descending, a, b)
      ensures RowBefore(c, t, descending, a, d) || RowBefore(c, t, descending, d, b)
    {
      var x, y, z := At(a.values, c), At(b.values, c), At(d.values, c);
      if x.TextValue? && y.TextValue? && z.TextValue? {
        if descending {
          TextBetween(y.s, x.s, z.s);
        } else {
          TextBetween(x.s, y.s, z.s);
        }
      }
    }
  }

  /** In rows sorted by a column, nulls come last in both directions, and before them values rise or fall. */
  lemma SortedByColumn(c: nat, t: DataType, descending: bool, s: seq<TableRow>, i: nat, j: nat)
    requires TypedAt(c, t, s) && Sorted(ByColumn(c, t, descending), s) && i < j < |s|
    ensures At(s[i].values, c).Null? ==> At(s[j].values, c).Null?
    ensures !At(s[j].values, c).Null? ==>
      Compare(t, At(s[i].values, c), At(s[j].values, c), if descending then GreaterEqual else LessEqual)
  {
    assert !ByColumn(c, t, descending)(s[j], s[i]);
  }

  /** On an integer column, ordering by the column is ordering by index key. */
  lemma IntegerOrder(c: nat, descending: bool, s: seq<TableRow>)
    requires TypedAt(c, Integer, s)
    ensures forall a, b :: a in s && b in s ==> (RowBefore(c, Integer, descending, a, b) <==> KeyBefore(c, descending, a, b))
  {
  }

  // ---------------------------------------------------------------- names

  predicate LiteralMatches(t: DataType, literal: Value) {
    match t
    case Integer => literal.Null? || literal.IntValue?
    case Text => literal.Null? || literal.TextValue?
    case Boolean => literal.Null? || literal.BoolValue?
  }

  /** The predicate can be bound to a table with this schema. */
  predicate PredicateOk(schema: Schema, p: SqlPredicate) {
    var c := FindFirst(ColumnLike(p.column), schema);
    && c.Some?
    && (p.kind == Comparison ==>
          && LiteralMatches(schema[c.value].dataType, p.literal)
          && (schema[c.value].dataType == Boolean ==> p.comparison == Equal || p.comparison == NotEqual))
  }

  /** The bound form of a predicate. */
  function PredicateFor(schema: Schema, p: SqlPredicate): RowPredicate {
    var c := FindFirst(ColumnLike(p.column), schema);
    if c == None then (row: TableRow) => false else PredicateAt(c.value, schema[c.value].dataType, p)
  }

  predicate ColumnKnown(schema: Schema, name: Text) {
    FindFirst(ColumnLike(name), schema).Some?
  }

  /** The position of a named column. */
  function ColumnAt(schema: Schema, name: Text): (c: nat)
    requires ColumnKnown(schema, name)
    ensures c < |schema| && SameName(schema[c].name, name)
  {
    FindFirst(ColumnLike(name), schema).value
  }

  function OrderFor(schema: Schema, order: SqlOrder): RowLess
    requires ColumnKnown(schema, order.column)
  {
    var c := ColumnAt(schema, order.column);
    ByColumn(c, schema[c].dataType, order.descending)
  }

  function ColumnsFor(schema: Schema, names: seq<Text>): (cs: seq<nat>)
    requires forall i :: 0 <= i < |names| ==> ColumnKnown(schema, names[i])
    ensures |cs| == |names| && forall i :: 0 <= i < |cs| ==> cs[i] == ColumnAt(schema, names[i])
  {
    seq(|names|, i requires 0 <= i < |names| => ColumnAt(schema, names[i]))
  }

  /** All names of the plan are known and its literals fit: the plan can be bound. */
  predicate Bindable(tables: seq<TableDefinition>, plan: SelectPlan) {
    && (plan.selectAll <==> plan.columns == [])
    && FindFirst(TableLike(plan.table), tables).Some?
    && PlanFits(tables[FindFirst(TableLike(plan.table), tables).value].schema, plan)
  }

  predicate PlanFits(schema: Schema, plan: SelectPlan) {
    && (forall i :: 0 <= i < |plan.predicates| ==> PredicateOk(schema, plan.predicates[i]))
    && (plan.order.Some? ==> ColumnKnown(schema, plan.order.value.column))
    && (forall i :: 0 <= i < |plan.columns| ==> ColumnKnown(schema, plan.columns[i]))
  }

  /** The table that a plan reads. */
  function TargetTable(tables: seq<TableDefinition>, plan: SelectPlan): (t: TableDefinition)
    requires Bindable(tables, plan)
    ensures t in tables && SameName(t.name, plan.table) && PlanFits(t.schema, plan)
  {
    tables[FindFirst(TableLike(plan.table), tables).value]
  }

  // ---------------------------------------------------------------- the answer

  /** The row satisfies every predicate. */
  predicate AllHold(schema: Schema, ps: seq<SqlPredicate>, row: TableRow) {
    forall i :: 0 <= i < |ps| ==> PredicateFor(schema, ps[i])(row)
  }

  function Qualifies(schema: Schema, ps: seq<SqlPredicate>): RowPredicate {
    (row: TableRow) => AllHold(schema, ps, row)
  }

  /** The rows in the order that the plan asks for. */
  function Arranged(schema: Schema, plan: SelectPlan, kept: seq<TableRow>): seq<TableRow>
    requires PlanFits(schema, plan)
  {
    if plan.order == None then kept else StableSort(OrderFor(schema, plan.order.value), kept)
  }

  /** The columns and the number of rows that the plan asks for. */
  function Shown(schema: Schema, plan: SelectPlan, rows: seq<TableRow>): seq<TableRow>
    requires PlanFits(schema, plan)
  {
    Take(if plan.selectAll then rows else Map(Projection(ColumnsFor(schema, plan.columns)), rows), plan.limit)
  }

  /** Sorting, projection and limit of rows that satisfy the predicates. */
  function Delivered(schema: Schema, plan: SelectPlan, kept: seq<TableRow>): seq<TableRow>
    requires PlanFits(schema, plan)
  {
    Shown(schema, plan, Arranged(schema, plan, kept))
  }

  /** What the plan means: scan, filter by all predicates, stable sort, project, limit. */
  function Reference(schema: Schema, plan: SelectPlan, scan: seq<TableRow>): seq<TableRow>
    requires PlanFits(schema, plan)
  {
    Delivered(schema, plan, Filter(Qualifies(schema, plan.predicates), scan))
  }

  // ---------------------------------------------------------------- binding names

  /** Finds a table by name, without regard to case; a catalog has no two of the same name. */
  method ResolveTable(tables: seq<TableDefinition>, name: Text) returns (r: Result<TableDefinition>)
    requires TablesOk(tables)
    ensures var t := FindFirst(TableLike(name), tables);
      r == if t == None then Err(SqlBindError) else Ok(tables[t.value])
  {
    hide ValidTable, Folded;
    var result: Option<TableDefinition> := None;
    ghost var at: nat := 0;
    for i := 0 to |tables|
      invariant result.Some? ==> at < i && tables[at] == result.value && SameName(tables[at].name, name)
      invariant result == None ==> forall k :: 0 <= k < i ==> !SameName(tables[k].name, name)
    {
      if !SameName(tables[i].name, name) {
        continue;
      }
      if result.Some? {
        r := Err(SqlBindError);
        TableUnique(tables, at, i);
        return;
      }
      result, at := Some(tables[i]), i;
    }
    ghost var t := FindFirst(TableLike(name), tables);
    if result == None {
      return Err(SqlBindError);
    }
    assert TableLike(name)(tables[at]);
    TableUnique(tables, at, t.value);
    r := Ok(result.value);
  }

  /** Finds a column by name, without regard to case; a table has no two of the same name. */
  method ResolveColumn(schema: Schema, name: Text) returns (r: Result<nat>)
    requires DistinctColumns(schema)
    ensures r == if ColumnKnown(schema, name) then Ok(ColumnAt(schema, name)) else Err(SqlBindError)
  {
    hide Folded;
    var result: Option<nat> := None;
    for i := 0 to |schema|
      invariant result.Some? ==> result.value < i && SameName(schema[result.value].name, name)
      invariant result == None ==> forall k :: 0 <= k < i ==> !SameName(schema[k].name, name)
    {
      if !SameName(schema[i].name, name) {
        continue;
      }
      if result.Some? {
        r := Err(SqlBindError);
        return;
      }
      result := Some(i);
    }
    if result == None {
      return Err(SqlBindError);
    }
    assert ColumnLike(name)(schema[result.value]);
    assert SameName(schema[ColumnAt(schema, name)].name, schema[result.value].name);
    r := Ok(result.value);
  }

  /** A name means one column only. */
  lemma OneColumn(schema: Schema, name: Text)
    requires DistinctColumns(schema)
    ensures forall c: nat :: c < |schema| && SameName(schema[c].name, name) ==> FindFirst(ColumnLike(name), schema) == Some(c)
  {
    hide Folded;
    forall c: nat | c < |schema| && SameName(schema[c].name, name)
      ensures FindFirst(ColumnLike(name), schema) == Some(c)
    {
      assert ColumnLike(name)(schema[c]);
      var d := FindFirst(ColumnLike(name), schema).value;
      assert ColumnLike(name)(schema[d]);
      assert SameName(schema[c].name, schema[d].name) && SameName(schema[d].name, schema[c].name);
    }
  }

  method BindOrder(schema: Schema, order: SqlOrder) returns (r: Result<RowLess>)
    requires DistinctColumns(schema)
    ensures r.Ok? <==> ColumnKnown(schema, order.column)
    ensures r.Ok? ==> r.value == OrderFor(schema, order)
    ensures r.Ok? ==> forall c: nat, a: TableRow, b: TableRow ::
      c < |schema| && SameName(schema[c].name, order.column) && |a.values| == |b.values| == |schema| ==>
        var x, y := a.values[c], b.values[c];
        && (x.Null? ==> !r.value(a, b))
        && (!x.Null? && y.Null? ==> r.value(a, b))
        && (schema[c].dataType == Integer && x.IntValue? && y.IntValue? ==>
              (r.value(a, b) <==> if order.descending then x.i > y.i else x.i < y.i))
        && (schema[c].dataType == DataType.Text && x.TextValue? && y.TextValue? ==>
              (r.value(a, b) <==> if order.descending then TextLess(y.s, x.s) else TextLess(x.s, y.s)))
        && (schema[c].dataType == Boolean && x.BoolValue? && y.BoolValue? ==>
              (r.value(a, b) <==> if order.descending then x.b && !y.b else !x.b && y.b))
    ensures r.Err? ==> r.error == SqlBindError
  {
    hide Folded;
    var c := ResolveColumn(schema, order.column);
    if c.Err? {
      return Err(c.error);
    }
    OneColumn(schema, order.column);
    r := Ok(ByColumn(c.value, schema[c.value].dataType, order.descending));
  }

  /** Resolves the column of a predicate and checks its literal. */
  method BindPredicate(schema: Schema, p: SqlPredicate) returns (r: Result<RowPredicate>)
    requires DistinctColumns(schema)
    ensures r.Ok? <==> PredicateOk(schema, p)
    ensures r.Ok? ==> r.value == PredicateFor(schema, p)
    ensures r.Ok? ==> forall c: nat, row: TableRow ::
      c < |schema| && SameName(schema[c].name, p.column) && |row.values| == |schema| ==>
        var v, w := row.values[c], p.literal;
        && (p.kind == IsNull ==> (r.value(row) <==> v.Null?))
        && (p.kind == IsNotNull ==> (r.value(row) <==> !v.Null?))
        && (p.kind == Comparison && (v.Null? || w.Null?) ==> !r.value(row))
        && (p.kind == Comparison && v.IntValue? && w.IntValue? ==>
              && (p.comparison == Equal ==> (r.value(row) <==> v.i == w.i))
              && (p.comparison == NotEqual ==> (r.value(row) <==> v.i != w.i))
              && (p.comparison == Less ==> (r.value(row) <==> v.i < w.i))
              && (p.comparison == LessEqual ==> (r.value(row) <==> v.i <= w.i))
              && (p.comparison == Greater ==> (r.value(row) <==> v.i > w.i))
              && (p.comparison == GreaterEqual ==> (r.value(row) <==> v.i >= w.i)))
        && (p.kind == Comparison && v.TextValue? && w.TextValue? ==>
              && (p.comparison == Equal ==> (r.value(row) <==> v.s == w.s))
              && (p.comparison == NotEqual ==> (r.value(row) <==> v.s != w.s))
              && (p.comparison == Less ==> (r.value(row) <==> TextLess(v.s, w.s)))
              && (p.comparison == LessEqual ==> (r.value(row) <==> v.s == w.s || TextLess(v.s, w.s)))
              && (p.comparison == Greater ==> (r.value(row) <==> TextLess(w.s, v.s)))
              && (p.comparison == GreaterEqual ==> (r.value(row) <==> v.s == w.s || TextLess(w.s, v.s))))
        && (p.kind == Comparison && v.BoolValue? && w.BoolValue? ==>
              && (p.comparison == Equal ==> (r.value(row) <==> v.b == w.b))
              && (p.comparison == NotEqual ==> (r.value(row) <==> v.b != w.b)))
    ensures r.Err? ==> r.error == SqlBindError
  {
    hide Folded;
    var c := ResolveColumn(schema, p.column);
    if c.Err? {
      return Err(c.error);
    }
    OneColumn(schema, p.column);
    forall a: Text, b: Text
      ensures a != b <==> TextLess(a, b) || TextLess(b, a)
      ensures !(TextLess(a, b) && TextLess(b, a))
    {
      TextTotal(a, b);
    }
    var t := schema[c.value].dataType;
    if p.kind == Comparison {
      if !LiteralMatches(t, p.literal) {
        return Err(SqlBindError);
      }
      if t == Boolean && p.comparison != Equal && p.comparison != NotEqual {
        return Err(SqlBindError);
      }
    }
    r := Ok(PredicateAt(c.value, t, p));
  }
}
