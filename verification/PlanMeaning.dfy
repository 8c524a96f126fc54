/** What the rows of an answer are, in terms of the values in the rows of the table: what is delivered meets this, and nothing else does. */
module PlanMeanings {
  import opened Wrappers
  import opened Sequences
  import opened Tuples
  import opened TupleCodec
  import opened Catalogs
  import opened TableRows
  import opened IndexedTables
  import opened Queries
  import opened SqlPlans
  import opened IndexChoices
  import opened SelectAnalyses
  import opened SelectAnswers
  import opened AnswerLaws

  // ---------------------------------------------------------------- the description

  predicate Compared(c: SqlComparison, below: bool, equal: bool) {
    match c
    case Equal => equal
    case NotEqual => !equal
    case Less => below
    case LessEqual => below || equal
    case Greater => !below && !equal
    case GreaterEqual => !below
  }

  /** A value passes a test: null tests look for null, and a comparison with null is never true. */
  predicate Passes(p: SqlPredicate, v: Value) {
    match p.kind
    case IsNull => v.Null?
    case IsNotNull => !v.Null?
    case Comparison =>
      match (v, p.literal)
      case (IntValue(x), IntValue(y)) => Compared(p.comparison, x < y, x == y)
      case (TextValue(x), TextValue(y)) => Compared(p.comparison, TextLess(x, y), x == y)
      case (BoolValue(x), BoolValue(y)) => Compared(p.comparison, !x && y, x == y)
      case _ => false
  }

  /** All predicates of the plan are true of the values in the columns that they name. */
  ghost predicate MeetsPlan(schema: Schema, plan: SelectPlan, row: TableRow) {
    forall i, c :: 0 <= i < |plan.predicates| && Names(schema, plan.predicates[i].column, c) ==>
      c < |row.values| && Passes(plan.predicates[i], row.values[c])
  }

  /** Column c is the one of this name, without regard to case. */
  predicate Names(schema: Schema, name: Text, c: int) {
    0 <= c < |schema| && SameName(schema[c].name, name)
  }

  /** x stands before y in a column: nulls behind everything, values rising or falling. */
  predicate Above(x: Value, y: Value, descending: bool) {
    match (x, y)
    case (Null, _) => false
    case (_, Null) => true
    case (IntValue(a), IntValue(b)) => if descending then a > b else a < b
    case (TextValue(a), TextValue(b)) => if descending then TextLess(b, a) else TextLess(a, b)
    case (BoolValue(a), BoolValue(b)) => if descending then a && !b else !a && b
    case _ => false
  }

  ghost predicate AboveBy(schema: Schema, order: SqlOrder, a: TableRow, b: TableRow) {
    exists c :: && Names(schema, order.column, c) && c < |a.values| && c < |b.values|
                && Above(a.values[c], b.values[c], order.descending)
  }

  /** By ascending key in column `key`, if there is one, and then in record order. */
  predicate ByKeyThenId(key: Option<nat>, a: TableRow, b: TableRow) {
    if key.Some? && key.value < |a.values| && key.value < |b.values|
       && a.values[key.value].IntValue? && b.values[key.value].IntValue?
       && a.values[key.value].i != b.values[key.value].i
    then a.values[key.value].i < b.values[key.value].i
    else a.id.page < b.id.page || (a.id.page == b.id.page && a.id.slot < b.id.slot)
  }

  /** a is delivered before b: as ORDER BY says, and otherwise by key and record order. */
  ghost predicate ComesFirst(schema: Schema, plan: SelectPlan, key: Option<nat>, a: TableRow, b: TableRow) {
    if plan.order.Some? && AboveBy(schema, plan.order.value, a, b) then true
    else if plan.order.Some? && AboveBy(schema, plan.order.value, b, a) then false
    else ByKeyThenId(key, a, b)
  }

  /**
     The rows of the table from which the answer is made: they meet the plan and stand in order. There are at
     most as many as the limit says, and a row that meets the plan is left out only if there are as many as
     that, and all of them come first.
     */
  ghost predicate Picked(schema: Schema, plan: SelectPlan, key: Option<nat>, scan: seq<TableRow>, picked: seq<TableRow>) {
    && (forall k :: 0 <= k < |picked| ==> picked[k] in scan && MeetsPlan(schema, plan, picked[k]))
    && (forall j, k :: 0 <= j < k < |picked| ==> ComesFirst(schema, plan, key, picked[j], picked[k]))
    && (plan.limit.Some? ==> |picked| <= plan.limit.value)
    && (forall row :: row in scan && MeetsPlan(schema, plan, row) && row !in picked ==>
          plan.limit == Some(|picked|)
          && forall k :: 0 <= k < |picked| ==> ComesFirst(schema, plan, key, picked[k], row))
  }

  /** `out` shows the columns of the row that the plan lists, in that order. */
  ghost predicate Shows(schema: Schema, plan: SelectPlan, row: TableRow, out: TableRow) {
    && out.id == row.id
    && (plan.selectAll ==> out.values == row.values)
    && (!plan.selectAll ==>
          && |out.values| == |plan.columns|
          && forall k, c {:trigger Names(schema, plan.columns[k], c)} :: 0 <= k < |plan.columns| && Names(schema, plan.columns[k], c) ==>
               c < |row.values| && out.values[k] == row.values[c])
  }

  /** The rows delivered show the picked rows, one for one. */
  ghost predicate IsAnswer(schema: Schema, plan: SelectPlan, key: Option<nat>, scan: seq<TableRow>, out: seq<TableRow>) {
    exists picked :: && Picked(schema, plan, key, scan, picked) && |out| == |picked|
                     && forall k :: 0 <= k < |out| ==> Shows(schema, plan, picked[k], out[k])
  }

  // ---------------------------------------------------------------- columns and values

  lemma NamesOne(schema: Schema, name: Text, c: int)
    requires DistinctColumns(schema) && ColumnKnown(schema, name)
    ensures Names(schema, name, c) <==> c == ColumnAt(schema, name)
  {
    hide Folded;
    OneColumn(schema, name);
  }

  lemma TextOrder(x: Text, y: Text)
    ensures TextLess(y, x) <==> !TextLess(x, y) && x != y
  {
    TextTotal(x, y);
  }

  /** On a row that fits the schema, the bound predicate is the test of the named column. */
  lemma PassesMeans(schema: Schema, p: SqlPredicate, row: TableRow)
    requires DistinctColumns(schema) && PredicateOk(schema, p) && ValidTuple(schema, row.values)
    ensures PredicateFor(schema, p)(row) <==> Passes(p, row.values[ColumnAt(schema, p.column)])
  {
    hide Folded;
    var c := ColumnAt(schema, p.column);
    assert Fits(row.values[c], schema[c]);
    if row.values[c].TextValue? && p.literal.TextValue? {
      TextOrder(row.values[c].s, p.literal.s);
    }
  }

  lemma MeetsMeans(schema: Schema, plan: SelectPlan, row: TableRow)
    requires DistinctColumns(schema) && PlanFits(schema, plan) && ValidTuple(schema, row.values)
    ensures AllHold(schema, plan.predicates, row) <==> MeetsPlan(schema, plan, row)
  {
    hide PredicateFor, Passes, Names, DistinctColumns, ColumnAt;
    forall i | 0 <= i < |plan.predicates|
      ensures ColumnKnown(schema, plan.predicates[i].column)
      ensures PredicateFor(schema, plan.predicates[i])(row) <==>
        Passes(plan.predicates[i], row.values[ColumnAt(schema, plan.predicates[i].column)])
      ensures forall c :: Names(schema, plan.predicates[i].column, c) <==> c == ColumnAt(schema, plan.predicates[i].column)
    {
      PassesMeans(schema, plan.predicates[i], row);
      forall c
        ensures Names(schema, plan.predicates[i].column, c) <==> c == ColumnAt(schema, plan.predicates[i].column)
      {
        NamesOne(schema, plan.predicates[i].column, c);
      }
    }
    if AllHold(schema, plan.predicates, row) {
      assert MeetsPlan(schema, plan, row);
    }
    if MeetsPlan(schema, plan, row) {
      forall i | 0 <= i < |plan.predicates|
        ensures PredicateFor(schema, plan.predicates[i])(row)
      {
        assert Names(schema, plan.predicates[i].column, ColumnAt(schema, plan.predicates[i].column));
      }
    }
  }

  lemma AboveMeans(schema: Schema, order: SqlOrder, a: TableRow, b: TableRow)
    requires DistinctColumns(schema) && ColumnKnown(schema, order.column)
    requires ValidTuple(schema, a.values) && ValidTuple(schema, b.values)
    ensures OrderFor(schema, order)(a, b) <==> AboveBy(schema, order, a, b)
  {
    hide Folded;
    var c := ColumnAt(schema, order.column);
    assert Fits(a.values[c], schema[c]) && Fits(b.values[c], schema[c]);
    assert RowBefore(c, schema[c].dataType, order.descending, a, b) <==> Above(a.values[c], b.values[c], order.descending);
    hide DistinctColumns, ColumnAt, Above, RowBefore, Names;
    NamesOne(schema, order.column, c);
    if AboveBy(schema, order, a, b) {
      var d :| Names(schema, order.column, d) && d < |a.values| && d < |b.values|
               && Above(a.values[d], b.values[d], order.descending);
      NamesOne(schema, order.column, d);
    }
  }

  // ---------------------------------------------------------------- the order of an answer

  /** The comparator that puts the rows in the order described, up to record order. */
  function Ordering(schema: Schema, plan: SelectPlan, key: Option<nat>): RowLess
    requires PlanFits(schema, plan)
  {
    if key.Some? then TieBreak(schema, plan, key.value)
    else if plan.order.Some? then OrderFor(schema, plan.order.value)
    else (a: TableRow, b: TableRow) => false
  }

  /** Every row has a key in this column. */
  ghost predicate KeysThere(key: Option<nat>, rows: seq<TableRow>) {
    key.Some? ==> forall row :: row in rows ==> key.value < |row.values| && row.values[key.value].IntValue?
  }

  lemma ComesFirstMeans(schema: Schema, plan: SelectPlan, key: Option<nat>, a: TableRow, b: TableRow)
    requires DistinctColumns(schema) && PlanFits(schema, plan)
    requires ValidTuple(schema, a.values) && ValidTuple(schema, b.values) && KeysThere(key, [a, b])
    ensures ComesFirst(schema, plan, key, a, b) <==> Lexicographic(Ordering(schema, plan, key), ById())(a, b)
  {
    hide DistinctColumns, AboveBy, OrderFor, ValidTuple, PredicateOk, ColumnKnown;
    if plan.order.Some? {
      AboveMeans(schema, plan.order.value, a, b);
      AboveMeans(schema, plan.order.value, b, a);
    }
    if key.Some? {
      assert a in [a, b] && b in [a, b];
    }
  }

  lemma OrderingWeak(schema: Schema, plan: SelectPlan, key: Option<nat>, rows: seq<TableRow>)
    requires PlanFits(schema, plan) && IsScan(schema, rows)
    ensures StrictWeakOn(Ordering(schema, plan, key), rows)
  {
    hide PredicateOk, ColumnKnown, OrderFor, IsScan;
    if key.Some? {
      TiesByKey(schema, plan, key.value, rows);
    } else if plan.order.Some? {
      OrderWeak(schema, plan, rows);
    }
  }

  lemma IdsAsymmetric(rows: seq<TableRow>)
    ensures AsymmetricOn(ById(), rows)
  {
  }

  /** The description picks the first of the qualifying rows, in that order. */
  lemma PickedMeans(schema: Schema, plan: SelectPlan, key: Option<nat>, scan: seq<TableRow>, picked: seq<TableRow>)
    requires DistinctColumns(schema) && PlanFits(schema, plan) && IsScan(schema, scan)
    requires KeysThere(key, Kept(schema, plan, scan))
    ensures Picked(schema, plan, key, scan, picked) <==>
      Firsts(Lexicographic(Ordering(schema, plan, key), ById()), Kept(schema, plan, scan), plan.limit, picked)
  {
    hide DistinctColumns, PlanFits, ValidTuple, MeetsPlan, AllHold, ComesFirst, Ordering, Filter;
    var kept, before := Kept(schema, plan, scan), Lexicographic(Ordering(schema, plan, key), ById());
    FilterMember(Qualifies(schema, plan.predicates), scan);
    forall row | row in scan
      ensures row in kept <==> MeetsPlan(schema, plan, row)
    {
      MeetsMeans(schema, plan, row);
    }
    forall a, b | a in kept && b in kept
      ensures ComesFirst(schema, plan, key, a, b) <==> before(a, b)
    {
      assert KeysThere(key, [a, b]);
      ComesFirstMeans(schema, plan, key, a, b);
    }
    hide Lexicographic, Kept, KeysThere, IsScan;
    if forall k :: 0 <= k < |picked| ==> picked[k] in kept {
      assert forall x :: x in picked ==> x in kept;
    }
    assert (forall k :: 0 <= k < |picked| ==> picked[k] in scan && MeetsPlan(schema, plan, picked[k])) <==>
           forall x :: x in picked ==> x in kept;
  }

  lemma ShownRows(schema: Schema, plan: SelectPlan, rows: seq<TableRow>)
    requires DistinctColumns(schema) && PlanFits(schema, plan)
    requires forall row :: row in rows ==> ValidTuple(schema, row.values)
    ensures var out, picked := Shown(schema, plan, rows), Take(rows, plan.limit);
      |out| == |picked| && forall k :: 0 <= k < |out| ==> Shows(schema, plan, picked[k], out[k])
  {
    hide DistinctColumns, PredicateOk, ColumnKnown, ColumnAt, Fits, Names;
    var out, picked := Shown(schema, plan, rows), Take(rows, plan.limit);
    forall k | 0 <= k < |out|
      ensures Shows(schema, plan, picked[k], out[k])
    {
      assert picked[k] == rows[k] && rows[k] in rows;
      forall j, c | 0 <= j < |plan.columns| && Names(schema, plan.columns[j], c)
        ensures c == ColumnAt(schema, plan.columns[j])
      {
        NamesOne(schema, plan.columns[j], c);
      }
    }
  }

  /** What shows a row is determined by it. */
  lemma ShowsOne(schema: Schema, plan: SelectPlan, row: TableRow, a: TableRow, b: TableRow)
    requires DistinctColumns(schema) && PlanFits(schema, plan)
    requires Shows(schema, plan, row, a) && Shows(schema, plan, row, b)
    ensures a == b
  {
    hide DistinctColumns, PredicateOk, ColumnAt;
    if !plan.selectAll {
      forall k | 0 <= k < |plan.columns|
        ensures a.values[k] == b.values[k]
      {
        var c := ColumnAt(schema, plan.columns[k]);
        NamesOne(schema, plan.columns[k], c);
        assert Names(schema, plan.columns[k], c);
      }
      assert a.values == b.values;
    }
  }

  /** Exactly the first rows of the sort, shown as the plan lists their columns, meet the description. */
  lemma AnswerMeans(schema: Schema, plan: SelectPlan, key: Option<nat>, scan: seq<TableRow>, out: seq<TableRow>)
    requires DistinctColumns(schema) && PlanFits(schema, plan) && IsScan(schema, scan)
    requires KeysThere(key, Kept(schema, plan, scan))
    ensures IsAnswer(schema, plan, key, scan, out) <==>
      out == Shown(schema, plan, StableSort(Ordering(schema, plan, key), Kept(schema, plan, scan)))
  {
    hide DistinctColumns, PlanFits, ValidTuple, Ordering, Picked, Shows, Shown, KeysThere, StableSort, Kept,
         Lexicographic, StrictWeakOn, Firsts, IsScan, AsymmetricOn;
    var kept, less := Kept(schema, plan, scan), Ordering(schema, plan, key);
    var all, before := StableSort(less, kept), Lexicographic(less, ById());
    KeptRows(schema, plan, scan);
    OrderingWeak(schema, plan, key, kept);
    IdsAsymmetric(kept);
    ScanSorted(schema, kept);
    SortStrict(less, ById(), kept);
    SortElements(less, kept);
    LexicographicAsymmetric(less, ById(), kept);
    FirstsInFront(before, kept, all, plan.limit);
    ShownRows(schema, plan, all);
    var first := Take(all, plan.limit);
    PickedMeans(schema, plan, key, scan, first);
    if IsAnswer(schema, plan, key, scan, out) {
      var picked :| && Picked(schema, plan, key, scan, picked) && |out| == |picked|
                    && forall k :: 0 <= k < |out| ==> Shows(schema, plan, picked[k], out[k]);
      PickedMeans(schema, plan, key, scan, picked);
      FirstsUnique(before, kept, plan.limit, picked, first);
      var shown := Shown(schema, plan, all);
      forall k | 0 <= k < |out|
        ensures out[k] == shown[k]
      {
        ShowsOne(schema, plan, picked[k], out[k], shown[k]);
      }
    }
  }

  lemma ScanSorted(schema: Schema, rows: seq<TableRow>)
    requires IsScan(schema, rows)
    ensures StrictlySorted(ById(), rows) && forall row :: row in rows ==> ValidTuple(schema, row.values)
  {
  }

  /** What the plan means is the one answer described, ties in record order. */
  lemma ReferenceMeans(schema: Schema, plan: SelectPlan, scan: seq<TableRow>, out: seq<TableRow>)
    requires DistinctColumns(schema) && PlanFits(schema, plan) && IsScan(schema, scan)
    ensures IsAnswer(schema, plan, None, scan, out) <==> out == Reference(schema, plan, scan)
  {
    hide DistinctColumns, PlanFits, IsScan, IsAnswer, StableSort, Filter, Shown, OrderFor;
    AnswerMeans(schema, plan, None, scan, out);
    if plan.order == None {
      SortTrivial(Ordering(schema, plan, None), Kept(schema, plan, scan));
    }
  }

  /** A range that is not ordered by its column breaks ties by key first. */
  lemma RangeMeans(schema: Schema, plan: SelectPlan, c: nat, scan: seq<TableRow>, out: seq<TableRow>)
    requires DistinctColumns(schema) && PlanFits(schema, plan) && IsScan(schema, scan) && !OrderedBy(schema, plan, c)
    requires KeysThere(Some(c), Kept(schema, plan, scan))
    ensures IsAnswer(schema, plan, Some(c), scan, out) <==> out == RangeAnswer(schema, plan, c, scan)
  {
    hide DistinctColumns, PredicateOk, ColumnKnown, IsScan, IsAnswer, StableSort, Filter, Shown, OrderFor, OrderedBy,
         KeysThere, StrictWeakOn;
    var kept := Kept(schema, plan, scan);
    AnswerMeans(schema, plan, Some(c), scan, out);
    KeptRows(schema, plan, scan);
    if plan.order.Some? {
      var less := OrderFor(schema, plan.order.value);
      OrderWeak(schema, plan, kept);
      ByKeyWeak(c, false, kept);
      SortBySecondThenFirst(less, ByKey(c, false), kept);
    }
  }

  // ---------------------------------------------------------------- the answer of the database

  /** The column whose keys break ties: that of the index of a range, unless ORDER BY names it anyway. */
  function TieKey(indexes: seq<IndexDefinition>, table: TableDefinition, plan: SelectPlan): Option<nat> {
    var access := AccessFor(indexes, table, plan);
    if access.Some? && access.value.path == IndexRange
       && !(plan.order.Some? && SameName(access.value.column, plan.order.value.column))
    then Some(KeyColumnOf(indexes, table, access.value.name)) else None
  }

  /** Rows that meet the plan have a key in the column of its access. */
  lemma KeptHaveKeys(tables: seq<TableDefinition>, indexes: seq<IndexDefinition>, table: TableDefinition,
                     plan: SelectPlan, a: IndexAccess, scan: seq<TableRow>)
    requires TablesOk(tables) && IndexesOk(tables, indexes) && table in tables && IsScan(table.schema, scan)
    requires Exact(Matcher(indexes, table), plan.predicates, a)
    ensures KeysThere(Some(KeyColumnOf(indexes, table, a.name)), Kept(table.schema, plan, scan))
  {
    hide TablesOk, IndexesOk, Exact, Matcher, KeyColumnOf, AllHold, Filter, Admits;
    var c := KeyColumnOf(indexes, table, a.name);
    AccessIndex(tables, indexes, table, plan.predicates, a);
    FilterMember(Qualifies(table.schema, plan.predicates), scan);
    forall row | row in Kept(table.schema, plan, scan)
      ensures c < |row.values| && row.values[c].IntValue?
    {
      KeyOrNull(table, row.values, c);
      FoundIfQualified(tables, indexes, table, plan.predicates, a, row);
    }
  }

  /** The database delivers the one answer described, and breaks ties by key exactly where it runs a range. */
  lemma DatabaseMeans(tables: seq<TableDefinition>, indexes: seq<IndexDefinition>, table: TableDefinition,
                      plan: SelectPlan, scan: seq<TableRow>, out: seq<TableRow>)
    requires TablesOk(tables) && IndexesOk(tables, indexes) && table in tables
    requires PlanFits(table.schema, plan) && IsScan(table.schema, scan)
    requires ChoiceFollows(Matcher(indexes, table), plan.predicates, plan.order, AccessFor(indexes, table, plan))
    ensures IsAnswer(table.schema, plan, TieKey(indexes, table, plan), scan, out) <==>
      out == AnswerTo(indexes, table, plan, scan)
  {
    hide IndexesOk, ChosenAccess, AnyStarts, Candidates, InUseOrder, Preferred, CandidatesOf, Exact, Matcher,
         PlanFits, IsScan, IsAnswer, Reference, Delivered, KeyColumnOf, SameName, DistinctColumns, OrderedBy,
         KeysThere, Kept;
    var access := AccessFor(indexes, table, plan);
    assert ValidTable(table);
    ReferenceMeans(table.schema, plan, scan, out);
    if access.Some? && access.value.path == IndexRange {
      var c := KeyColumnOf(indexes, table, access.value.name);
      AccessIndex(tables, indexes, table, plan.predicates, access.value);
      OrderColumn(table, plan, access.value, c);
      KeptHaveKeys(tables, indexes, table, plan, access.value, scan);
      if !OrderedBy(table.schema, plan, c) {
        RangeMeans(table.schema, plan, c, scan, out);
      }
    }
  }

  /** The columns of an answer: all of the table, or the named ones in the order of their names. */
  ghost predicate Heads(schema: Schema, plan: SelectPlan, output: Schema) {
    && (plan.selectAll ==> output == schema)
    && (!plan.selectAll ==>
          && |output| == |plan.columns|
          && forall k, c :: 0 <= k < |output| && Names(schema, plan.columns[k], c) ==> output[k] == schema[c])
  }

  lemma HeadsMeans(schema: Schema, plan: SelectPlan)
    requires DistinctColumns(schema) && PlanFits(schema, plan) && !plan.selectAll
    ensures Heads(schema, plan, ColumnsOf(schema, plan.columns))
  {
    hide DistinctColumns, PredicateOk, ColumnKnown, ColumnAt, Names;
    forall k, c | 0 <= k < |plan.columns| && Names(schema, plan.columns[k], c)
      ensures c == ColumnAt(schema, plan.columns[k])
    {
      NamesOne(schema, plan.columns[k], c);
    }
  }

  /** Every row has a value of the right type under each column. */
  predicate FitsColumns(rows: seq<TableRow>, output: Schema) {
    && (forall i :: 0 <= i < |rows| ==> |rows[i].values| == |output|)
    && (forall i, k :: 0 <= i < |rows| && 0 <= k < |output| ==> Fits(rows[i].values[k], output[k]))
  }

  /** Every row of an answer fits the columns of the answer. */
  lemma AnswerFits(schema: Schema, plan: SelectPlan, key: Option<nat>, scan: seq<TableRow>, out: seq<TableRow>,
                   output: Schema)
    requires DistinctColumns(schema) && PlanFits(schema, plan) && IsScan(schema, scan) && Heads(schema, plan, output)
    requires IsAnswer(schema, plan, key, scan, out)
    ensures FitsColumns(out, output)
  {
    hide DistinctColumns, PredicateOk, ColumnKnown, ColumnAt, Fits, MeetsPlan, ComesFirst;
    var picked: seq<TableRow> :| && Picked(schema, plan, key, scan, picked) && |out| == |picked|
                  && forall k :: 0 <= k < |out| ==> Shows(schema, plan, picked[k], out[k]);
    forall i | 0 <= i < |out|
      ensures |out[i].values| == |output|
      ensures forall k :: 0 <= k < |output| ==> Fits(out[i].values[k], output[k])
    {
      assert Shows(schema, plan, picked[i], out[i]) && ValidTuple(schema, picked[i].values);
      if !plan.selectAll {
        forall k | 0 <= k < |output|
          ensures Fits(out[i].values[k], output[k])
        {
          var c := ColumnAt(schema, plan.columns[k]);
          NamesOne(schema, plan.columns[k], c);
          assert Names(schema, plan.columns[k], c);
        }
      }
    }
  }

  /** What the database delivers is the only answer described, and it fits the columns of the answer. */
  lemma OnlyAnswer(tables: seq<TableDefinition>, indexes: seq<IndexDefinition>, table: TableDefinition,
                   plan: SelectPlan, scan: seq<TableRow>, output: Schema)
    requires TablesOk(tables) && IndexesOk(tables, indexes) && table in tables
    requires PlanFits(table.schema, plan) && IsScan(table.schema, scan)
    requires ChoiceFollows(Matcher(indexes, table), plan.predicates, plan.order, AccessFor(indexes, table, plan))
    requires output == if plan.selectAll then table.schema else ColumnsOf(table.schema, plan.columns)
    ensures forall out ::
      IsAnswer(table.schema, plan, TieKey(indexes, table, plan), scan, out) <==> out == AnswerTo(indexes, table, plan, scan)
    ensures Heads(table.schema, plan, output)
    ensures FitsColumns(AnswerTo(indexes, table, plan, scan), output)
  {
    hide IndexesOk, ChoiceFollows, Matcher, AccessFor, PredicateOk, ColumnKnown, IsScan, IsAnswer, AnswerTo, TieKey,
         SameName, DistinctColumns, FitsColumns;
    assert ValidTable(table);
    forall out
      ensures IsAnswer(table.schema, plan, TieKey(indexes, table, plan), scan, out) <==>
              out == AnswerTo(indexes, table, plan, scan)
    {
      DatabaseMeans(tables, indexes, table, plan, scan, out);
    }
    if !plan.selectAll {
      HeadsMeans(table.schema, plan);
    }
    var out := AnswerTo(indexes, table, plan, scan);
    AnswerFits(table.schema, plan, TieKey(indexes, table, plan), scan, out, output);
  }

  // ---------------------------------------------------------------- plans that can be bound

  /** A literal can be compared with the column: null or of its type, and booleans only for equality. */
  predicate Comparable(c: Column, p: SqlPredicate) {
    && (p.literal.IntValue? ==> c.dataType == Integer)
    && (p.literal.TextValue? ==> c.dataType == DataType.Text)
    && (p.literal.BoolValue? ==> c.dataType == Boolean)
    && (c.dataType == Boolean ==> p.comparison == Equal || p.comparison == NotEqual)
  }

  ghost predicate Known(schema: Schema, name: Text) {
    exists c :: Names(schema, name, c)
  }

  ghost predicate Testable(schema: Schema, p: SqlPredicate) {
    exists c :: Names(schema, p.column, c) && (p.kind == Comparison ==> Comparable(schema[c], p))
  }

  /** Every name of the plan is that of a column, and every literal can be compared with its column. */
  ghost predicate Binds(schema: Schema, plan: SelectPlan) {
    && (forall i :: 0 <= i < |plan.predicates| ==> Testable(schema, plan.predicates[i]))
    && (plan.order.Some? ==> Known(schema, plan.order.value.column))
    && (forall i :: 0 <= i < |plan.columns| ==> Known(schema, plan.columns[i]))
  }

  lemma KnownMeans(schema: Schema, name: Text)
    ensures ColumnKnown(schema, name) <==> Known(schema, name)
  {
    hide Folded;
    if ColumnKnown(schema, name) {
      assert Names(schema, name, ColumnAt(schema, name));
    }
    if exists c :: Names(schema, name, c) {
      var c :| Names(schema, name, c);
      assert ColumnLike(name)(schema[c]);
    }
  }

  lemma BindsMeans(schema: Schema, plan: SelectPlan)
    requires DistinctColumns(schema)
    ensures PlanFits(schema, plan) <==> Binds(schema, plan)
  {
    hide Known, DistinctColumns, ColumnKnown, PredicateOk, Testable;
    forall i | 0 <= i < |plan.predicates|
      ensures PredicateOk(schema, plan.predicates[i]) <==> Testable(schema, plan.predicates[i])
    {
      PredicateMeans(schema, plan.predicates[i]);
    }
    if plan.order.Some? {
      KnownMeans(schema, plan.order.value.column);
    }
    forall i | 0 <= i < |plan.columns|
      ensures ColumnKnown(schema, plan.columns[i]) <==> Known(schema, plan.columns[i])
    {
      KnownMeans(schema, plan.columns[i]);
    }
  }

  lemma PredicateMeans(schema: Schema, p: SqlPredicate)
    requires DistinctColumns(schema)
    ensures PredicateOk(schema, p) <==> Testable(schema, p)
  {
    hide Folded, DistinctColumns;
    KnownMeans(schema, p.column);
    forall c | Names(schema, p.column, c)
      ensures ColumnKnown(schema, p.column) && c == ColumnAt(schema, p.column)
    {
      NamesOne(schema, p.column, c);
    }
  }

  /** A plan can be bound just when its table is there and has what it names; the table is the one of that name. */
  lemma BindableMeans(tables: seq<TableDefinition>, plan: SelectPlan)
    requires TablesOk(tables)
    ensures Bindable(tables, plan) <==>
      && (plan.selectAll <==> plan.columns == [])
      && exists t :: t in tables && SameName(t.name, plan.table) && Binds(t.schema, plan)
    ensures Bindable(tables, plan) ==>
      forall t :: t in tables && SameName(t.name, plan.table) ==> t == TargetTable(tables, plan)
  {
    hide SameName, PlanFits, Binds, DistinctColumns;
    forall t | t in tables && SameName(t.name, plan.table)
      ensures FindFirst(TableLike(plan.table), tables).Some?
      ensures tables[FindFirst(TableLike(plan.table), tables).value] == t && (PlanFits(t.schema, plan) <==> Binds(t.schema, plan))
    {
      LikeIsFound(tables, t, plan.table);
      assert ValidTable(t);
      BindsMeans(t.schema, plan);
    }
    var f := FindFirst(TableLike(plan.table), tables);
    if f.Some? {
      assert tables[f.value] in tables && TableLike(plan.table)(tables[f.value]);
    }
  }
}
