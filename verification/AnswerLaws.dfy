/** How far the rows of a range plan agree with what the plan means. */
module AnswerLaws {
  import opened Wrappers
  import opened Sequences
  import opened Stores
  import opened Tuples
  import opened TupleCodec
  import opened Catalogs
  import opened TableRows
  import opened IndexedTables
  import opened Queries
  import opened SqlPlans
  import opened IndexChoices
  import opened SelectAnalyses
  import opened SelectAnswers

  /** Rows fit the schema and stand in the order of their ids, as a scan delivers them. */
  ghost predicate IsScan(schema: Schema, scan: seq<TableRow>) {
    StrictlySorted(ById(), scan) && forall row :: row in scan ==> ValidTuple(schema, row.values)
  }

  lemma FittingTyped(schema: Schema, c: nat, scan: seq<TableRow>)
    requires IsScan(schema, scan) && c < |schema|
    ensures TypedAt(c, schema[c].dataType, scan)
  {
    forall row | row in scan
      ensures At(row.values, c).Null? || Matches(At(row.values, c), schema[c].dataType)
    {
      assert Fits(row.values[c], schema[c]);
    }
  }

  lemma KeptRows(schema: Schema, plan: SelectPlan, scan: seq<TableRow>)
    requires IsScan(schema, scan)
    ensures IsScan(schema, Kept(schema, plan, scan))
  {
    hide AllHold, Filter;
    FilterMember(Qualifies(schema, plan.predicates), scan);
    FilterSorted(ById(), Qualifies(schema, plan.predicates), scan);
  }

  lemma OrderWeak(schema: Schema, plan: SelectPlan, rows: seq<TableRow>)
    requires PlanFits(schema, plan) && IsScan(schema, rows) && plan.order.Some?
    ensures StrictWeakOn(OrderFor(schema, plan.order.value), rows)
  {
    hide PredicateOk;
    var c := ColumnAt(schema, plan.order.value.column);
    FittingTyped(schema, c, rows);
    RowBeforeWeak(c, schema[c].dataType, plan.order.value.descending, rows);
  }

  // ---------------------------------------------------------------- a permutation in the right order

  /** All rows of a range plan before columns and limit are applied. */
  function RangeOrder(schema: Schema, plan: SelectPlan, c: nat, kept: seq<TableRow>): seq<TableRow>
    requires PlanFits(schema, plan)
  {
    Arranged(schema, plan, if OrderedBy(schema, plan, c) then kept else StableSort(ByKey(c, false), kept))
  }

  /**
     In every case a range plan delivers the first rows of a permutation of the qualifying rows that is
     correctly sorted by the ORDER BY column, and as many rows as the plan means.
     */
  lemma RangePermutes(schema: Schema, plan: SelectPlan, c: nat, scan: seq<TableRow>)
    requires PlanFits(schema, plan) && IsScan(schema, scan)
    ensures var kept := Kept(schema, plan, scan);
      var all := RangeOrder(schema, plan, c, kept);
      && RangeAnswer(schema, plan, c, scan) == Shown(schema, plan, all)
      && multiset(all) == multiset(kept)
      && (plan.order.Some? ==> Sorted(OrderFor(schema, plan.order.value), all))
    ensures |RangeAnswer(schema, plan, c, scan)| == |Reference(schema, plan, scan)|
  {
    hide PredicateOk, ColumnKnown, StableSort, Filter, ColumnsFor, OrderFor, AllHold, IsScan, ColumnAt, OrderedBy,
         StrictWeakOn;
    var kept := Kept(schema, plan, scan);
    KeptRows(schema, plan, scan);
    var sorted := StableSort(ByKey(c, false), kept);
    SortMultiset(ByKey(c, false), kept);
    if plan.order.Some? {
      var less := OrderFor(schema, plan.order.value);
      OrderWeak(schema, plan, kept);
      SortElements(ByKey(c, false), kept);
      StrictWeakSub(less, kept, sorted);
      SortMultiset(less, kept);
      SortMultiset(less, sorted);
      SortIsStable(less, kept);
      SortIsStable(less, sorted);
    }
  }

  // ---------------------------------------------------------------- when the order is the same

  /** The order in which a range plan delivers rows that the plan itself does not put in order. */
  function TieBreak(schema: Schema, plan: SelectPlan, c: nat): RowLess
    requires PlanFits(schema, plan)
  {
    if plan.order == None then ByKey(c, false)
    else Lexicographic(OrderFor(schema, plan.order.value), ByKey(c, false))
  }

  /** Ordering by key first is breaking the ties of what the plan means by key. */
  lemma TiesByKey(schema: Schema, plan: SelectPlan, c: nat, kept: seq<TableRow>)
    requires PlanFits(schema, plan) && IsScan(schema, kept)
    ensures StrictWeakOn(TieBreak(schema, plan, c), kept)
    ensures Arranged(schema, plan, StableSort(ByKey(c, false), kept))
         == StableSort(TieBreak(schema, plan, c), Arranged(schema, plan, kept))
  {
    hide PredicateOk, ColumnKnown, StableSort, OrderFor, StrictWeakOn;
    ByKeyWeak(c, false, kept);
    if plan.order.Some? {
      var less := OrderFor(schema, plan.order.value);
      OrderWeak(schema, plan, kept);
      LexicographicWeak(less, ByKey(c, false), kept);
      SortBySecondThenFirst(less, ByKey(c, false), kept);
      SortByFirstThenBoth(less, ByKey(c, false), kept);
    }
  }

  /** Different rows have different ids, so what is shown tells which rows were taken. */
  lemma ShownTellsRows(schema: Schema, plan: SelectPlan, a: seq<TableRow>, b: seq<TableRow>)
    requires PlanFits(schema, plan)
    requires forall i, j :: 0 <= i < |a| && 0 <= j < |b| && a[i].id == b[j].id ==> a[i] == b[j]
    ensures Shown(schema, plan, a) == Shown(schema, plan, b) <==> Take(a, plan.limit) == Take(b, plan.limit)
  {
    hide PredicateOk, ColumnKnown, ColumnsFor;
    if !plan.selectAll {
      var f := Projection(ColumnsFor(schema, plan.columns));
      var x, y := Take(a, plan.limit), Take(b, plan.limit);
      MapTake(f, a, plan.limit);
      MapTake(f, b, plan.limit);
      if Map(f, x) == Map(f, y) {
        assert |Map(f, x)| == |x| && |Map(f, y)| == |y|;
        forall i | 0 <= i < |x|
          ensures x[i] == y[i]
        {
          assert Map(f, x)[i] == Projected(ColumnsFor(schema, plan.columns), a[i]);
          assert Map(f, y)[i] == Projected(ColumnsFor(schema, plan.columns), b[i]);
        }
      }
    }
  }

  /** A rearrangement of rows with different ids. */
  lemma SameIdSameRow(scan: seq<TableRow>, a: seq<TableRow>, b: seq<TableRow>)
    requires StrictlySorted(ById(), scan) && multiset(a) == multiset(scan) && multiset(b) == multiset(scan)
    ensures forall i, j :: 0 <= i < |a| && 0 <= j < |b| && a[i].id == b[j].id ==> a[i] == b[j]
  {
    forall x, y | 0 <= x < y < |scan|
      ensures scan[x].id != scan[y].id
    {
      assert ById()(scan[x], scan[y]);
    }
    forall i, j | 0 <= i < |a| && 0 <= j < |b| && a[i].id == b[j].id
      ensures a[i] == b[j]
    {
      assert a[i] in multiset(a) && b[j] in multiset(b);
      assert a[i] in scan && b[j] in scan;
      var x :| 0 <= x < |scan| && scan[x] == a[i];
      var y :| 0 <= y < |scan| && scan[y] == b[j];
    }
  }

  lemma DistinctRows(scan: seq<TableRow>, a: seq<TableRow>)
    requires StrictlySorted(ById(), scan) && multiset(a) == multiset(scan)
    ensures forall i, j :: 0 <= i < j < |a| ==> a[i] != a[j]
  {
    forall i, j | 0 <= i < j < |a| && a[i] == a[j]
      ensures false
    {
      var x := a[i];
      assert a == a[..i] + [x] + a[i + 1..j] + [x] + a[j + 1..];
      assert multiset(a)[x] >= 2;
      AtMostOnce(scan, x);
    }
  }

  lemma {:induction false} AtMostOnce(scan: seq<TableRow>, x: TableRow)
    requires StrictlySorted(ById(), scan)
    ensures multiset(scan)[x] <= 1
  {
    if scan != [] {
      var rest := scan[1..];
      assert scan == [scan[0]] + rest;
      AtMostOnce(rest, x);
      forall k | 0 <= k < |rest|
        ensures rest[k] != scan[0]
      {
        assert ById()(scan[0], scan[k + 1]);
      }
    }
  }

  /**
     A range plan answers exactly what it means if and only if it is ordered by the indexed column, or
     no row among the first ones has a later row that ties with it and has a smaller key.
     */
  lemma RangeExactWhen(schema: Schema, plan: SelectPlan, c: nat, scan: seq<TableRow>)
    requires PlanFits(schema, plan) && IsScan(schema, scan)
    ensures RangeAnswer(schema, plan, c, scan) == Reference(schema, plan, scan) <==>
      || OrderedBy(schema, plan, c)
      || InOrderUpTo(TieBreak(schema, plan, c), Arranged(schema, plan, Kept(schema, plan, scan)), plan.limit)
  {
    hide PlanFits, StableSort, Filter, AllHold, OrderedBy, Shown, Take, TieBreak, StrictWeakOn, InOrderUpTo;
    if !OrderedBy(schema, plan, c) {
      var kept, less := Kept(schema, plan, scan), TieBreak(schema, plan, c);
      var meant := Arranged(schema, plan, kept);
      var given := StableSort(less, meant);
      KeptRows(schema, plan, scan);
      TiesByKey(schema, plan, c, kept);
      ArrangedRows(schema, plan, kept);
      SortMultiset(less, meant);
      SameIdSameRow(kept, given, meant);
      DistinctRows(kept, meant);
      ShownTellsRows(schema, plan, given, meant);
      SameElements(meant, kept);
      StrictWeakSub(less, kept, meant);
      SortKeepsFirst(less, meant, plan.limit);
    }
  }

  lemma ArrangedRows(schema: Schema, plan: SelectPlan, kept: seq<TableRow>)
    requires PlanFits(schema, plan)
    ensures multiset(Arranged(schema, plan, kept)) == multiset(kept)
  {
    hide PredicateOk, ColumnKnown, StableSort, OrderFor;
    if plan.order.Some? {
      SortMultiset(OrderFor(schema, plan.order.value), kept);
    }
  }

  // ---------------------------------------------------------------- plans over a catalog

  function PathOf(access: Option<IndexAccess>): AccessPath {
    if access == None then TableScan else access.value.path
  }

  function NameOf(access: Option<IndexAccess>): Option<Text> {
    if access == None then None else Some(access.value.name)
  }

  /** The access that a plan gets over a catalog with these indexes. */
  function AccessFor(indexes: seq<IndexDefinition>, table: TableDefinition, plan: SelectPlan): Option<IndexAccess> {
    ChosenAccess(indexes, table, plan.predicates, plan.order)
  }

  /** The column of the index that a plan gets. */
  function ColumnFor(indexes: seq<IndexDefinition>, table: TableDefinition, plan: SelectPlan): nat {
    var access := AccessFor(indexes, table, plan);
    if access == None then 0 else KeyColumnOf(indexes, table, access.value.name)
  }

  /** What the database answers to a plan. */
  function AnswerTo(indexes: seq<IndexDefinition>, table: TableDefinition, plan: SelectPlan, scan: seq<TableRow>)
    : seq<TableRow>
    requires PlanFits(table.schema, plan)
  {
    Answer(table.schema, plan, PathOf(AccessFor(indexes, table, plan)), ColumnFor(indexes, table, plan), scan)
  }

  /** No index of the table decides an equality of the plan, and one decides a comparison. */
  ghost predicate RunsAsRange(indexes: seq<IndexDefinition>, table: TableDefinition, plan: SelectPlan) {
    var m := Matcher(indexes, table);
    !AnyStarts(m, plan.predicates, IndexLookup) && AnyStarts(m, plan.predicates, IndexRange)
  }

  /**
     The plan gets exactly the answer that it means: it does not run as a range, or it is ordered by the
     indexed column, or no row among the first ones has a later row that ties with it and has a smaller key.
     */
  ghost predicate AnsweredExactly(indexes: seq<IndexDefinition>, table: TableDefinition, plan: SelectPlan,
                                  scan: seq<TableRow>)
    requires PlanFits(table.schema, plan)
  {
    var c := ColumnFor(indexes, table, plan);
    RunsAsRange(indexes, table, plan) ==>
      || OrderedBy(table.schema, plan, c)
      || InOrderUpTo(TieBreak(table.schema, plan, c), Arranged(table.schema, plan, Kept(table.schema, plan, scan)), plan.limit)
  }

  /** The condition on catalog, plan and rows is the exact one. */
  lemma AnswerExactWhen(indexes: seq<IndexDefinition>, table: TableDefinition, plan: SelectPlan, scan: seq<TableRow>)
    requires PlanFits(table.schema, plan) && IsScan(table.schema, scan)
    requires ChoiceFollows(Matcher(indexes, table), plan.predicates, plan.order, AccessFor(indexes, table, plan))
    ensures AnswerTo(indexes, table, plan, scan) == Reference(table.schema, plan, scan) <==>
      AnsweredExactly(indexes, table, plan, scan)
  {
    hide PlanFits, AnyStarts, Exact, OrderedBy, InOrderUpTo, TieBreak, RangeAnswer, Reference, ChosenAccess,
         KeyColumnOf, IsScan;
    RangeExactWhen(table.schema, plan, ColumnFor(indexes, table, plan), scan);
  }

  /** Without an index on the table, no plan runs as a range. */
  lemma NoIndexNoRange(indexes: seq<IndexDefinition>, table: TableDefinition, plan: SelectPlan)
    requires forall i :: i in indexes ==> i.table != table.name
    ensures !RunsAsRange(indexes, table, plan)
  {
    hide ColumnKnown, ColumnAt;
    forall k, column | 0 <= k < |indexes|
      ensures !IndexOn(table.name, column)(indexes[k])
    {
      assert indexes[k] in indexes;
    }
    forall p: SqlPredicate
      ensures Matcher(indexes, table)(p) == None
    {
      if ColumnKnown(table.schema, p.column) {
        assert FindFirst(IndexOn(table.name, table.schema[ColumnAt(table.schema, p.column)].name), indexes) == None;
      }
    }
  }

  // ---------------------------------------------------------------- a plan that is answered in another order

  const COUNTER := Column([105], Integer, false)

  const COUNTERS := TableDefinition([116], [COUNTER], 1)

  const COUNTER_INDEX := IndexDefinition([120], [116], [105], RecordId(1, 0))

  /** A comparison and no ORDER BY. */
  const FROM_ONE := SqlPredicate([105], Comparison, GreaterEqual, IntValue(1))

  const COUNTERS_FROM_ONE := SelectPlan([116], true, [], [FROM_ONE], None, None)

  lemma CounterPlanFits()
    ensures TablesOk([COUNTERS]) && IndexesOk([COUNTERS], [COUNTER_INDEX]) && Bindable([COUNTERS], COUNTERS_FROM_ONE)
    ensures PlanFits([COUNTER], COUNTERS_FROM_ONE)
    ensures FindFirst(ColumnLike([105]), [COUNTER]) == Some(0)
  {
    assert ColumnLike([105])([COUNTER][0]) && ColumnIs([105])([COUNTER][0]);
    assert TableIs([116])([COUNTERS][0]) && TableLike([116])([COUNTERS][0]);
    assert COUNTERS_FROM_ONE.predicates[0] == FROM_ONE;
    assert FindFirst(TableIs([116]), [COUNTERS]) == Some(0);
    assert FindFirst(ColumnIs([105]), [COUNTER]) == Some(0);
  }

  /** A single comparison on an indexed column starts no lookup and opens one range. */
  lemma OneRange(m: IndexMatcher, p: SqlPredicate)
    requires IsRange(p) && m(p).Some?
    ensures StartedOf(m, [p]) == [] && RangesOf(m, [p]) == [Opening(m(p).value, p)]
  {
    hide Opening;
    var ps := [p];
    assert |ps| == 1 && ps[0] == p && ps[..|ps| - 1] == [];
    assert StartedOf(m, []) == [] && RangesOf(m, []) == [];
    assert FindFirst(AccessOf(m(p).value.name), []) == None;
  }

  /** The planner takes the range over the index. */
  lemma CounterAccess()
    ensures var a := AccessFor([COUNTER_INDEX], COUNTERS, COUNTERS_FROM_ONE);
      a.Some? && a.value.path == IndexRange && a.value.name == COUNTER_INDEX.name
    ensures RunsAsRange([COUNTER_INDEX], COUNTERS, COUNTERS_FROM_ONE)
    ensures ColumnFor([COUNTER_INDEX], COUNTERS, COUNTERS_FROM_ONE) == 0
  {
    CounterPlanFits();
    var m, ps := Matcher([COUNTER_INDEX], COUNTERS), [FROM_ONE];
    assert IndexOn([116], [105])([COUNTER_INDEX][0]);
    assert FindFirst(IndexOn([116], [105]), [COUNTER_INDEX]) == Some(0);
    assert ps[0] == FROM_ONE && m(ps[0]) == Some(COUNTER_INDEX) && ps[..0] == [];
    OneRange(m, FROM_ONE);
    assert IndexLike([120])([COUNTER_INDEX][0]);
    assert FindFirst(IndexLike([120]), [COUNTER_INDEX]) == Some(0);
    assert ColumnIs([105])([COUNTER][0]) && FindFirst(ColumnIs([105]), [COUNTER]) == Some(0);
  }

  /** Two rows in descending key order: over the index the plan delivers them the other way round. */
  lemma RangeReorders() returns (scan: seq<TableRow>)
    ensures PlanFits(COUNTERS.schema, COUNTERS_FROM_ONE) && IsScan(COUNTERS.schema, scan) && |scan| == 2
    ensures Reference(COUNTERS.schema, COUNTERS_FROM_ONE, scan) == [scan[0], scan[1]]
    ensures AnswerTo([COUNTER_INDEX], COUNTERS, COUNTERS_FROM_ONE, scan) == [scan[1], scan[0]]
    ensures scan[0] != scan[1]
  {
    CounterPlanFits();
    CounterAccess();
    var a, b := TableRow(RecordId(0, 0), [IntValue(2)]), TableRow(RecordId(0, 1), [IntValue(1)]);
    scan := [a, b];
    var q := Qualifies([COUNTER], [FROM_ONE]);
    assert [FROM_ONE][0] == FROM_ONE;
    assert q(a) && q(b);
    FilterAll(q, scan);
    var less := ByKey(0, false);
    assert scan == [a] + [b] && [b] == [b] + [];
    SortStep(less, a, [b]);
    SortStep(less, b, []);
    SortEmpty(less);
    hide AccessFor, ColumnFor, FindFirst, Filter;
  }
}
