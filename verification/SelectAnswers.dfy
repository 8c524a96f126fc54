/** Why the rows that an analyzed plan reaches give the rows that the plan means. */
module SelectAnswers {
  import opened Wrappers
  import opened Sequences
  import opened BPlusNodes
  import opened Tuples
  import opened Catalogs
  import opened TableRows
  import opened IndexedTables
  import opened Queries
  import opened SqlPlans
  import opened IndexChoices
  import opened SelectAnalyses

  // ---------------------------------------------------------------- the column of an access

  /** The position of the column that the named index is on. */
  function KeyColumnOf(indexes: seq<IndexDefinition>, table: TableDefinition, name: Text): nat {
    var i := FindFirst(IndexLike(name), indexes);
    if i == None || !IntegerColumn(table, indexes[i.value].column) then 0 else ColumnOf(table, indexes[i.value].column)
  }

  /** Index names belong to one index each. */
  lemma IndexUnique(tables: seq<TableDefinition>, indexes: seq<IndexDefinition>, i: nat)
    requires IndexesOk(tables, indexes) && i < |indexes|
    ensures FindFirst(IndexLike(indexes[i].name), indexes) == Some(i)
  {
    hide TargetOk, NameOk, Folded;
    var f := FindFirst(IndexLike(indexes[i].name), indexes);
    assert IndexLike(indexes[i].name)(indexes[i]);
  }

  /** A predicate that an index decides compares the indexed column with an integer. */
  lemma MatchedColumn(tables: seq<TableDefinition>, indexes: seq<IndexDefinition>, table: TableDefinition, name: Text,
                      p: SqlPredicate)
    requires TablesOk(tables) && IndexesOk(tables, indexes) && table in tables && Uses(Matcher(indexes, table), name, p)
    ensures var i := FindFirst(IndexLike(name), indexes);
      && i.Some? && indexes[i.value] == MatchingIndex(indexes, table, p).value && indexes[i.value].name == name
      && TargetOk(tables, indexes[i.value]) && TableOf(tables, indexes[i.value]) == table
      && IntegerColumn(table, indexes[i.value].column)
    ensures var c := KeyColumnOf(indexes, table, name);
      && c < |table.schema| && table.schema[c].dataType == Integer
      && ColumnKnown(table.schema, p.column) && ColumnAt(table.schema, p.column) == c
      && p.kind == Comparison && p.literal.IntValue?
  {
    hide Folded, ValidTable, IndexesOk, TablesOk, IntegerColumn;
    var c := ColumnAt(table.schema, p.column);
    var k := FindFirst(IndexOn(table.name, table.schema[c].name), indexes).value;
    MatchedTarget(tables, indexes, table, c, k);
    IndexUnique(tables, indexes, k);
  }

  lemma MatchedTarget(tables: seq<TableDefinition>, indexes: seq<IndexDefinition>, table: TableDefinition, c: nat,
                      k: nat)
    requires TablesOk(tables) && IndexesOk(tables, indexes) && table in tables && k < |indexes| && c < |table.schema|
    requires indexes[k].table == table.name && indexes[k].column == table.schema[c].name
    ensures TargetOk(tables, indexes[k]) && TableOf(tables, indexes[k]) == table
    ensures IntegerColumn(table, indexes[k].column) && ColumnOf(table, indexes[k].column) == c
  {
    hide Folded;
    NamedTable(tables, table, indexes[k]);
    assert ValidTable(table);
    ColumnFound(table, c);
  }

  /** What an exact access knows of its index. */
  lemma AccessIndex(tables: seq<TableDefinition>, indexes: seq<IndexDefinition>, table: TableDefinition,
                    ps: seq<SqlPredicate>,
                    a: IndexAccess)
    requires TablesOk(tables) && IndexesOk(tables, indexes) && table in tables && Exact(Matcher(indexes, table), ps, a)
    ensures var i, c := FindFirst(IndexLike(a.name), indexes), KeyColumnOf(indexes, table, a.name);
      && i.Some? && TargetOk(tables, indexes[i.value]) && TableOf(tables, indexes[i.value]) == table
      && IntegerColumn(table, indexes[i.value].column) && ColumnOf(table, indexes[i.value].column) == c
      && c < |table.schema| && table.schema[c].dataType == Integer && table.schema[c].name == a.column
  {
    hide Folded, IndexesOk, TablesOk, TargetOk, Decides, Mine;
    var m := Matcher(indexes, table);
    var p :| p in ps && m(p).Some? && m(p).value.name == a.name && m(p).value.column == a.column
             && if a.path == IndexLookup then p.comparison == Equal else IsRange(p);
    MatchedColumn(tables, indexes, table, a.name, p);
  }

  // ---------------------------------------------------------------- predicates and keys

  /** The column of the row is null or has an integer. */
  predicate Keyed(c: nat, row: TableRow) {
    c < |row.values| && (row.values[c].Null? || row.values[c].IntValue?)
  }

  lemma DecidedByKey(tables: seq<TableDefinition>, indexes: seq<IndexDefinition>, table: TableDefinition, name: Text,
                     p: SqlPredicate, row: TableRow)
    requires TablesOk(tables) && IndexesOk(tables, indexes) && table in tables && Uses(Matcher(indexes, table), name, p)
    requires Keyed(KeyColumnOf(indexes, table, name), row)
    ensures var key := KeyAt(row.values, KeyColumnOf(indexes, table, name));
      PredicateFor(table.schema, p)(row) <==> key.Some? && Meets(key.value, p)
  {
    hide IndexesOk, TablesOk, Uses, KeyColumnOf, TargetOk, TableOf, IntegerColumn, Compare, MatchingIndex;
    MatchedColumn(tables, indexes, table, name, p);
  }

  /** The rows an access finds. */
  function Found(a: IndexAccess, c: nat): RowPredicate {
    (row: TableRow) => KeyAt(row.values, c).Some? && Admits(a, KeyAt(row.values, c).value)
  }

  /** A row that satisfies the plan is found by the access; if the access covers the plan, no other row is. */
  lemma FoundIfQualified(tables: seq<TableDefinition>, indexes: seq<IndexDefinition>, table: TableDefinition,
                         ps: seq<SqlPredicate>,
                         a: IndexAccess, row: TableRow)
    requires TablesOk(tables) && IndexesOk(tables, indexes) && table in tables && Exact(Matcher(indexes, table), ps, a)
    requires Keyed(KeyColumnOf(indexes, table, a.name), row)
    ensures AllHold(table.schema, ps, row) ==> Found(a, KeyColumnOf(indexes, table, a.name))(row)
    ensures a.covered == |ps| && Found(a, KeyColumnOf(indexes, table, a.name))(row) ==> AllHold(table.schema, ps, row)
  {
    hide IndexesOk, TablesOk, KeyColumnOf, PredicateFor, Meets, Admits, Matcher, KeyAt;
    var m, c := Matcher(indexes, table), KeyColumnOf(indexes, table, a.name);
    var mine := Mine(m, ps, a.path, a.name);
    var key := KeyAt(row.values, c);
    MineMeans(m, ps, a.path, a.name);
    forall i | 0 <= i < |mine|
      ensures PredicateFor(table.schema, mine[i])(row) <==> key.Some? && Meets(key.value, mine[i])
    {
      DecidedByKey(tables, indexes, table, a.name, mine[i], row);
    }
    MineNotEmpty(m, ps, a);
    CoveredAtMost(m, ps, a);
    hide Exact, Mine, Decides;
    if AllHold(table.schema, ps, row) {
      assert mine[0] in ps;
      forall i | 0 <= i < |mine|
        ensures key.Some? && Meets(key.value, mine[i])
      {
        var k :| 0 <= k < |ps| && ps[k] == mine[i];
        assert PredicateFor(table.schema, ps[k])(row);
      }
      assert MeetsAll(key.value, mine);
      DecidesAt(m, ps, a, key.value);
    }
    if a.covered == |ps| && Found(a, c)(row) {
      DecidesAt(m, ps, a, key.value);
      assert mine == ps;
    }
  }

  lemma DecidesAt(m: IndexMatcher, ps: seq<SqlPredicate>, a: IndexAccess, v: int64)
    requires Exact(m, ps, a)
    ensures Admits(a, v) <==> MeetsAll(v, Mine(m, ps, a.path, a.name))
  {
    hide Mine, MeetsAll, Admits;
  }

  lemma MineMeans(m: IndexMatcher, ps: seq<SqlPredicate>, path: AccessPath, name: Text)
    ensures forall i :: 0 <= i < |Mine(m, ps, path, name)| ==> Mine(m, ps, path, name)[i] in ps && Uses(m, name, Mine(m, ps, path, name)[i])
  {
    FilterMember(if path == IndexLookup then UsesIndex(m, name) else RangeUsesIndex(m, name), ps);
  }

  lemma MineNotEmpty(m: IndexMatcher, ps: seq<SqlPredicate>, a: IndexAccess)
    requires Exact(m, ps, a)
    ensures Mine(m, ps, a.path, a.name) != []
  {
    hide Decides;
    var p :| p in ps && m(p).Some? && m(p).value.name == a.name && m(p).value.column == a.column
             && if a.path == IndexLookup then p.comparison == Equal else IsRange(p);
    FilterMember(if a.path == IndexLookup then UsesIndex(m, a.name) else RangeUsesIndex(m, a.name), ps);
    assert p in Mine(m, ps, a.path, a.name);
  }

  // ---------------------------------------------------------------- rows found and rows kept

  /** Every row of the scan is null or has an integer in the column. */
  ghost predicate AllKeyed(c: nat, scan: seq<TableRow>) {
    forall row :: row in scan ==> Keyed(c, row)
  }

  /** The rows that satisfy all predicates of a plan. */
  function Kept(schema: Schema, plan: SelectPlan, scan: seq<TableRow>): seq<TableRow> {
    Filter(Qualifies(schema, plan.predicates), scan)
  }

  /**
     The rows found by an access contain the rows to be kept, in the same order; they are just these
     if the access covers all predicates, and there are none if it is empty.
     */
  lemma KeptAmongFound(tables: seq<TableDefinition>, indexes: seq<IndexDefinition>, table: TableDefinition,
                       plan: SelectPlan,
                       a: IndexAccess, scan: seq<TableRow>)
    requires TablesOk(tables) && IndexesOk(tables, indexes) && table in tables
    requires Exact(Matcher(indexes, table), plan.predicates, a) && AllKeyed(KeyColumnOf(indexes, table, a.name), scan)
    ensures var found := Filter(Found(a, KeyColumnOf(indexes, table, a.name)), scan);
      && Filter(Qualifies(table.schema, plan.predicates), found) == Kept(table.schema, plan, scan)
      && (a.covered == |plan.predicates| ==> found == Kept(table.schema, plan, scan))
      && (a.empty ==> Kept(table.schema, plan, scan) == [])
    ensures forall row :: row in Kept(table.schema, plan, scan) ==> row in scan && Found(a, KeyColumnOf(indexes, table, a.name))(row)
  {
    hide IndexesOk, TablesOk, KeyColumnOf, Exact, AllHold, Filter, Matcher, Keyed;
    var c := KeyColumnOf(indexes, table, a.name);
    var q, f := Qualifies(table.schema, plan.predicates), Found(a, c);
    forall row | row in scan
      ensures q(row) ==> f(row)
      ensures a.covered == |plan.predicates| && f(row) ==> q(row)
    {
      FoundIfQualified(tables, indexes, table, plan.predicates, a, row);
    }
    FilterCoarse(q, f, scan);
    if a.covered == |plan.predicates| {
      FilterSame(f, q, scan);
    }
    FilterMember(q, scan);
    if a.empty {
      FilterNone(q, scan);
    }
  }

  /** The rows found are what the index is asked for. */
  lemma FoundByIndex(a: IndexAccess, c: nat, scan: seq<TableRow>)
    requires Shaped(a) && !a.empty
    ensures a.path == IndexLookup ==> Filter(HasKey(c, a.key.value), scan) == Filter(Found(a, c), scan)
    ensures a.path == IndexRange ==> Filter(KeyWithin(c, a.lower, a.upper), scan) == Filter(Found(a, c), scan)
  {
    hide Filter, KeyAt;
    if a.path == IndexLookup {
      FilterSame(HasKey(c, a.key.value), Found(a, c), scan);
    } else {
      FilterSame(KeyWithin(c, a.lower, a.upper), Found(a, c), scan);
    }
  }

  // ---------------------------------------------------------------- answers

  /** The rows that the query of an analyzed plan makes of the rows it is given. */
  function Piped(schema: Schema, plan: SelectPlan, sortsRows: bool, rows: seq<TableRow>): seq<TableRow>
    requires PlanFits(schema, plan)
  {
    var kept := Filter(Qualifies(schema, plan.predicates), rows);
    Shown(schema, plan, if sortsRows && plan.order.Some? then StableSort(OrderFor(schema, plan.order.value), kept) else kept)
  }

  /**
     The rows of a range plan on column c. They come in key order, unless the plan asks for an order
     by that column: then they come as the plan asks, ties in record order.
     */
  function RangeAnswer(schema: Schema, plan: SelectPlan, c: nat, scan: seq<TableRow>): seq<TableRow>
    requires PlanFits(schema, plan)
  {
    if OrderedBy(schema, plan, c) then Reference(schema, plan, scan)
    else Delivered(schema, plan, StableSort(ByKey(c, false), Kept(schema, plan, scan)))
  }

  predicate OrderedBy(schema: Schema, plan: SelectPlan, c: nat)
    requires PlanFits(schema, plan)
  {
    plan.order.Some? && ColumnAt(schema, plan.order.value.column) == c
  }

  /** What the database answers to a plan with this access path, on an index of column c. */
  function Answer(schema: Schema, plan: SelectPlan, path: AccessPath, c: nat, scan: seq<TableRow>): seq<TableRow>
    requires PlanFits(schema, plan)
  {
    if path == IndexRange then RangeAnswer(schema, plan, c, scan) else Reference(schema, plan, scan)
  }

  /** Limiting the candidates first makes no difference to a plan that shows the first rows anyway. */
  lemma ShownCut(schema: Schema, plan: SelectPlan, rows: seq<TableRow>)
    requires PlanFits(schema, plan)
    ensures Shown(schema, plan, Take(rows, plan.limit)) == Shown(schema, plan, rows)
  {
    hide PredicateOk, ColumnKnown, ColumnsFor;
    if plan.selectAll {
      TakeTwice(rows, plan.limit);
    } else {
      MapTake(Projection(ColumnsFor(schema, plan.columns)), rows, plan.limit);
    }
  }

  /** Without rows there is no answer, and a limit of none gives none. */
  lemma NothingShown(schema: Schema, plan: SelectPlan, path: AccessPath, c: nat, sortsRows: bool, rows: seq<TableRow>,
                     scan: seq<TableRow>)
    requires PlanFits(schema, plan)
    requires plan.limit == Some(0) || (rows == [] && Kept(schema, plan, scan) == [])
    ensures Piped(schema, plan, sortsRows, rows) == [] && Answer(schema, plan, path, c, scan) == []
    ensures Reference(schema, plan, scan) == []
  {
    hide PredicateOk, ColumnKnown, ColumnsFor, OrderFor, ColumnAt, AllHold;
  }

  /** The comparator of an order on the key column agrees with the order of the index. */
  lemma OrderByKey(schema: Schema, plan: SelectPlan, c: nat, s: seq<TableRow>)
    requires PlanFits(schema, plan) && OrderedBy(schema, plan, c) && c < |schema| && schema[c].dataType == Integer
    requires AllKeyed(c, s)
    ensures StableSort(OrderFor(schema, plan.order.value), s) == StableSort(ByKey(c, plan.order.value.descending), s)
  {
    hide PredicateOk, StableSort, ColumnAt, ColumnKnown;
    assert TypedAt(c, Integer, s);
    IntegerOrder(c, plan.order.value.descending, s);
    SortSame(OrderFor(schema, plan.order.value), ByKey(c, plan.order.value.descending), s);
  }

  /** Rows under one key need no sorting by it. */
  lemma OneKey(c: nat, descending: bool, key: int64, s: seq<TableRow>)
    requires forall row :: row in s ==> KeyAt(row.values, c) == Some(key)
    ensures StableSort(ByKey(c, descending), s) == s
  {
    SortTrivial(ByKey(c, descending), s);
  }

  /** The name in the order finds the indexed column. */
  lemma OrderColumn(table: TableDefinition, plan: SelectPlan, a: IndexAccess, c: nat)
    requires ValidTable(table) && PlanFits(table.schema, plan) && c < |table.schema| && table.schema[c].name == a.column
    ensures MatchingOrder(Some(a), plan.order) <==> OrderedBy(table.schema, plan, c)
  {
    hide Folded, PredicateOk;
    if plan.order.Some? {
      var name := plan.order.value.column;
      assert SameName(table.schema[ColumnAt(table.schema, name)].name, name);
      var o := ColumnAt(table.schema, name);
      assert o != c ==> !SameName(table.schema[c].name, table.schema[o].name);
    }
  }

  /** The situation of an analyzed plan with an access that is not empty, over the rows of its table. */
  ghost predicate Reaches(tables: seq<TableDefinition>, indexes: seq<IndexDefinition>, plan: SelectPlan,
                          an: AnalyzedSelect,
                          c: nat, scan: seq<TableRow>) {
    && TablesOk(tables) && IndexesOk(tables, indexes) && an.table in tables && Analyzed(indexes, plan, an)
    && an.access.Some? && !an.access.value.empty && c == KeyColumnOf(indexes, an.table, an.access.value.name)
    && AllKeyed(c, scan)
  }

  /** What the access of an analyzed plan means for its rows. */
  lemma ReachFacts(tables: seq<TableDefinition>, indexes: seq<IndexDefinition>, plan: SelectPlan, an: AnalyzedSelect,
                   c: nat,
                   scan: seq<TableRow>)
    requires Reaches(tables, indexes, plan, an, c, scan)
    ensures PlanFits(an.table.schema, plan) && Shortened(plan, an) && Shaped(an.access.value)
    ensures c < |an.table.schema| && an.table.schema[c].dataType == Integer
    ensures MatchingOrder(an.access, plan.order) <==> OrderedBy(an.table.schema, plan, c)
    ensures var found, kept := Filter(Found(an.access.value, c), scan), Kept(an.table.schema, plan, scan);
      && Filter(Qualifies(an.table.schema, plan.predicates), found) == kept && AllKeyed(c, kept)
      && (an.candidateLimit.Some? ==> found == kept && plan.limit == an.candidateLimit && !an.sortsRows)
      && (forall row :: row in kept ==> Found(an.access.value, c)(row) && Qualifies(an.table.schema, plan.predicates)(row))
  {
    hide IndexesOk, KeyColumnOf, PlanFits, Filter, Mine, Decides, Named, Found, AllHold, ValidTable, BoundTo, Keyed,
         SameName;
    var a := an.access.value;
    AccessIndex(tables, indexes, an.table, plan.predicates, a);
    OrderColumn(an.table, plan, a, c);
    KeptAmongFound(tables, indexes, an.table, plan, a, scan);
    FilterMember(Qualifies(an.table.schema, plan.predicates), scan);
  }

  /** A lookup answers exactly what the plan means: same rows, same order, same cut. */
  lemma LookupAnswer(tables: seq<TableDefinition>, indexes: seq<IndexDefinition>, plan: SelectPlan,
                     an: AnalyzedSelect, c: nat,
                     scan: seq<TableRow>)
    requires Reaches(tables, indexes, plan, an, c, scan) && an.access.value.path == IndexLookup
    ensures PlanFits(an.table.schema, plan) && an.access.value.key.Some?
    ensures var rows := Take(Filter(HasKey(c, an.access.value.key.value), scan), an.candidateLimit);
      Piped(an.table.schema, plan, an.sortsRows, rows) == Reference(an.table.schema, plan, scan)
  {
    ReachFacts(tables, indexes, plan, an, c, scan);
    hide Reaches, PlanFits, Filter, StableSort, Shown, OrderedBy, MatchingOrder, AllHold, OrderFor, Keyed, KeyAt,
         Found;
    var a, schema, kept := an.access.value, an.table.schema, Kept(an.table.schema, plan, scan);
    FoundByIndex(a, c, scan);
    var found := Filter(Found(a, c), scan);
    KeptWhenCut(schema, plan, found, kept, an.candidateLimit);
    if !an.sortsRows && plan.order.Some? {
      NoSortNeeded(schema, plan, a, c, kept);
    }
  }

  /** A lookup delivers rows of one key, null or others do not come up: an order by that column is met already. */
  lemma NoSortNeeded(schema: Schema, plan: SelectPlan, a: IndexAccess, c: nat, kept: seq<TableRow>)
    requires PlanFits(schema, plan) && OrderedBy(schema, plan, c) && c < |schema| && schema[c].dataType == Integer
    requires AllKeyed(c, kept) && a.path == IndexLookup && a.key.Some? && forall row :: row in kept ==> Found(a, c)(row)
    ensures Arranged(schema, plan, kept) == kept
  {
    hide PlanFits, StableSort, KeyAt, Keyed, OrderFor;
    forall row | row in kept
      ensures KeyAt(row.values, c) == Some(a.key.value)
    {
      assert Found(a, c)(row);
    }
    OrderByKey(schema, plan, c, kept);
    OneKey(c, plan.order.value.descending, a.key.value, kept);
  }

  /** Filtering the candidates gives the rows to be kept, or the first of them. */
  lemma KeptWhenCut(schema: Schema, plan: SelectPlan, candidates: seq<TableRow>, kept: seq<TableRow>,
                    limit: Option<nat>)
    requires PlanFits(schema, plan) && Filter(Qualifies(schema, plan.predicates), candidates) == kept
    requires limit.Some? ==> candidates == kept && plan.limit == limit
    requires forall row :: row in kept ==> Qualifies(schema, plan.predicates)(row)
    ensures var rest := Filter(Qualifies(schema, plan.predicates), Take(candidates, limit));
      && (limit == None ==> rest == kept)
      && Shown(schema, plan, rest) == Shown(schema, plan, kept)
  {
    hide PlanFits, Filter, Shown, AllHold;
    if limit.Some? {
      FilterAll(Qualifies(schema, plan.predicates), Take(candidates, limit));
      ShownCut(schema, plan, kept);
    }
  }

  /** A range plan answers exactly what it means if it is ordered by the indexed column, and otherwise in key order. */
  lemma RangeAnswered(tables: seq<TableDefinition>, indexes: seq<IndexDefinition>, plan: SelectPlan,
                      an: AnalyzedSelect, c: nat,
                      scan: seq<TableRow>)
    requires Reaches(tables, indexes, plan, an, c, scan) && an.access.value.path == IndexRange
    ensures PlanFits(an.table.schema, plan)
    ensures var rows := Take(StableSort(ByKey(c, an.reversesIndexOrder),
                                        Filter(KeyWithin(c, an.access.value.lower, an.access.value.upper), scan)), an.candidateLimit);
      Piped(an.table.schema, plan, an.sortsRows, rows) == RangeAnswer(an.table.schema, plan, c, scan)
  {
    ReachFacts(tables, indexes, plan, an, c, scan);
    hide Reaches, PlanFits, Filter, StableSort, Shown, AllHold, OrderFor, Keyed, KeyAt, MatchingOrder, Found,
         StrictWeakOn;
    var a, schema, kept := an.access.value, an.table.schema, Kept(an.table.schema, plan, scan);
    FoundByIndex(a, c, scan);
    var found, less := Filter(Found(a, c), scan), ByKey(c, an.reversesIndexOrder);
    ByKeyWeak(c, an.reversesIndexOrder, found);
    SortThenKeep(schema, plan, less, found, kept);
    KeptWhenCut(schema, plan, StableSort(less, found), StableSort(less, kept), an.candidateLimit);
    if OrderedBy(schema, plan, c) {
      OrderByKey(schema, plan, c, kept);
    }
    var rows := Take(StableSort(less, found), an.candidateLimit);
    RangeCases(schema, plan, an, c, kept, Filter(Qualifies(schema, plan.predicates), rows));
  }

  /** Whether the plan sorts again, relies on the order of the index or asks for none. */
  lemma RangeCases(schema: Schema, plan: SelectPlan, an: AnalyzedSelect, c: nat, kept: seq<TableRow>,
                   rest: seq<TableRow>)
    requires PlanFits(schema, plan) && Shortened(plan, an) && an.access.Some? && !an.access.value.empty
    requires an.access.value.path == IndexRange && (MatchingOrder(an.access, plan.order) <==> OrderedBy(schema, plan, c))
    requires var sorted := StableSort(ByKey(c, an.reversesIndexOrder), kept);
      Shown(schema, plan, rest) == Shown(schema, plan, sorted) && (an.sortsRows ==> rest == sorted)
    requires OrderedBy(schema, plan, c) ==>
      StableSort(OrderFor(schema, plan.order.value), kept) == StableSort(ByKey(c, plan.order.value.descending), kept)
    ensures Shown(schema, plan, if an.sortsRows && plan.order.Some? then StableSort(OrderFor(schema, plan.order.value), rest) else rest)
      == if OrderedBy(schema, plan, c) then Delivered(schema, plan, kept)
         else Delivered(schema, plan, StableSort(ByKey(c, false), kept))
  {
    hide PlanFits, StableSort, Shown, MatchingOrder, OrderFor;
  }

  /** Sorting the candidates and then filtering them is sorting what is kept. */
  lemma SortThenKeep(schema: Schema, plan: SelectPlan, less: RowLess, found: seq<TableRow>, kept: seq<TableRow>)
    requires StrictWeakOn(less, found) && Filter(Qualifies(schema, plan.predicates), found) == kept
    ensures Filter(Qualifies(schema, plan.predicates), StableSort(less, found)) == StableSort(less, kept)
    ensures forall row :: row in StableSort(less, kept) ==> Qualifies(schema, plan.predicates)(row)
  {
    hide Filter, StableSort, StrictWeakOn, AllHold;
    FilterSort(less, Qualifies(schema, plan.predicates), found);
    FilterMember(Qualifies(schema, plan.predicates), found);
    SortElements(less, kept);
  }
}
