/** The analysis of a select plan: bound names, the chosen access, and the work that it saves. */
module SelectAnalyses {
  import opened Wrappers
  import opened Tuples
  import opened Catalogs
  import opened Queries
  import opened SqlPlans
  import opened IndexChoices

  datatype AnalyzedSelect =
    AnalyzedSelect(table: TableDefinition, predicates: seq<RowPredicate>, order: Option<RowLess>, outputSchema: Schema,
                   projection: Option<seq<nat>>, access: Option<IndexAccess>, sortsRows: bool, reversesIndexOrder: bool,
                   candidateLimit: Option<nat>)

  // ---------------------------------------------------------------- analysis

  /** The keys of the chosen index are in the order that the plan asks for, or in its reverse. */
  predicate MatchingOrder(access: Option<IndexAccess>, order: Option<SqlOrder>) {
    access.Some? && ReusesOrder(order, access.value)
  }

  predicate KnownEmpty(access: Option<IndexAccess>) {
    access.Some? && access.value.empty
  }

  /** The result of analysis: bound names, an exact access, and what that access makes unnecessary. */
  ghost predicate Analyzed(indexes: seq<IndexDefinition>, plan: SelectPlan, an: AnalyzedSelect) {
    && PlanFits(an.table.schema, plan) && BoundTo(an.table.schema, plan, an) && Shortened(plan, an)
    && an.access == ChosenAccess(indexes, an.table, plan.predicates, plan.order)
    && ChoiceFollows(Matcher(indexes, an.table), plan.predicates, plan.order, an.access)
  }

  /**
     The path of the choice follows from the predicates that an index decides. The choice is exact, and the
     first of the best of all candidates, which stand in the order in which the predicates name their indexes.
     */
  ghost predicate ChoiceFollows(m: IndexMatcher, ps: seq<SqlPredicate>, order: Option<SqlOrder>,
                                access: Option<IndexAccess>)
  {
    && (access.Some? <==> AnyStarts(m, ps, IndexLookup) || AnyStarts(m, ps, IndexRange))
    && (access.Some? ==>
          && access.value.path == (if AnyStarts(m, ps, IndexLookup) then IndexLookup else IndexRange)
          && Exact(m, ps, access.value)
          && Candidates(m, ps, access.value.path, CandidatesOf(m, ps, access.value.path))
          && (exists at :: InUseOrder(m, ps, access.value.path, CandidatesOf(m, ps, access.value.path), at))
          && Preferred(order, CandidatesOf(m, ps, access.value.path), access.value))
  }

  ghost predicate BoundTo(schema: Schema, plan: SelectPlan, an: AnalyzedSelect)
    requires PlanFits(schema, plan)
  {
    && |an.predicates| == |plan.predicates|
    && (forall i :: 0 <= i < |an.predicates| ==> an.predicates[i] == PredicateFor(schema, plan.predicates[i]))
    && (if plan.selectAll then an.projection == None && an.outputSchema == schema else
          an.projection == Some(ColumnsFor(schema, plan.columns)) && an.outputSchema == ColumnsOf(schema, plan.columns))
    && an.order == if an.sortsRows && plan.order.Some? then Some(OrderFor(schema, plan.order.value)) else None
  }

  /** The columns with these names. */
  function ColumnsOf(schema: Schema, names: seq<Text>): Schema
    requires forall i :: 0 <= i < |names| ==> ColumnKnown(schema, names[i])
  {
    seq(|names|, i requires 0 <= i < |names| => schema[ColumnAt(schema, names[i])])
  }

  predicate Shortened(plan: SelectPlan, an: AnalyzedSelect) {
    var matching := MatchingOrder(an.access, plan.order);
    && an.sortsRows == (plan.order.Some? && !KnownEmpty(an.access) && !matching)
    && an.reversesIndexOrder ==
       (matching && plan.order.value.descending && an.access.value.path == IndexRange && !an.access.value.empty)
    && an.candidateLimit ==
       if plan.limit.Some? && plan.limit.value > 0 && an.access.Some? && !an.access.value.empty && !an.sortsRows
          && an.access.value.covered == |plan.predicates|
       then plan.limit else None
  }

  /** Binds all predicates of a plan. */
  method BindPredicates(schema: Schema, ps: seq<SqlPredicate>) returns (r: Result<seq<RowPredicate>>)
    requires DistinctColumns(schema)
    ensures r.Ok? <==> forall i :: 0 <= i < |ps| ==> PredicateOk(schema, ps[i])
    ensures r.Ok? ==> |r.value| == |ps| && forall i :: 0 <= i < |ps| ==> r.value[i] == PredicateFor(schema, ps[i])
    ensures r.Err? ==> r.error == SqlBindError
  {
    hide PredicateOk, PredicateFor, DistinctColumns;
    var bound: seq<RowPredicate> := [];
    for i := 0 to |ps|
      invariant |bound| == i
      invariant forall k :: 0 <= k < i ==> PredicateOk(schema, ps[k]) && bound[k] == PredicateFor(schema, ps[k])
    {
      var p := BindPredicate(schema, ps[i]);
      if p.Err? {
        return Err(p.error);
      }
      bound := bound + [p.value];
    }
    r := Ok(bound);
  }

  /** Resolves the listed columns to positions and to the schema of the output. */
  method BindColumns(schema: Schema, names: seq<Text>) returns (r: Result<(seq<nat>, Schema)>)
    requires DistinctColumns(schema)
    ensures r.Ok? <==> forall i :: 0 <= i < |names| ==> ColumnKnown(schema, names[i])
    ensures r.Ok? ==> r.value == (ColumnsFor(schema, names), ColumnsOf(schema, names))
    ensures r.Err? ==> r.error == SqlBindError
  {
    hide ColumnKnown, ColumnAt, DistinctColumns;
    var columns: seq<nat>, output: Schema := [], [];
    for i := 0 to |names|
      invariant |columns| == |output| == i
      invariant forall k :: 0 <= k < i ==> ColumnKnown(schema, names[k])
      invariant forall k :: 0 <= k < i ==> columns[k] == ColumnAt(schema, names[k]) && output[k] == schema[columns[k]]
    {
      var c := ResolveColumn(schema, names[i]);
      if c.Err? {
        return Err(c.error);
      }
      columns, output := columns + [c.value], output + [schema[c.value]];
    }
    assert columns == ColumnsFor(schema, names) && output == ColumnsOf(schema, names);
    r := Ok((columns, output));
  }

  /** Binds a plan to the catalog and decides how its rows are reached; it fails exactly on plans that cannot be bound. */
  method AnalyzeSelect(tables: seq<TableDefinition>, indexes: seq<IndexDefinition>, plan: SelectPlan)
    returns (r: Result<AnalyzedSelect>)
    requires TablesOk(tables)
    ensures r.Ok? <==> Bindable(tables, plan)
    ensures r.Ok? ==> Analyzed(indexes, plan, r.value)
    ensures r.Ok? ==> r.value.table == TargetTable(tables, plan)
    ensures r.Err? ==> r.error == SqlBindError
  {
    hide SameName, PredicateOk, PredicateFor, ColumnKnown, OrderFor, ColumnsFor, ColumnsOf, Exact, AnyStarts,
         Candidates, FirstGreatest, Matcher, ChosenAccess, CandidatesOf;
    if (plan.selectAll && plan.columns != []) || (!plan.selectAll && plan.columns == []) {
      return Err(SqlBindError);
    }
    var table := ResolveTable(tables, plan.table);
    if table.Err? {
      return Err(table.error);
    }
    var schema := table.value.schema;
    assert ValidTable(table.value);
    var predicates := BindPredicates(schema, plan.predicates);
    if predicates.Err? {
      return Err(predicates.error);
    }
    var order: Option<RowLess> := None;
    if plan.order.Some? {
      var bound := BindOrder(schema, plan.order.value);
      if bound.Err? {
        return Err(bound.error);
      }
      order := Some(bound.value);
    }
    var outputSchema, projection := schema, None;
    if !plan.selectAll {
      var bound := BindColumns(schema, plan.columns);
      if bound.Err? {
        return Err(bound.error);
      }
      outputSchema, projection := bound.value.1, Some(bound.value.0);
    }
    var access := ChooseIndex(indexes, table.value, plan.predicates, plan.order);
    var sortsRows := plan.order.Some?;
    var matching := MatchingOrder(access, plan.order);
    var reverses := matching && plan.order.value.descending && access.value.path == IndexRange && !access.value.empty;
    if plan.order.Some? && access.Some? && (access.value.empty || matching) {
      order := None;
      sortsRows := false;
    }
    var candidateLimit: Option<nat> := None;
    if plan.limit.Some? && plan.limit.value > 0 && access.Some? && !access.value.empty && !sortsRows
       && access.value.covered == |plan.predicates| {
      candidateLimit := plan.limit;
    }
    r := Ok(AnalyzedSelect(table.value, predicates.value, order, outputSchema, projection, access, sortsRows, reverses,
                           candidateLimit));
  }
}
