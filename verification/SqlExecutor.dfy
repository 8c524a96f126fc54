/** Running a select: the rows that come out are the rows that the plan means. */
module SqlExecutors {
  import opened Wrappers
  import opened Sequences
  import opened BufferPools
  import opened PageGuards
  import opened Stores
  import opened RecordStores
  import opened BPlusNodes
  import opened BPlusTrees
  import opened BPlusSearch
  import opened Tuples
  import opened TupleCodec
  import opened Catalogs
  import opened TableRows
  import opened IndexedTables
  import opened TableStores
  import opened Queries
  import opened SqlPlans
  import opened IndexChoices
  import opened SelectAnalyses
  import opened SelectAnswers
  import opened AnswerLaws
  import opened PlanMeanings

  // ---------------------------------------------------------------- what a plan is answered

  /** The rows with which the query of an analyzed plan starts. */
  function Supply(indexes: seq<IndexDefinition>, plan: SelectPlan, an: AnalyzedSelect,
                  scan: seq<TableRow>): seq<TableRow>
    requires an.access.Some? ==> Shaped(an.access.value)
  {
    if plan.limit == Some(0) || KnownEmpty(an.access) then []
    else if an.access == None then scan
    else
      var a := an.access.value;
      var c := KeyColumnOf(indexes, an.table, a.name);
      if a.path == IndexLookup then Take(Filter(HasKey(c, a.key.value), scan), an.candidateLimit)
      else Take(StableSort(ByKey(c, an.reversesIndexOrder), Filter(KeyWithin(c, a.lower, a.upper), scan)), an.candidateLimit)
  }

  lemma AccessShaped(indexes: seq<IndexDefinition>, plan: SelectPlan, an: AnalyzedSelect)
    requires Analyzed(indexes, plan, an)
    ensures an.access.Some? ==>
      Shaped(an.access.value) && Exact(Matcher(indexes, an.table), plan.predicates, an.access.value)
    ensures PlanFits(an.table.schema, plan) && Shortened(plan, an)
  {
  }

  /** The planner preserves meaning: whatever access it chooses, the plan gets its answer. */
  lemma SupplyAnswers(tables: seq<TableDefinition>, indexes: seq<IndexDefinition>, plan: SelectPlan, an: AnalyzedSelect,
                      scan: seq<TableRow>)
    requires TablesOk(tables) && IndexesOk(tables, indexes) && an.table in tables && Analyzed(indexes, plan, an)
    requires IsScan(an.table.schema, scan)
    ensures PlanFits(an.table.schema, plan) && (an.access.Some? ==> Shaped(an.access.value))
    ensures Piped(an.table.schema, plan, an.sortsRows, Supply(indexes, plan, an, scan))
         == AnswerTo(indexes, an.table, plan, scan)
  {
    AccessShaped(indexes, plan, an);
    hide ChosenAccess, AnyStarts, PlanFits, Piped, Reference, RangeAnswer, Exact, BoundTo, Shortened, AllHold,
         IndexesOk, TablesOk, KeyColumnOf, StableSort, Filter, Keyed, IsScan, Shaped;
    if an.access.Some? {
      SupplyByAccess(tables, indexes, plan, an, scan);
    } else if plan.limit == Some(0) {
      NothingShown(an.table.schema, plan, TableScan, 0, an.sortsRows, [], scan);
    } else {
      ScanAnswer(an.table.schema, plan, an, scan);
    }
  }

  lemma SupplyByAccess(tables: seq<TableDefinition>, indexes: seq<IndexDefinition>, plan: SelectPlan,
                       an: AnalyzedSelect,
                       scan: seq<TableRow>)
    requires TablesOk(tables) && IndexesOk(tables, indexes) && an.table in tables && Analyzed(indexes, plan, an)
    requires IsScan(an.table.schema, scan) && an.access.Some? && Shaped(an.access.value) && PlanFits(an.table.schema, plan)
    ensures Piped(an.table.schema, plan, an.sortsRows, Supply(indexes, plan, an, scan))
         == Answer(an.table.schema, plan, an.access.value.path, KeyColumnOf(indexes, an.table, an.access.value.name), scan)
  {
    hide Analyzed, ChosenAccess, AnyStarts, PlanFits, Piped, Reference, RangeAnswer, Exact, Shortened, AllHold,
         IndexesOk, TablesOk, KeyColumnOf, StableSort, Filter, IsScan, Shaped, AllKeyed, Found, Take;
    var a, c := an.access.value, KeyColumnOf(indexes, an.table, an.access.value.name);
    AccessShaped(indexes, plan, an);
    AccessPathKnown(a);
    AccessKeyed(tables, indexes, plan, an, scan);
    if plan.limit == Some(0) || a.empty {
      KeptAmongFound(tables, indexes, an.table, plan, a, scan);
      NothingShown(an.table.schema, plan, a.path, c, an.sortsRows, [], scan);
    } else if a.path == IndexLookup {
      LookupAnswer(tables, indexes, plan, an, c, scan);
    } else {
      RangeAnswered(tables, indexes, plan, an, c, scan);
    }
  }

  lemma AccessPathKnown(a: IndexAccess)
    requires Shaped(a)
    ensures a.path != TableScan
  {
  }

  lemma ScanAnswer(schema: Schema, plan: SelectPlan, an: AnalyzedSelect, scan: seq<TableRow>)
    requires PlanFits(schema, plan) && Shortened(plan, an) && an.access == None
    ensures Piped(schema, plan, an.sortsRows, scan) == Reference(schema, plan, scan)
  {
    hide PlanFits, StableSort, Filter, Shown, OrderFor, AllHold;
  }

  lemma AccessKeyed(tables: seq<TableDefinition>, indexes: seq<IndexDefinition>, plan: SelectPlan, an: AnalyzedSelect,
                    scan: seq<TableRow>)
    requires TablesOk(tables) && IndexesOk(tables, indexes) && an.table in tables && Analyzed(indexes, plan, an)
    requires IsScan(an.table.schema, scan) && an.access.Some?
    ensures AllKeyed(KeyColumnOf(indexes, an.table, an.access.value.name), scan)
  {
    hide IndexesOk, TablesOk, KeyColumnOf, PlanFits, BoundTo, Shortened, Exact;
    AccessIndex(tables, indexes, an.table, plan.predicates, an.access.value);
    var c := KeyColumnOf(indexes, an.table, an.access.value.name);
    forall row | row in scan
      ensures Keyed(c, row)
    {
      KeyOrNull(an.table, row.values, c);
    }
  }

  // ---------------------------------------------------------------- running a plan

  /** A query that is ready to deliver the rows of a plan. */
  class BoundSelect {
    const query: Query
    const outputSchema: Schema
    const accessPath: AccessPath
    const indexName: Option<Text>

    constructor (query: Query, outputSchema: Schema, accessPath: AccessPath, indexName: Option<Text>)
      ensures this.query == query && this.outputSchema == outputSchema
      ensures this.accessPath == accessPath && this.indexName == indexName
    {
      this.query := query;
      this.outputSchema := outputSchema;
      this.accessPath := accessPath;
      this.indexName := indexName;
    }

    method Next() returns (r: Option<TableRow>)
      requires query.Valid()
      modifies query.root.Repr(), query.pool, query.pool.heap
      ensures query.Valid() && query.root == old(query.root) && PoolSlots(query.pool) == old(PoolSlots(query.pool))
      ensures old(query.Pending()) == Then(r, query.Pending()) && (r == None ==> query.Pending() == [])
    {
      r := query.Next();
    }
  }

  /** The scan of a table in a sound store. */
  lemma ScanFits(tables: seq<TableDefinition>, table: TableDefinition, m: Store)
    requires TablesOk(tables) && table in tables && RowsOk(tables, m)
    ensures IsScan(table.schema, Scanned(table, m))
  {
    hide Scanned, Reading, RowsOk, TablesOk, ValidTuple, RowTuple;
    ScannedExact(tables, table, m);
    RowsFit(table, m);
  }

  lemma WidthOfScan(schema: Schema, scan: seq<TableRow>, rows: seq<TableRow>)
    requires IsScan(schema, scan) && forall row :: row in rows ==> row in scan
    ensures forall k :: 0 <= k < |rows| ==> |rows[k].values| == |schema|
  {
  }

  /** A query over the rows that the access of an analyzed plan finds. */
  method MakeQuery(tables: TableStore, plan: SelectPlan, an: AnalyzedSelect) returns (r: Result<Query>)
    requires tables.Valid() && an.table in tables.catalog.tables && Analyzed(tables.catalog.indexes, plan, an)
    modifies tables.records.pool, tables.records.pool.heap
    ensures tables.Valid() && tables.records.Slots() == old(tables.records.Slots())
    ensures tables.records.Contents() == old(tables.records.Contents())
    ensures an.access.Some? ==> Shaped(an.access.value)
    ensures r.Ok? ==> && fresh(r.value) && fresh(r.value.root.Repr()) && r.value.pool == tables.records.pool
                      && r.value.columnCount == |an.table.schema| && r.value.Valid()
    ensures tables.InStep() ==> r.Ok?
    ensures r.Ok? && tables.InStep() ==>
      (r.value.Pending() == Supply(tables.catalog.indexes, plan, an, Scanned(an.table, tables.records.Contents())))
    ensures r.Err? ==> r.error == TableCorruption
  {
    hide Forest, RecordStore.Contents, PoolSlots, TableOk, HasUnpinned, SameName, Scanned, TablesOk, RowsOk, Reading,
         FindFirst, TargetOk, TableOf, ColumnOf, WellFormed, Agreeing, Filter, KeyAt, StableSort, Exact, PlanFits,
         BoundTo, Shortened, ChosenAccess, AnyStarts, ChoiceFollows, IntegerColumn, RowTuple, BufferPool.Valid;
    ghost var m := tables.records.Contents();
    ghost var scan := Scanned(an.table, m);
    AccessShaped(tables.catalog.indexes, plan, an);
    if plan.limit == Some(0) || (an.access.Some? && an.access.value.empty) {
      r := Query.FromRows([], |an.table.schema|, tables.records.pool);
      return;
    }
    if an.access == None {
      r := Query.From(tables, an.table.name);
      TableIsFound(tables.catalog.tables, an.table);
      return;
    }
    var found := FetchRows(tables, plan, an);
    if found.Err? {
      return Err(found.error);
    }
    ScanFits(tables.catalog.tables, an.table, m);
    WidthOfScan(an.table.schema, scan, found.value);
    r := Query.FromRows(found.value, |an.table.schema|, tables.records.pool);
  }

  /** The rows that the index of an access gives for its keys. */
  method FetchRows(tables: TableStore, ghost plan: SelectPlan, an: AnalyzedSelect) returns (r: Result<seq<TableRow>>)
    requires tables.Valid() && an.table in tables.catalog.tables && Analyzed(tables.catalog.indexes, plan, an)
    requires an.access.Some? && Shaped(an.access.value) && !an.access.value.empty && plan.limit != Some(0)
    modifies tables.records.pool, tables.records.pool.heap
    ensures tables.Valid() && tables.records.Slots() == old(tables.records.Slots())
    ensures tables.records.Contents() == old(tables.records.Contents())
    ensures tables.InStep() ==> r == Ok(Supply(tables.catalog.indexes, plan, an, Scanned(an.table, tables.records.Contents())))
    ensures r.Ok? ==> forall row :: row in r.value ==> row in Scanned(an.table, tables.records.Contents())
    ensures r.Err? ==> r.error == TableCorruption
  {
    hide Forest, RecordStore.Contents, PoolSlots, TableOk, HasUnpinned, SameName, Scanned, TablesOk, RowsOk, Reading,
         FindFirst, TargetOk, TableOf, ColumnOf, WellFormed, Agreeing, Filter, KeyAt, StableSort, Exact, PlanFits,
         BoundTo, Shortened, ChosenAccess, AnyStarts, ChoiceFollows, IntegerColumn, RowTuple, BufferPool.Valid;
    var a := an.access.value;
    AccessShaped(tables.catalog.indexes, plan, an);
    AccessIndex(tables.catalog.tables, tables.catalog.indexes, an.table, plan.predicates, a);
    if a.path == IndexLookup {
      r := tables.LookupIndex(a.name, a.key.value, an.candidateLimit);
    } else {
      r := tables.LookupIndexRange(a.name, a.lower, a.upper, an.reversesIndexOrder, an.candidateLimit);
    }
  }

  lemma TableIsFound(tables: seq<TableDefinition>, table: TableDefinition)
    requires TablesOk(tables) && table in tables
    ensures var t := FindFirst(TableLike(table.name), tables);
      t.Some? && tables[t.value] == table
  {
    hide TablesOk, FindFirst;
    var k :| 0 <= k < |tables| && tables[k] == table;
    TableFound(tables, k);
  }

  lemma OneMoreFilter(schema: Schema, ps: seq<SqlPredicate>, i: nat, rows: seq<TableRow>)
    requires i < |ps|
    ensures Filter(PredicateFor(schema, ps[i]), Filter(Qualifies(schema, ps[..i]), rows)) == Filter(Qualifies(schema, ps[..i + 1]), rows)
  {
    hide Filter, PredicateFor;
    var done, more := ps[..i], ps[..i + 1];
    var fine, coarse := Qualifies(schema, more), Qualifies(schema, done);
    assert more == done + [ps[i]];
    forall row
      ensures fine(row) <==> coarse(row) && PredicateFor(schema, ps[i])(row)
    {
      assert AllHold(schema, more, row) ==> PredicateFor(schema, more[i])(row);
      assert forall k :: 0 <= k < i ==> done[k] == more[k];
    }
    FilterCoarse(fine, coarse, rows);
    FilterMember(coarse, rows);
    FilterSame(fine, PredicateFor(schema, ps[i]), Filter(coarse, rows));
  }

  lemma NoFilter(schema: Schema, rows: seq<TableRow>)
    ensures Filter(Qualifies(schema, []), rows) == rows
  {
    FilterAll(Qualifies(schema, []), rows);
  }

  /** Puts all filters of an analyzed plan on its query. */
  method AddFilters(query: Query, ghost plan: SelectPlan, an: AnalyzedSelect)
    requires query.Valid() && PlanFits(an.table.schema, plan) && BoundTo(an.table.schema, plan, an)
    modifies query
    ensures query.Valid() && fresh(query.root.Repr() - old(query.root.Repr())) && query.columnCount == old(query.columnCount)
    ensures query.Pending() == Filter(Qualifies(an.table.schema, plan.predicates), old(query.Pending()))
  {
    hide PlanFits, Query.Pending, Query.Valid, Filter, AllHold, PredicateFor;
    ghost var rows, ps := query.Pending(), plan.predicates;
    NoFilter(an.table.schema, rows);
    assert ps[..0] == [];
    for i := 0 to |an.predicates|
      invariant query.Valid() && fresh(query.root.Repr() - old(query.root.Repr())) && query.columnCount == old(query.columnCount)
      invariant query.Pending() == Filter(Qualifies(an.table.schema, ps[..i]), rows)
    {
      OneMoreFilter(an.table.schema, ps, i, rows);
      query.Filter(an.predicates[i]);
    }
    assert ps[..|ps|] == ps;
  }

  /** Adds the filters, the sort, the columns and the limit of an analyzed plan to its query. */
  method Finish(query: Query, plan: SelectPlan, an: AnalyzedSelect)
    requires query.Valid() && query.columnCount == |an.table.schema|
    requires PlanFits(an.table.schema, plan) && BoundTo(an.table.schema, plan, an) && Shortened(plan, an)
    modifies query
    ensures query.Valid() && fresh(query.root.Repr() - old(query.root.Repr())) && query.columnCount == |an.outputSchema|
    ensures query.Pending() == Piped(an.table.schema, plan, an.sortsRows, old(query.Pending()))
  {
    hide PlanFits, Query.Pending, Query.Valid, Filter, AllHold, StableSort, OrderFor, ColumnsOf, PredicateFor;
    AddFilters(query, plan, an);
    if an.order.Some? {
      query.Sort(an.order.value);
    }
    if an.projection.Some? {
      ProjectionFits(an.table.schema, plan);
      var projected := query.Project(an.projection.value);
    }
    if plan.limit.Some? {
      query.Limit(plan.limit.value);
    }
  }

  lemma ProjectionFits(schema: Schema, plan: SelectPlan)
    requires PlanFits(schema, plan)
    ensures var cs := ColumnsFor(schema, plan.columns);
      (forall k :: 0 <= k < |cs| ==> cs[k] < |schema|) && |cs| == |ColumnsOf(schema, plan.columns)|
  {
    hide PredicateOk, ColumnAt;
  }

  /** What an analyzed plan is answered is the only answer described. */
  lemma AnalyzedAnswer(tables: seq<TableDefinition>, indexes: seq<IndexDefinition>, plan: SelectPlan, an: AnalyzedSelect,
                       scan: seq<TableRow>)
    requires TablesOk(tables) && IndexesOk(tables, indexes) && an.table in tables && Analyzed(indexes, plan, an)
    requires IsScan(an.table.schema, scan)
    ensures PlanFits(an.table.schema, plan) && Heads(an.table.schema, plan, an.outputSchema)
    ensures forall out :: IsAnswer(an.table.schema, plan, TieKey(indexes, an.table, plan), scan, out) <==>
                          out == AnswerTo(indexes, an.table, plan, scan)
    ensures FitsColumns(AnswerTo(indexes, an.table, plan, scan), an.outputSchema)
  {
    hide TablesOk, IndexesOk, ChoiceFollows, Matcher, ChosenAccess, PlanFits, IsScan, IsAnswer, AnswerTo, TieKey,
         Shortened, FitsColumns, ColumnsOf, Heads;
    OnlyAnswer(tables, indexes, an.table, plan, scan, an.outputSchema);
  }

  /** The whole query of an analyzed plan. */
  method RunAnalyzed(tables: TableStore, plan: SelectPlan, an: AnalyzedSelect) returns (r: Result<Query>)
    requires tables.Valid() && an.table in tables.catalog.tables && Analyzed(tables.catalog.indexes, plan, an)
    modifies tables.records.pool, tables.records.pool.heap
    ensures tables.Valid() && tables.records.Slots() == old(tables.records.Slots())
    ensures tables.records.Contents() == old(tables.records.Contents())
    ensures PlanFits(an.table.schema, plan)
    ensures r.Ok? ==> && fresh(r.value) && fresh(r.value.root.Repr()) && r.value.pool == tables.records.pool
                      && r.value.columnCount == |an.outputSchema| && r.value.Valid()
    ensures tables.InStep() ==> r.Ok?
    ensures r.Ok? && tables.InStep() ==>
      var indexes, scan := tables.catalog.indexes, Scanned(an.table, tables.records.Contents());
      && r.value.Pending() == AnswerTo(indexes, an.table, plan, scan)
      && (r.value.Pending() == Reference(an.table.schema, plan, scan) <==> AnsweredExactly(indexes, an.table, plan, scan))
      && (forall out ::
            IsAnswer(an.table.schema, plan, TieKey(indexes, an.table, plan), scan, out) <==> out == r.value.Pending())
      && FitsColumns(r.value.Pending(), an.outputSchema)
    ensures r.Ok? ==> Heads(an.table.schema, plan, an.outputSchema)
    ensures r.Err? ==> r.error == TableCorruption
  {
    hide ChosenAccess, AnyStarts, ChoiceFollows, Query.Pending, Query.Valid, PlanFits, BoundTo, Exact,
         RecordStore.Contents, PoolSlots, Scanned, Piped, AnswerTo, AnsweredExactly, Reference, Supply, Shortened,
         SameName, Shaped, Forest, RowsOk, TableStore.Valid, TableStore.InStep, RowTuple, TablesOk, IndexesOk, IsScan,
         BufferPool.Valid, IsAnswer, TieKey, FitsColumns, Heads;
    r := MakeQuery(tables, plan, an);
    if r.Err? {
      return;
    }
    InOrder(tables);
    ghost var scan := Scanned(an.table, tables.records.Contents());
    ScanFits(tables.catalog.tables, an.table, tables.records.Contents());
    SupplyAnswers(tables.catalog.tables, tables.catalog.indexes, plan, an, scan);
    AnswerExactWhen(tables.catalog.indexes, an.table, plan, scan);
    AnalyzedAnswer(tables.catalog.tables, tables.catalog.indexes, plan, an, scan);
    Finish(r.value, plan, an);
  }

  /**
     Binds a plan to the database. It fails exactly on plans that cannot be bound. The access follows from
     catalog and plan, and if the indexes are in step with the tables, so does whether the query delivers
     exactly what the plan means.
     */
  method BindSelect(tables: TableStore, plan: SelectPlan) returns (r: Result<BoundSelect>)
    requires tables.Valid()
    modifies tables.records.pool, tables.records.pool.heap
    ensures tables.Valid() && tables.records.Slots() == old(tables.records.Slots())
    ensures tables.records.Contents() == old(tables.records.Contents())
    ensures !Bindable(tables.catalog.tables, plan) ==> r == Err(SqlBindError)
    ensures Bindable(tables.catalog.tables, plan) && r.Err? ==> r.error == TableCorruption && !tables.InStep()
    ensures r.Ok? ==>
      && fresh(r.value) && fresh(r.value.query) && fresh(r.value.query.root.Repr())
      && r.value.query.pool == tables.records.pool && r.value.query.Valid()
      && r.value.query.columnCount == |r.value.outputSchema|
      && r.value.outputSchema == OutputSchema(tables.catalog.tables, plan)
    ensures r.Ok? ==>
      var indexes, table := tables.catalog.indexes, TargetTable(tables.catalog.tables, plan);
      var access := AccessFor(indexes, table, plan);
      && r.value.accessPath == PathOf(access) && r.value.indexName == NameOf(access)
      && ChoiceFollows(Matcher(indexes, table), plan.predicates, plan.order, access)
    ensures r.Ok? && tables.InStep() ==>
      var indexes, table := tables.catalog.indexes, TargetTable(tables.catalog.tables, plan);
      var scan := Scanned(table, tables.records.Contents());
      && PlanFits(table.schema, plan) && r.value.query.Pending() == AnswerTo(indexes, table, plan, scan)
      && (r.value.query.Pending() == Reference(table.schema, plan, scan) <==> AnsweredExactly(indexes, table, plan, scan))
    ensures r.Ok? ==> Heads(TargetTable(tables.catalog.tables, plan).schema, plan, r.value.outputSchema)
    ensures r.Ok? && tables.InStep() ==>
      var indexes, table := tables.catalog.indexes, TargetTable(tables.catalog.tables, plan);
      var scan := Scanned(table, tables.records.Contents());
      && (forall out ::
            IsAnswer(table.schema, plan, TieKey(indexes, table, plan), scan, out) <==> out == r.value.query.Pending())
      && FitsColumns(r.value.query.Pending(), r.value.outputSchema)
  {
    hide ChosenAccess, AnyStarts, ChoiceFollows, Query.Pending, Query.Valid, PlanFits, BoundTo, Exact,
         RecordStore.Contents, PoolSlots, Scanned, Piped, AnswerTo, AnsweredExactly, Reference, Supply, Shortened,
         SameName, Shaped, Forest, RowsOk, Analyzed, TableStore.Valid, TableStore.InStep, Bindable, OutputSchema,
         TargetTable, FindFirst, AccessFor, RowTuple, IsAnswer, TieKey, FitsColumns, Heads;
    InOrder(tables);
    var an := AnalyzeSelect(tables.catalog.tables, tables.catalog.indexes, plan);
    if an.Err? {
      return Err(an.error);
    }
    OutputBound(tables.catalog.tables, tables.catalog.indexes, plan, an.value);
    var query := RunAnalyzed(tables, plan, an.value);
    if query.Err? {
      return Err(query.error);
    }
    var bound := new BoundSelect(query.value, an.value.outputSchema, PathOf(an.value.access), NameOf(an.value.access));
    r := Ok(bound);
  }

  lemma InOrder(tables: TableStore)
    requires tables.Valid()
    ensures tables.records.Ready()
    ensures TablesOk(tables.catalog.tables) && IndexesOk(tables.catalog.tables, tables.catalog.indexes)
    ensures RowsOk(tables.catalog.tables, tables.records.Contents())
  {
  }

  /** The columns of the answer. */
  function OutputSchema(tables: seq<TableDefinition>, plan: SelectPlan): Schema {
    if !Bindable(tables, plan) then [] else
    var schema := TargetTable(tables, plan).schema;
    if plan.selectAll then schema else ColumnsOf(schema, plan.columns)
  }

  lemma OutputBound(tables: seq<TableDefinition>, indexes: seq<IndexDefinition>, plan: SelectPlan, an: AnalyzedSelect)
    requires Bindable(tables, plan) && Analyzed(indexes, plan, an)
    requires an.table == TargetTable(tables, plan)
    ensures an.outputSchema == OutputSchema(tables, plan) && an.table in tables
    ensures an.access == AccessFor(indexes, an.table, plan)
    ensures ChoiceFollows(Matcher(indexes, an.table), plan.predicates, plan.order, an.access)
    ensures PlanFits(an.table.schema, plan) && BoundTo(an.table.schema, plan, an) && Shortened(plan, an)
  {
    hide Exact, PredicateOk, ColumnKnown, SameName;
  }

  // ---------------------------------------------------------------- explaining a plan

  datatype ScanDirection = Forward | Reverse

  datatype SelectExplanation =
    SelectExplanation(table: Text, accessPath: AccessPath, indexName: Option<Text>, lookupKey: Option<int64>,
                      lowerBound: Option<int64>, upperBound: Option<int64>, direction: Option<ScanDirection>,
                      emptyResult: bool, predicateCount: nat, residualCount: nat, sortsRows: bool,
                      limit: Option<nat>, candidateLimit: Option<nat>)

  /** The rows that the explained index keys allow. */
  predicate Allowed(e: SelectExplanation, c: nat, row: TableRow) {
    var key := KeyAt(row.values, c);
    && key.Some? && (e.accessPath == IndexLookup ==> e.lookupKey == key) && InBounds(e.lowerBound, e.upperBound, key.value)
  }

  /**
     What an explanation promises: an empty result is empty whatever rows the table has; otherwise the
     rows sought are allowed by the index keys, and without residual predicates every allowed row is one.
     */
  ghost predicate Honest(indexes: seq<IndexDefinition>, table: TableDefinition, plan: SelectPlan, e: SelectExplanation,
                         scan: seq<TableRow>)
    requires PlanFits(table.schema, plan)
  {
    && (e.emptyResult ==> Reference(table.schema, plan, scan) == [])
    && (!e.emptyResult && e.indexName.Some? ==>
          var c := KeyColumnOf(indexes, table, e.indexName.value);
          forall row :: row in scan ==>
            && (AllHold(table.schema, plan.predicates, row) ==> Allowed(e, c, row))
            && (e.residualCount == 0 && Allowed(e, c, row) ==> AllHold(table.schema, plan.predicates, row)))
    && (!e.emptyResult && plan.order.Some? && !e.sortsRows ==>
          e.indexName.Some? && OrderedBy(table.schema, plan, KeyColumnOf(indexes, table, e.indexName.value)))
  }

  /** Explains a plan without running it. */
  method ExplainSelect(tables: seq<TableDefinition>, indexes: seq<IndexDefinition>,
                       plan: SelectPlan) returns (r: Result<SelectExplanation>)
    requires TablesOk(tables) && IndexesOk(tables, indexes)
    ensures r.Ok? <==> Bindable(tables, plan)
    ensures r.Err? ==> r.error == SqlBindError
    ensures r.Ok? ==>
      var table := TargetTable(tables, plan);
      var access := AccessFor(indexes, table, plan);
      && r.value.accessPath == PathOf(access) && r.value.indexName == NameOf(access)
      && ChoiceFollows(Matcher(indexes, table), plan.predicates, plan.order, access)
      && r.value.table == table.name && r.value.predicateCount == |plan.predicates|
      && r.value.residualCount <= r.value.predicateCount && r.value.limit == plan.limit
      && r.value.residualCount == |plan.predicates| - (if access == None then 0 else access.value.covered)
      && forall scan :: IsScan(table.schema, scan) ==> Honest(indexes, table, plan, r.value, scan)
    ensures r.Ok? ==>
      var table, e := TargetTable(tables, plan), r.value;
      var access := AccessFor(indexes, table, plan);
      var known := access.Some? && access.value.empty;
      var inOrder := access.Some? && plan.order.Some? && SameName(access.value.column, plan.order.value.column);
      && (access == None ==> e.lookupKey == None && e.lowerBound == None && e.upperBound == None)
      && (access.Some? ==>
            && e.lookupKey == access.value.key && e.lowerBound == access.value.lower && e.upperBound == access.value.upper)
      && (e.emptyResult <==> known || plan.limit == Some(0))
      && (e.direction.Some? <==> e.accessPath == IndexRange && !known)
      && (e.direction == Some(Reverse) <==> e.accessPath == IndexRange && !known && inOrder && plan.order.value.descending)
      && (e.sortsRows <==> plan.order.Some? && !known && !inOrder)
      && (e.candidateLimit.Some? <==>
            && plan.limit.Some? && plan.limit != Some(0) && access.Some? && !known && !e.sortsRows
            && e.residualCount == 0)
      && (e.candidateLimit.Some? ==> e.candidateLimit == plan.limit)
  {
    hide ChosenAccess, AnyStarts, ChoiceFollows, PlanFits, BoundTo, Exact, Honest, IsScan, TablesOk, IndexesOk,
         SameName, MeetsAll, Admits, Bindable, FindFirst;
    var an := AnalyzeSelect(tables, indexes, plan);
    if an.Err? {
      return Err(an.error);
    }
    OutputBound(tables, indexes, plan, an.value);
    var access := an.value.access;
    var e := SelectExplanation(an.value.table.name, TableScan, None, None, None, None, None, false, |plan.predicates|,
                               |plan.predicates|, an.value.sortsRows, plan.limit, an.value.candidateLimit);
    if access.Some? {
      var a := access.value;
      AccessShaped(indexes, plan, an.value);
      CoveredAtMost(Matcher(indexes, an.value.table), plan.predicates, a);
      e := e.(accessPath := a.path, indexName := Some(a.name), lookupKey := a.key, lowerBound := a.lower, upperBound := a.upper,
              residualCount := |plan.predicates| - a.covered);
      if a.path == IndexRange && !a.empty {
        e := e.(direction := Some(if an.value.reversesIndexOrder then Reverse else Forward));
      }
    }
    e := e.(emptyResult := plan.limit == Some(0) || (access.Some? && access.value.empty));
    AlwaysHonest(tables, indexes, plan, an.value, e);
    r := Ok(e);
  }

  lemma AlwaysHonest(tables: seq<TableDefinition>, indexes: seq<IndexDefinition>, plan: SelectPlan, an: AnalyzedSelect,
                     e: SelectExplanation)
    requires TablesOk(tables) && IndexesOk(tables, indexes) && an.table in tables && Analyzed(indexes, plan, an)
    requires e.emptyResult == (plan.limit == Some(0) || KnownEmpty(an.access)) && e.sortsRows == an.sortsRows
    requires e.indexName == NameOf(an.access) && e.accessPath == PathOf(an.access)
    requires an.access.Some? ==>
      var a := an.access.value;
      && e.lookupKey == a.key && e.lowerBound == a.lower && e.upperBound == a.upper
      && e.residualCount == |plan.predicates| - a.covered
    ensures PlanFits(an.table.schema, plan)
    ensures forall scan :: IsScan(an.table.schema, scan) ==> Honest(indexes, an.table, plan, e, scan)
  {
    AccessShaped(indexes, plan, an);
    hide Analyzed, ChosenAccess, PlanFits, TablesOk, IndexesOk, Honest, IsScan;
    forall scan | IsScan(an.table.schema, scan)
      ensures Honest(indexes, an.table, plan, e, scan)
    {
      ExplanationHonest(tables, indexes, plan, an, e, scan);
    }
  }

  lemma ExplanationHonest(tables: seq<TableDefinition>, indexes: seq<IndexDefinition>, plan: SelectPlan,
                          an: AnalyzedSelect,
                          e: SelectExplanation, scan: seq<TableRow>)
    requires TablesOk(tables) && IndexesOk(tables, indexes) && an.table in tables && Analyzed(indexes, plan, an)
    requires IsScan(an.table.schema, scan)
    requires e.emptyResult == (plan.limit == Some(0) || KnownEmpty(an.access)) && e.sortsRows == an.sortsRows
    requires e.indexName == NameOf(an.access) && e.accessPath == PathOf(an.access)
    requires an.access.Some? ==>
      var a := an.access.value;
      && e.lookupKey == a.key && e.lowerBound == a.lower && e.upperBound == a.upper
      && e.residualCount == |plan.predicates| - a.covered
    ensures PlanFits(an.table.schema, plan) && Honest(indexes, an.table, plan, e, scan)
  {
    hide Analyzed, ChosenAccess, AnyStarts, PlanFits, Exact, TablesOk, IndexesOk, SameName, ReusesOrder, Reference,
         AllHold, KeyColumnOf, IsScan, Keyed, OrderedBy, Shaped, KeyAt;
    AccessShaped(indexes, plan, an);
    if an.access.Some? {
      var a, c := an.access.value, KeyColumnOf(indexes, an.table, an.access.value.name);
      AccessKeyed(tables, indexes, plan, an, scan);
      KeptAmongFound(tables, indexes, an.table, plan, a, scan);
      forall row | row in scan
        ensures AllHold(an.table.schema, plan.predicates, row) ==> Found(a, c)(row)
        ensures a.covered == |plan.predicates| && Found(a, c)(row) ==> AllHold(an.table.schema, plan.predicates, row)
      {
        FoundIfQualified(tables, indexes, an.table, plan.predicates, a, row);
      }
      if !a.empty {
        ReachFacts(tables, indexes, plan, an, c, scan);
        AllowedIsFound(e, a, c);
      }
    }
    if e.emptyResult {
      NothingShown(an.table.schema, plan, TableScan, 0, false, [], scan);
    }
  }

  lemma AllowedIsFound(e: SelectExplanation, a: IndexAccess, c: nat)
    requires Shaped(a) && !a.empty && e.accessPath == a.path
    requires e.lookupKey == a.key && e.lowerBound == a.lower && e.upperBound == a.upper
    ensures forall row :: Allowed(e, c, row) <==> Found(a, c)(row)
  {
    hide KeyAt;
  }
}
