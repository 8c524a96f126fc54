/** The choice of an index for a plan, and the keys to which it narrows the search. */
module IndexChoices {
  import opened Wrappers
  import opened Sequences
  import opened BPlusNodes
  import opened BPlusSearch
  import opened Tuples
  import opened Catalogs
  import opened SqlPlans

  datatype AccessPath = TableScan | IndexLookup | IndexRange

  /** The keys that a plan needs from an index, and the number of its predicates that these keys decide. */
  datatype IndexAccess =
    IndexAccess(path: AccessPath, name: Text, column: Text, key: Option<int64>, lower: Option<int64>, upper: Option<int64>,
                covered: nat, selected: nat, empty: bool)

  // ---------------------------------------------------------------- predicates on indexed columns

  /** The index whose keys decide a predicate, if there is one. */
  type IndexMatcher = SqlPredicate -> Option<IndexDefinition>

  function IndexOn(table: Text, column: Text): IndexDefinition -> bool {
    (i: IndexDefinition) => i.table == table && i.column == column
  }

  function MatchingIndex(indexes: seq<IndexDefinition>, table: TableDefinition,
                         p: SqlPredicate): Option<IndexDefinition> {
    if p.kind != Comparison || !p.literal.IntValue? || !ColumnKnown(table.schema, p.column) then None else
    var column := table.schema[ColumnAt(table.schema, p.column)];
    if column.dataType != Integer then None else
    var i := FindFirst(IndexOn(table.name, column.name), indexes);
    if i == None then None else Some(indexes[i.value])
  }

  /**
     A predicate is decided by an index if it compares an integer column with an integer: by the first index
     of the catalog that is on this column of this table.
     */
  lemma MatchingMeans(indexes: seq<IndexDefinition>, table: TableDefinition, p: SqlPredicate, k: nat)
    requires DistinctColumns(table.schema) && k < |indexes|
    ensures MatchingIndex(indexes, table, p) == Some(indexes[k]) <== FirstOnColumn(indexes, table, p, k)
    ensures MatchingIndex(indexes, table, p) == None <==> forall i: nat :: i < |indexes| ==> !FirstOnColumn(indexes, table, p, i)
  {
    hide Folded, DistinctColumns;
    OneColumn(table.schema, p.column);
    forall i: nat | i < |indexes| && FirstOnColumn(indexes, table, p, i)
      ensures MatchingIndex(indexes, table, p) == Some(indexes[i])
    {
      var c :| 0 <= c < |table.schema| && SameName(table.schema[c].name, p.column) && OnColumn(indexes[i], table, c)
               && forall j :: 0 <= j < i ==> !OnColumn(indexes[j], table, c);
      assert IndexOn(table.name, table.schema[c].name)(indexes[i]);
      var f := FindFirst(IndexOn(table.name, table.schema[c].name), indexes).value;
      assert OnColumn(indexes[f], table, c);
    }
    if MatchingIndex(indexes, table, p).Some? {
      var c := ColumnAt(table.schema, p.column);
      var f := FindFirst(IndexOn(table.name, table.schema[c].name), indexes).value;
      assert OnColumn(indexes[f], table, c);
      forall j | 0 <= j < f
        ensures !OnColumn(indexes[j], table, c)
      {
        assert !IndexOn(table.name, table.schema[c].name)(indexes[j]);
      }
      assert FirstOnColumn(indexes, table, p, f);
    }
  }

  predicate OnColumn(index: IndexDefinition, table: TableDefinition, c: nat)
    requires c < |table.schema|
  {
    index.table == table.name && index.column == table.schema[c].name
  }

  predicate FirstOnColumn(indexes: seq<IndexDefinition>, table: TableDefinition, p: SqlPredicate, k: nat)
    requires k < |indexes|
  {
    && p.kind == Comparison && p.literal.IntValue?
    && exists c :: && 0 <= c < |table.schema| && SameName(table.schema[c].name, p.column)
                   && table.schema[c].dataType == Integer && OnColumn(indexes[k], table, c)
                   && forall j :: 0 <= j < k ==> !OnColumn(indexes[j], table, c)
  }

  function Matcher(indexes: seq<IndexDefinition>, table: TableDefinition): IndexMatcher {
    (p: SqlPredicate) => MatchingIndex(indexes, table, p)
  }

  ghost predicate Integral(m: IndexMatcher) {
    forall p: SqlPredicate :: m(p).Some? ==> p.literal.IntValue?
  }

  /** The predicate is decided by the index of this name. */
  predicate Uses(m: IndexMatcher, name: Text, p: SqlPredicate) {
    var i := m(p);
    i.Some? && i.value.name == name
  }

  predicate IsRange(p: SqlPredicate) {
    p.comparison != Equal && p.comparison != NotEqual
  }

  function UsesIndex(m: IndexMatcher, name: Text): SqlPredicate -> bool {
    (p: SqlPredicate) => Uses(m, name, p)
  }

  function RangeUsesIndex(m: IndexMatcher, name: Text): SqlPredicate -> bool {
    (p: SqlPredicate) => IsRange(p) && Uses(m, name, p)
  }

  /** The predicates that an access takes into account: bounds for a range, everything for a lookup. */
  function Mine(m: IndexMatcher, ps: seq<SqlPredicate>, path: AccessPath, name: Text): seq<SqlPredicate> {
    Filter(if path == IndexLookup then UsesIndex(m, name) else RangeUsesIndex(m, name), ps)
  }

  predicate Meets(v: int64, p: SqlPredicate) {
    Compare(Integer, IntValue(v), p.literal, p.comparison)
  }

  predicate MeetsAll(v: int64, ps: seq<SqlPredicate>) {
    forall i :: 0 <= i < |ps| ==> Meets(v, ps[i])
  }

  /** The access finds the rows with this key. */
  predicate Admits(a: IndexAccess, v: int64) {
    !a.empty && (a.path == IndexLookup ==> a.key == Some(v)) && InBounds(a.lower, a.upper, v)
  }

  /** The access was made from a predicate on its index. */
  ghost predicate Named(m: IndexMatcher, ps: seq<SqlPredicate>, a: IndexAccess) {
    exists p :: p in ps && m(p).Some? && m(p).value.name == a.name && m(p).value.column == a.column
                && if a.path == IndexLookup then p.comparison == Equal else IsRange(p)
  }

  predicate Shaped(a: IndexAccess) {
    match a.path
    case TableScan => false
    case IndexLookup => a.key.Some? && a.lower == None && a.upper == None
    case IndexRange =>
      && a.key == None && (a.lower.Some? || a.upper.Some?)
      && (!a.empty && a.lower.Some? && a.upper.Some? ==> a.lower.value <= a.upper.value)
  }

  /**
     The access finds exactly the keys that meet all its predicates; it is marked empty just when no
     64-bit key does.
     */
  ghost predicate Exact(m: IndexMatcher, ps: seq<SqlPredicate>, a: IndexAccess) {
    && Named(m, ps, a) && Shaped(a)
    && a.covered == a.selected == |Mine(m, ps, a.path, a.name)|
    && Decides(a, Mine(m, ps, a.path, a.name))
  }

  ghost predicate Decides(a: IndexAccess, mine: seq<SqlPredicate>) {
    forall v: int64 :: Admits(a, v) <==> MeetsAll(v, mine)
  }

  /** A list of accesses for different indexes, one for each that a predicate of the right kind uses. */
  ghost predicate Candidates(m: IndexMatcher, ps: seq<SqlPredicate>, path: AccessPath, cs: seq<IndexAccess>) {
    && (forall k :: 0 <= k < |cs| ==> cs[k].path == path && Exact(m, ps, cs[k]))
    && OnePerIndex(cs) && Complete(m, ps, path, cs)
  }

  ghost predicate OnePerIndex(cs: seq<IndexAccess>) {
    forall j, k :: 0 <= j < k < |cs| ==> cs[j].name != cs[k].name
  }

  predicate Starts(path: AccessPath, p: SqlPredicate) {
    if path == IndexLookup then p.comparison == Equal else IsRange(p)
  }

  ghost predicate Complete(m: IndexMatcher, ps: seq<SqlPredicate>, path: AccessPath, cs: seq<IndexAccess>) {
    forall p :: p in ps && Starts(path, p) && m(p).Some? ==> Listed(cs, m(p).value.name)
  }

  ghost predicate Listed(cs: seq<IndexAccess>, name: Text) {
    exists k :: 0 <= k < |cs| && cs[k].name == name
  }

  function AccessOf(name: Text): IndexAccess -> bool {
    (a: IndexAccess) => a.name == name
  }

  // ---------------------------------------------------------------- steps of a filtered list

  lemma MineStep(m: IndexMatcher, ps: seq<SqlPredicate>, i: nat, path: AccessPath, name: Text)
    requires i < |ps|
    ensures Mine(m, ps[..i + 1], path, name) == Mine(m, ps[..i], path, name) +
      if (path != IndexLookup ==> IsRange(ps[i])) && Uses(m, name, ps[i]) then [ps[i]] else []
  {
    var test := if path == IndexLookup then UsesIndex(m, name) else RangeUsesIndex(m, name);
    assert ps[..i + 1] == ps[..i] + [ps[i]];
    FilterConcat(test, ps[..i], [ps[i]]);
    FilterCons(test, ps[i], []);
    assert [ps[i]] + [] == [ps[i]];
  }

  lemma MeetsMore(v: int64, ps: seq<SqlPredicate>, p: SqlPredicate)
    ensures MeetsAll(v, ps + [p]) <==> MeetsAll(v, ps) && Meets(v, p)
  {
    assert forall i :: 0 <= i < |ps| ==> (ps + [p])[i] == ps[i];
    assert (ps + [p])[|ps|] == p;
  }

  lemma NamedMore(m: IndexMatcher, ps: seq<SqlPredicate>, more: seq<SqlPredicate>, a: IndexAccess)
    requires Named(m, ps, a) && forall p :: p in ps ==> p in more
    ensures Named(m, more, a)
  {
  }

  lemma NothingYet(m: IndexMatcher, path: AccessPath, name: Text)
    ensures Mine(m, [], path, name) == [] && forall v: int64 :: MeetsAll(v, [])
  {
  }

  // ---------------------------------------------------------------- lookups

  /** The key of a predicate with an integer literal. */
  function KeyOf(p: SqlPredicate): int64 {
    if p.literal.IntValue? then p.literal.i else 0
  }

  /** The accesses that the equalities start, each index under the first key given for it. */
  function StartedOf(m: IndexMatcher, ps: seq<SqlPredicate>): seq<IndexAccess> {
    if ps == [] then [] else
    var front, p := StartedOf(m, ps[..|ps| - 1]), ps[|ps| - 1];
    if p.comparison != Equal || m(p) == None || FindFirst(AccessOf(m(p).value.name), front).Some? then front
    else front + [IndexAccess(IndexLookup, m(p).value.name, m(p).value.column, Some(KeyOf(p)), None, None, 0, 0, false)]
  }

  /** The access with all predicates on its index counted. */
  function Counted(m: IndexMatcher, ps: seq<SqlPredicate>, a: IndexAccess): IndexAccess {
    var mine := Mine(m, ps, IndexLookup, a.name);
    a.(selected := |mine|, covered := |mine|, empty := a.key.Some? && !MeetsAll(a.key.value, mine))
  }

  /** The lookups among which a plan chooses. */
  function LookupsOf(m: IndexMatcher, ps: seq<SqlPredicate>): seq<IndexAccess> {
    var started := StartedOf(m, ps);
    seq(|started|, k requires 0 <= k < |started| => Counted(m, ps, started[k]))
  }

  /** One access for each index with an equality predicate, under the first key given for it. */
  method StartLookups(m: IndexMatcher, ps: seq<SqlPredicate>) returns (lookups: seq<IndexAccess>)
    requires Integral(m)
    ensures lookups == StartedOf(m, ps)
    ensures OnePerIndex(lookups) && Complete(m, ps, IndexLookup, lookups)
    ensures forall k :: 0 <= k < |lookups| ==> Started(m, ps, lookups[k])
  {
    hide OnePerIndex, Complete, Started, Listed, StartedOf;
    lookups := [];
    NothingStarted(m, ps);
    for i := 0 to |ps|
      invariant lookups == StartedOf(m, ps[..i])
      invariant OnePerIndex(lookups) && Complete(m, ps[..i], IndexLookup, lookups)
      invariant forall k :: 0 <= k < |lookups| ==> Started(m, ps, lookups[k])
    {
      StartedStep(m, ps, i);
      if ps[i].comparison != Equal {
        continue;
      }
      var index := m(ps[i]);
      if index == None {
        continue;
      }
      var existing := FindFirst(AccessOf(index.value.name), lookups);
      if existing == None {
        var lookup := IndexAccess(IndexLookup, index.value.name, index.value.column, Some(ps[i].literal.i), None, None, 0, 0, false);
        StartedMore(m, ps, i, lookups, lookup);
        lookups := lookups + [lookup];
      }
    }
    assert ps[..|ps|] == ps;
  }

  lemma NothingStarted(m: IndexMatcher, ps: seq<SqlPredicate>)
    ensures StartedOf(m, ps[..0]) == [] && OnePerIndex([]) && Complete(m, ps[..0], IndexLookup, [])
  {
  }

  lemma StartedStep(m: IndexMatcher, ps: seq<SqlPredicate>, i: nat)
    requires i < |ps| && Integral(m)
    ensures var front, p := StartedOf(m, ps[..i]), ps[i];
      && StartedOf(m, ps[..i + 1]) ==
         (if p.comparison != Equal || m(p) == None || FindFirst(AccessOf(m(p).value.name), front).Some? then front
          else front + [IndexAccess(IndexLookup, m(p).value.name, m(p).value.column, Some(p.literal.i), None, None, 0, 0, false)])
      && (p.comparison != Equal || m(p) == None || FindFirst(AccessOf(m(p).value.name), front).Some? ==>
            (Complete(m, ps[..i], IndexLookup, front) ==> Complete(m, ps[..i + 1], IndexLookup, front)))
  {
    var more := ps[..i + 1];
    assert more == ps[..i] + [ps[i]] && more[..i] == ps[..i];
    var front := StartedOf(m, ps[..i]);
    hide StartedOf;
    if m(ps[i]).Some? {
      var k := FindFirst(AccessOf(m(ps[i]).value.name), front);
      assert k.Some? ==> Listed(front, m(ps[i]).value.name);
    }
  }

  lemma StartedMore(m: IndexMatcher, ps: seq<SqlPredicate>, i: nat, lookups: seq<IndexAccess>, lookup: IndexAccess)
    requires i < |ps| && ps[i].comparison == Equal && m(ps[i]).Some? && Integral(m)
    requires FindFirst(AccessOf(m(ps[i]).value.name), lookups) == None
    requires lookup == IndexAccess(IndexLookup, m(ps[i]).value.name, m(ps[i]).value.column, Some(ps[i].literal.i), None, None,
                                   0, 0, false)
    requires OnePerIndex(lookups) && Complete(m, ps[..i], IndexLookup, lookups)
    ensures OnePerIndex(lookups + [lookup]) && Complete(m, ps[..i + 1], IndexLookup, lookups + [lookup])
    ensures Started(m, ps, lookup)
  {
    assert ps[..i + 1] == ps[..i] + [ps[i]];
    forall k | 0 <= k < |lookups|
      ensures lookups[k].name != lookup.name
    {
      assert !AccessOf(lookup.name)(lookups[k]);
    }
    ListedMore(lookups, lookup);
    hide Listed;
    assert ps[i] in ps;
  }

  lemma ListedMore(cs: seq<IndexAccess>, a: IndexAccess)
    ensures Listed(cs + [a], a.name) && forall name :: Listed(cs, name) ==> Listed(cs + [a], name)
  {
    assert (cs + [a])[|cs|] == a;
    forall name | Listed(cs, name)
      ensures Listed(cs + [a], name)
    {
      var k :| 0 <= k < |cs| && cs[k].name == name;
      assert (cs + [a])[k].name == name;
    }
  }

  /** A lookup before its predicates are counted. */
  ghost predicate Started(m: IndexMatcher, ps: seq<SqlPredicate>, a: IndexAccess) {
    && a.path == IndexLookup && a.key.Some? && a.lower == None && a.upper == None
    && a.covered == 0 && a.selected == 0 && !a.empty && Named(m, ps, a)
    && exists p :: p in ps && p.comparison == Equal && Uses(m, a.name, p) && p.literal == IntValue(a.key.value)
  }

  /** Counts the predicates on the index, and finds the lookup empty when one of them excludes its key. */
  method CountLookup(m: IndexMatcher, ps: seq<SqlPredicate>, a: IndexAccess) returns (r: IndexAccess)
    requires Integral(m) && Started(m, ps, a)
    ensures r == Counted(m, ps, a)
    ensures Exact(m, ps, r) && r.name == a.name && r.path == IndexLookup
  {
    hide Mine, Meets;
    r := a;
    assert ps[..0] == [];
    NothingYet(m, IndexLookup, a.name);
    for i := 0 to |ps|
      invariant r == a.(selected := |Mine(m, ps[..i], IndexLookup, a.name)|, covered := |Mine(m, ps[..i], IndexLookup, a.name)|,
                        empty := !MeetsAll(a.key.value, Mine(m, ps[..i], IndexLookup, a.name)))
    {
      MineStep(m, ps, i, IndexLookup, a.name);
      MeetsMore(a.key.value, Mine(m, ps[..i], IndexLookup, a.name), ps[i]);
      assert Mine(m, ps[..i], IndexLookup, a.name) + [] == Mine(m, ps[..i], IndexLookup, a.name);
      var index := m(ps[i]);
      if index == None || index.value.name != r.name {
        continue;
      }
      r := r.(selected := r.selected + 1, covered := r.covered + 1);
      if !Meets(r.key.value, ps[i]) {
        r := r.(empty := true);
      }
    }
    assert ps[..|ps|] == ps;
    LookupDecides(m, ps, a, r);
  }

  /** Only the key of the equality can meet all predicates. */
  lemma LookupDecides(m: IndexMatcher, ps: seq<SqlPredicate>, a: IndexAccess, r: IndexAccess)
    requires Started(m, ps, a)
    requires var mine := Mine(m, ps, IndexLookup, a.name);
      r == a.(selected := |mine|, covered := |mine|, empty := !MeetsAll(a.key.value, mine))
    ensures Exact(m, ps, r)
  {
    var mine := Mine(m, ps, IndexLookup, a.name);
    var p :| p in ps && p.comparison == Equal && Uses(m, a.name, p) && p.literal == IntValue(a.key.value);
    FilterMember(UsesIndex(m, a.name), ps);
    assert p in mine;
    var j :| 0 <= j < |mine| && mine[j] == p;
    forall v: int64
      ensures Admits(r, v) <==> MeetsAll(v, mine)
    {
      assert MeetsAll(v, mine) ==> Meets(v, mine[j]);
    }
    assert Named(m, ps, r) by {
      hide Mine;
      var q :| q in ps && m(q).Some? && m(q).value.name == a.name && m(q).value.column == a.column && q.comparison == Equal;
      assert m(q).value.name == r.name;
    }
  }

  method CountLookups(m: IndexMatcher, ps: seq<SqlPredicate>) returns (lookups: seq<IndexAccess>)
    requires Integral(m)
    ensures lookups == LookupsOf(m, ps) && Candidates(m, ps, IndexLookup, lookups)
  {
    hide Exact, Started, StartedOf, Counted;
    var started := StartLookups(m, ps);
    lookups := [];
    for k := 0 to |started|
      invariant |lookups| == k
      invariant forall j :: 0 <= j < k ==>
        lookups[j] == Counted(m, ps, started[j]) &&
        lookups[j].path == IndexLookup && lookups[j].name == started[j].name && Exact(m, ps, lookups[j])
    {
      var counted := CountLookup(m, ps, started[k]);
      lookups := lookups + [counted];
    }
    forall name | Listed(started, name)
      ensures Listed(lookups, name)
    {
      var k :| 0 <= k < |started| && started[k].name == name;
      assert lookups[k].name == name;
    }
  }

  // ---------------------------------------------------------------- ranges

  predicate HasLower(p: SqlPredicate) {
    p.comparison == Greater || p.comparison == GreaterEqual
  }

  predicate IsStrict(p: SqlPredicate) {
    p.comparison == Greater || p.comparison == Less
  }

  /** Nothing is above the greatest key or below the least one. */
  predicate Impossible(p: SqlPredicate) {
    || (p.comparison == Greater && KeyOf(p) == 0x7FFF_FFFF_FFFF_FFFF)
    || (p.comparison == Less && KeyOf(p) == -0x8000_0000_0000_0000)
  }

  /** The inclusive bound that a comparison sets; it stays within 64 bits. */
  function Bound(p: SqlPredicate): (b: int64)
    ensures p.literal.IntValue? && IsRange(p) ==>
      forall v: int64 :: Meets(v, p) <==> !Impossible(p) && if HasLower(p) then b <= v else v <= b
  {
    if Impossible(p) || !IsStrict(p) then KeyOf(p)
    else if p.comparison == Greater then KeyOf(p) + 1 else KeyOf(p) - 1
  }

  /** The first predicate on an index sets one bound. */
  function Opening(index: IndexDefinition, p: SqlPredicate): IndexAccess {
    IndexAccess(IndexRange, index.name, index.column, None, if HasLower(p) then Some(Bound(p)) else None,
                if HasLower(p) then None else Some(Bound(p)), 1, 1, Impossible(p))
  }

  lemma OpeningDecides(index: IndexDefinition, p: SqlPredicate)
    requires p.literal.IntValue? && IsRange(p)
    ensures var r := Opening(index, p);
      Shaped(r) && r.covered == r.selected == 1 && Decides(r, [p])
  {
    var r := Opening(index, p);
    forall v: int64
      ensures Admits(r, v) <==> MeetsAll(v, [p])
    {
      MeetsMore(v, [], p);
      assert [] + [p] == [p];
    }
  }

  /** A further predicate on the same index: the stricter bound counts, and crossed bounds leave no key. */
  function Tightened(range: IndexAccess, p: SqlPredicate): IndexAccess {
    var r := range.(selected := range.selected + 1, covered := range.selected + 1);
    if range.empty then r
    else if Impossible(p) then r.(empty := true)
    else
      var lower := if HasLower(p) && (range.lower == None || Bound(p) > range.lower.value) then Some(Bound(p)) else range.lower;
      var upper := if !HasLower(p) && (range.upper == None || Bound(p) < range.upper.value) then Some(Bound(p)) else range.upper;
      r.(lower := lower, upper := upper, empty := lower.Some? && upper.Some? && lower.value > upper.value)
  }

  /** The ranges among which a plan chooses. */
  function RangesOf(m: IndexMatcher, ps: seq<SqlPredicate>): seq<IndexAccess> {
    if ps == [] then [] else
    var front, p := RangesOf(m, ps[..|ps| - 1]), ps[|ps| - 1];
    if !IsRange(p) || m(p) == None then front else
    var k := FindFirst(AccessOf(m(p).value.name), front);
    if k == None then front + [Opening(m(p).value, p)] else front[k.value := Tightened(front[k.value], p)]
  }

  /** A further predicate on the same index tightens a bound, or leaves no key at all. */
  method Tighten(range: IndexAccess, p: SqlPredicate, ghost mine: seq<SqlPredicate>) returns (r: IndexAccess)
    requires p.literal.IntValue? && IsRange(p)
    requires range.path == IndexRange && Shaped(range) && range.covered == range.selected == |mine| && Decides(range, mine)
    ensures r == Tightened(range, p)
    ensures r.path == IndexRange && r.name == range.name && r.column == range.column && Shaped(r)
    ensures r.covered == r.selected == |mine| + 1 && Decides(r, mine + [p])
  {
    hide MeetsAll, Meets;
    forall v: int64
      ensures MeetsAll(v, mine + [p]) <==> Admits(range, v) && Meets(v, p)
    {
      MeetsMore(v, mine, p);
      assert Admits(range, v) <==> MeetsAll(v, mine);
    }
    r := range.(selected := range.selected + 1);
    if range.empty {
      r := r.(covered := r.selected);
      return;
    }
    var bound := Bound(p);
    if Impossible(p) {
      r := r.(empty := true, covered := r.selected);
      return;
    }
    var lower, upper := range.lower, range.upper;
    if HasLower(p) && (lower == None || bound > lower.value) {
      lower := Some(bound);
    }
    if !HasLower(p) && (upper == None || bound < upper.value) {
      upper := Some(bound);
    }
    r := r.(lower := lower, upper := upper);
    if lower.Some? && upper.Some? && lower.value > upper.value {
      r := r.(empty := true, covered := r.selected);
      return;
    }
    r := r.(covered := r.covered + 1);
  }

  /** Merges all comparisons on each index into one pair of bounds. */
  method MergeRanges(m: IndexMatcher, ps: seq<SqlPredicate>) returns (ranges: seq<IndexAccess>)
    requires Integral(m)
    ensures ranges == RangesOf(m, ps) && Candidates(m, ps, IndexRange, ranges)
  {
    hide Candidates, Exact, Decides, Mine, Named, Shaped, Opening, Tightened;
    ranges := [];
    assert ps[..0] == [];
    NoCandidates(m);
    for i := 0 to |ps|
      invariant ranges == RangesOf(m, ps[..i]) && Candidates(m, ps[..i], IndexRange, ranges)
    {
      ghost var done := ps[..i];
      var p := ps[i];
      assert ps[..i + 1] == done + [p] && ps[..i + 1][..i] == done;
      if p.comparison == Equal || p.comparison == NotEqual || m(p) == None {
        CandidatesSkip(m, done, p, ranges);
        continue;
      }
      var index := m(p).value;
      var k := FindFirst(AccessOf(index.name), ranges);
      if k == None {
        var range := Opening(index, p);
        OpeningNamed(index, p);
        OpeningDecides(index, p);
        CandidatesStart(m, done, p, ranges, range);
        ranges := ranges + [range];
        continue;
      }
      assert AccessOf(index.name)(ranges[k.value]);
      CandidateAt(m, done, ranges, k.value);
      var range := Tighten(ranges[k.value], p, Mine(m, done, IndexRange, index.name));
      CandidatesTighten(m, done, p, ranges, k.value, range);
      ranges := ranges[k.value := range];
    }
    assert ps[..|ps|] == ps;
  }

  lemma OpeningNamed(index: IndexDefinition, p: SqlPredicate)
    ensures var r := Opening(index, p);
      r.path == IndexRange && r.name == index.name && r.column == index.column
  {
  }

  lemma NoCandidates(m: IndexMatcher)
    ensures Candidates(m, [], IndexRange, [])
  {
  }

  lemma CandidateAt(m: IndexMatcher, ps: seq<SqlPredicate>, cs: seq<IndexAccess>, k: nat)
    requires Candidates(m, ps, IndexRange, cs) && k < |cs|
    ensures cs[k].path == IndexRange && Exact(m, ps, cs[k])
    ensures Named(m, ps, cs[k]) && Shaped(cs[k]) && cs[k].covered == cs[k].selected == |Mine(m, ps, IndexRange, cs[k].name)|
    ensures Decides(cs[k], Mine(m, ps, IndexRange, cs[k].name))
  {
  }

  lemma MineSnoc(m: IndexMatcher, ps: seq<SqlPredicate>, p: SqlPredicate, name: Text)
    ensures Mine(m, ps + [p], IndexRange, name) == Mine(m, ps, IndexRange, name) +
      if IsRange(p) && Uses(m, name, p) then [p] else []
  {
    var all := ps + [p];
    MineStep(m, all, |ps|, IndexRange, name);
    assert all[..|ps| + 1] == all && all[..|ps|] == ps;
  }

  /** A predicate on something else changes nothing for an access. */
  lemma ExactSkip(m: IndexMatcher, ps: seq<SqlPredicate>, p: SqlPredicate, a: IndexAccess)
    requires a.path == IndexRange && Exact(m, ps, a) && !(IsRange(p) && Uses(m, a.name, p))
    ensures Exact(m, ps + [p], a)
  {
    hide Mine, Decides, Shaped, Named;
    MineSnoc(m, ps, p, a.name);
    assert Mine(m, ps, IndexRange, a.name) + [] == Mine(m, ps, IndexRange, a.name);
    NamedMore(m, ps, ps + [p], a);
  }

  lemma CandidatesSkip(m: IndexMatcher, ps: seq<SqlPredicate>, p: SqlPredicate, cs: seq<IndexAccess>)
    requires Candidates(m, ps, IndexRange, cs) && (!IsRange(p) || m(p) == None)
    ensures Candidates(m, ps + [p], IndexRange, cs)
  {
    hide Exact;
    forall k | 0 <= k < |cs|
      ensures Exact(m, ps + [p], cs[k])
    {
      ExactSkip(m, ps, p, cs[k]);
    }
  }

  lemma CandidatesStart(m: IndexMatcher, ps: seq<SqlPredicate>, p: SqlPredicate, cs: seq<IndexAccess>, a: IndexAccess)
    requires Candidates(m, ps, IndexRange, cs) && IsRange(p) && m(p).Some? && m(p).value.name == a.name
    requires m(p).value.column == a.column && FindFirst(AccessOf(a.name), cs) == None
    requires a.path == IndexRange && Shaped(a) && a.covered == a.selected == 1 && Decides(a, [p])
    ensures Candidates(m, ps + [p], IndexRange, cs + [a])
  {
    hide Exact, Decides, Shaped, Mine, RangeUsesIndex;
    forall k | 0 <= k < |cs|
      ensures Exact(m, ps + [p], cs[k]) && cs[k].name != a.name
    {
      assert !AccessOf(a.name)(cs[k]);
      ExactSkip(m, ps, p, cs[k]);
    }
    StartIsExact(m, ps, p, cs, a);
    ListedMore(cs, a);
  }

  lemma StartIsExact(m: IndexMatcher, ps: seq<SqlPredicate>, p: SqlPredicate, cs: seq<IndexAccess>, a: IndexAccess)
    requires Complete(m, ps, IndexRange, cs) && IsRange(p) && m(p).Some? && m(p).value.name == a.name
    requires m(p).value.column == a.column && forall k :: 0 <= k < |cs| ==> cs[k].name != a.name
    requires a.path == IndexRange && Shaped(a) && a.covered == a.selected == 1 && Decides(a, [p])
    ensures Exact(m, ps + [p], a)
  {
    hide Decides, Shaped, Mine;
    forall q | q in ps
      ensures !RangeUsesIndex(m, a.name)(q)
    {
      assert IsRange(q) && Uses(m, a.name, q) ==> Listed(cs, a.name);
    }
    NothingMine(m, ps, a.name);
    MineSnoc(m, ps, p, a.name);
    assert [] + [p] == [p];
    assert p in ps + [p] && Named(m, ps + [p], a);
    ExactFrom(m, ps + [p], a);
  }

  lemma NothingMine(m: IndexMatcher, ps: seq<SqlPredicate>, name: Text)
    requires forall q :: q in ps ==> !RangeUsesIndex(m, name)(q)
    ensures Mine(m, ps, IndexRange, name) == []
  {
    FilterNone(RangeUsesIndex(m, name), ps);
  }

  lemma ExactFrom(m: IndexMatcher, ps: seq<SqlPredicate>, a: IndexAccess)
    requires a.path == IndexRange && Named(m, ps, a) && Shaped(a)
    requires a.covered == a.selected == |Mine(m, ps, IndexRange, a.name)| && Decides(a, Mine(m, ps, IndexRange, a.name))
    ensures Exact(m, ps, a)
  {
  }

  lemma CandidatesTighten(m: IndexMatcher, ps: seq<SqlPredicate>, p: SqlPredicate, cs: seq<IndexAccess>, i: nat,
                          a: IndexAccess)
    requires Candidates(m, ps, IndexRange, cs) && i < |cs| && IsRange(p) && m(p).Some? && m(p).value.name == cs[i].name == a.name
    requires a.path == IndexRange && a.column == cs[i].column && Shaped(a)
    requires var mine := Mine(m, ps, IndexRange, a.name);
      a.covered == a.selected == |mine| + 1 && Decides(a, mine + [p])
    ensures Candidates(m, ps + [p], IndexRange, cs[i := a])
  {
    hide Exact, Decides, Shaped, Mine, Named;
    forall k | 0 <= k < |cs| && k != i
      ensures Exact(m, ps + [p], cs[k])
    {
      assert cs[k].name != cs[i].name;
      ExactSkip(m, ps, p, cs[k]);
    }
    MineSnoc(m, ps, p, a.name);
    CandidateAt(m, ps, cs, i);
    NamedAs(m, ps, cs[i], a);
    NamedMore(m, ps, ps + [p], a);
    ExactFrom(m, ps + [p], a);
    var next := cs[i := a];
    forall name | Listed(cs, name)
      ensures Listed(next, name)
    {
      var k :| 0 <= k < |cs| && cs[k].name == name;
      assert next[k].name == name;
    }
    assert Listed(cs, cs[i].name);
  }

  lemma NamedAs(m: IndexMatcher, ps: seq<SqlPredicate>, a: IndexAccess, b: IndexAccess)
    requires Named(m, ps, a) && a.path == b.path && a.name == b.name && a.column == b.column
    ensures Named(m, ps, b)
  {
  }

  // ---------------------------------------------------------------- the best candidate

  type AccessLess = (IndexAccess, IndexAccess) -> bool

  /** r is the first element that no other one exceeds. */
  ghost predicate FirstGreatest(less: AccessLess, s: seq<IndexAccess>, r: IndexAccess) {
    exists i :: 0 <= i < |s| && s[i] == r && (forall k :: 0 <= k < |s| ==> !less(r, s[k]))
                && (forall k :: 0 <= k < i ==> less(s[k], r))
  }

  /** The element that stays when each one is replaced by the next that exceeds it. */
  function BestOf(less: AccessLess, s: seq<IndexAccess>): IndexAccess
    requires s != []
  {
    if |s| == 1 then s[0] else
    var best := BestOf(less, s[..|s| - 1]);
    if less(best, s[|s| - 1]) then s[|s| - 1] else best
  }

  /** What exceeds the greatest so far exceeds all before it. */
  lemma NewGreatest(less: AccessLess, s: seq<IndexAccess>, at: nat, i: nat)
    requires StrictWeakOn(less, s) && at < i < |s| && less(s[at], s[i])
    requires forall k :: 0 <= k < i ==> !less(s[at], s[k])
    ensures forall k :: 0 <= k < i ==> less(s[k], s[i])
    ensures forall k :: 0 <= k <= i ==> !less(s[i], s[k])
  {
    assert s[at] in s && s[i] in s;
    forall k | 0 <= k < i
      ensures less(s[k], s[i]) && !less(s[i], s[k])
    {
      assert s[k] in s;
    }
  }

  lemma SelfNotLess(less: AccessLess, s: seq<IndexAccess>)
    requires StrictWeakOn(less, s)
    ensures forall k :: 0 <= k < |s| ==> !less(s[k], s[k]) && s[k] in s
  {
  }

  /** std::max_element. */
  method MaxElement(less: AccessLess, s: seq<IndexAccess>) returns (r: IndexAccess)
    requires s != [] && StrictWeakOn(less, s)
    ensures r == BestOf(less, s)
    ensures r in s && FirstGreatest(less, s, r)
  {
    hide StrictWeakOn;
    r := s[0];
    ghost var at := 0;
    SelfNotLess(less, s);
    assert s[..1] == [s[0]];
    for i := 1 to |s|
      invariant r == BestOf(less, s[..i])
      invariant at < i && s[at] == r && (forall k :: 0 <= k < i ==> !less(r, s[k]))
      invariant forall k :: 0 <= k < at ==> less(s[k], r)
    {
      assert s[..i + 1][..i] == s[..i] && s[..i + 1][i] == s[i];
      if less(r, s[i]) {
        NewGreatest(less, s, at, i);
        r, at := s[i], i;
      }
    }
    assert s[..|s|] == s;
  }

  predicate ReusesOrder(order: Option<SqlOrder>, a: IndexAccess) {
    order.Some? && SameName(a.column, order.value.column)
  }

  /** A known empty answer is best, then the greater number of predicates, then a column that gives the order. */
  predicate WorseLookup(order: Option<SqlOrder>, a: IndexAccess, b: IndexAccess) {
    if a.empty != b.empty then !a.empty
    else if a.selected != b.selected then a.selected < b.selected
    else !ReusesOrder(order, a) && ReusesOrder(order, b)
  }

  function BoundCount(a: IndexAccess): nat {
    (if a.lower.Some? then 1 else 0) + if a.upper.Some? then 1 else 0
  }

  /** Among ranges, two bounds are better than one before predicates are counted. */
  predicate WorseRange(order: Option<SqlOrder>, a: IndexAccess, b: IndexAccess) {
    if a.empty != b.empty then !a.empty
    else if BoundCount(a) != BoundCount(b) then BoundCount(a) < BoundCount(b)
    else if a.selected != b.selected then a.selected < b.selected
    else !ReusesOrder(order, a) && ReusesOrder(order, b)
  }

  function Worse(path: AccessPath, order: Option<SqlOrder>): AccessLess {
    if path == IndexLookup then (a: IndexAccess, b: IndexAccess) => WorseLookup(order, a, b)
    else (a: IndexAccess, b: IndexAccess) => WorseRange(order, a, b)
  }

  /** Some predicate of the list starts an access of this kind. */
  ghost predicate AnyStarts(m: IndexMatcher, ps: seq<SqlPredicate>, path: AccessPath) {
    exists p :: p in ps && Starts(path, p) && m(p).Some?
  }

  lemma StartsSome(m: IndexMatcher, ps: seq<SqlPredicate>, path: AccessPath, cs: seq<IndexAccess>)
    requires path != TableScan && Candidates(m, ps, path, cs)
    ensures cs != [] <==> AnyStarts(m, ps, path)
  {
    if cs != [] {
      assert Named(m, ps, cs[0]);
    }
  }

  /** The access with which a plan is run: the best lookup, or the best range if there is no lookup. */
  function ChosenAccess(indexes: seq<IndexDefinition>, table: TableDefinition, ps: seq<SqlPredicate>, order: Option<SqlOrder>)
    : Option<IndexAccess>
  {
    var m := Matcher(indexes, table);
    var lookups, ranges := LookupsOf(m, ps), RangesOf(m, ps);
    if lookups != [] then Some(BestOf(Worse(IndexLookup, order), lookups))
    else if ranges != [] then Some(BestOf(Worse(IndexRange, order), ranges))
    else None
  }

  /** The candidates for a path. */
  function CandidatesOf(m: IndexMatcher, ps: seq<SqlPredicate>, path: AccessPath): seq<IndexAccess> {
    if path == IndexLookup then LookupsOf(m, ps) else RangesOf(m, ps)
  }

  /**
     Chooses the access with which a plan is run: a lookup if an index decides an equality, otherwise a
     range if an index decides a comparison, and none otherwise. It is exact, and the first best of all.
     */
  method ChooseIndex(indexes: seq<IndexDefinition>, table: TableDefinition, ps: seq<SqlPredicate>, order: Option<SqlOrder>)
    returns (r: Option<IndexAccess>)
    ensures r == ChosenAccess(indexes, table, ps, order)
    ensures var m := Matcher(indexes, table);
      && (r.Some? <==> AnyStarts(m, ps, IndexLookup) || AnyStarts(m, ps, IndexRange))
      && (r.Some? ==>
            && r.value.path == (if AnyStarts(m, ps, IndexLookup) then IndexLookup else IndexRange)
            && Exact(m, ps, r.value)
            && Candidates(m, ps, r.value.path, CandidatesOf(m, ps, r.value.path))
            && FirstGreatest(Worse(r.value.path, order), CandidatesOf(m, ps, r.value.path), r.value)
            && Preferred(order, CandidatesOf(m, ps, r.value.path), r.value)
            && exists at :: InUseOrder(m, ps, r.value.path, CandidatesOf(m, ps, r.value.path), at))
  {
    hide Exact, MatchingIndex, FirstGreatest, SameName, AnyStarts, LookupsOf, RangesOf, BestOf, Preferred, InUseOrder;
    var m := Matcher(indexes, table);
    assert Integral(m) by { Integrality(indexes, table); }
    var lookups := CountLookups(m, ps);
    StartsSome(m, ps, IndexLookup, lookups);
    if lookups != [] {
      var best := MaxElement(Worse(IndexLookup, order), lookups);
      BestIsPreferred(m, ps, IndexLookup, order, best);
      return Some(best);
    }
    var ranges := MergeRanges(m, ps);
    StartsSome(m, ps, IndexRange, ranges);
    if ranges == [] {
      return None;
    }
    var best := MaxElement(Worse(IndexRange, order), ranges);
    BestIsPreferred(m, ps, IndexRange, order, best);
    r := Some(best);
  }

  lemma BestIsPreferred(m: IndexMatcher, ps: seq<SqlPredicate>, path: AccessPath, order: Option<SqlOrder>, r: IndexAccess)
    requires Integral(m) && path != TableScan && Candidates(m, ps, path, CandidatesOf(m, ps, path))
    requires FirstGreatest(Worse(path, order), CandidatesOf(m, ps, path), r)
    ensures Preferred(order, CandidatesOf(m, ps, path), r)
    ensures exists at :: InUseOrder(m, ps, path, CandidatesOf(m, ps, path), at)
  {
    hide FirstGreatest, CandidatesOf, Preferred, InUseOrder, OnePerIndex, Complete, Shaped, Decides, Named, Mine;
    ChosenIsPreferred(order, path, CandidatesOf(m, ps, path), r);
    var at := CandidatesInOrder(m, ps, path);
  }

  lemma Integrality(indexes: seq<IndexDefinition>, table: TableDefinition)
    ensures Integral(Matcher(indexes, table))
  {
  }

  /**
     What makes the chosen candidate r the best. A known empty answer comes first; then, among ranges, two
     bounds; then more predicates; then the column of ORDER BY.
     */
  lemma ChosenIsBest(order: Option<SqlOrder>, path: AccessPath, cs: seq<IndexAccess>, r: IndexAccess, a: IndexAccess)
    requires FirstGreatest(Worse(path, order), cs, r) && a in cs
    requires forall k :: 0 <= k < |cs| ==> cs[k].path == path && Shaped(cs[k])
    ensures a.empty ==> r.empty
    ensures a.empty == r.empty && path == IndexRange && a.lower.Some? && a.upper.Some? ==> r.lower.Some? && r.upper.Some?
    ensures a.empty == r.empty && (a.lower.Some? && a.upper.Some? <==> r.lower.Some? && r.upper.Some?) ==>
      && a.selected <= r.selected
      && (a.selected == r.selected && order.Some? && SameName(a.column, order.value.column) ==>
            SameName(r.column, order.value.column))
  {
    hide SameName;
  }

  predicate BothBounds(a: IndexAccess) {
    a.lower.Some? && a.upper.Some?
  }

  predicate NotBetter(order: Option<SqlOrder>, a: IndexAccess, r: IndexAccess) {
    && (a.empty ==> r.empty)
    && (a.empty == r.empty ==>
          && (r.path == IndexRange && BothBounds(a) ==> BothBounds(r))
          && (BothBounds(a) == BothBounds(r) ==> a.selected <= r.selected)
          && (BothBounds(a) == BothBounds(r) && a.selected == r.selected && ReusesOrder(order, a) ==> ReusesOrder(order, r)))
  }

  predicate AsGood(order: Option<SqlOrder>, a: IndexAccess, r: IndexAccess) {
    && a.empty == r.empty && BothBounds(a) == BothBounds(r) && a.selected == r.selected
    && ReusesOrder(order, a) == ReusesOrder(order, r)
  }

  /** No candidate is better than r, and none before it is as good. */
  ghost predicate Preferred(order: Option<SqlOrder>, cs: seq<IndexAccess>, r: IndexAccess) {
    exists i :: && 0 <= i < |cs| && cs[i] == r
                && (forall k :: 0 <= k < |cs| ==> NotBetter(order, cs[k], r))
                && (forall k :: 0 <= k < i ==> !AsGood(order, cs[k], r))
  }

  lemma ChosenIsPreferred(order: Option<SqlOrder>, path: AccessPath, cs: seq<IndexAccess>, r: IndexAccess)
    requires FirstGreatest(Worse(path, order), cs, r) && path != TableScan
    requires forall k :: 0 <= k < |cs| ==> cs[k].path == path && Shaped(cs[k])
    ensures Preferred(order, cs, r)
  {
    var i :| 0 <= i < |cs| && cs[i] == r && (forall k :: 0 <= k < |cs| ==> !Worse(path, order)(r, cs[k]))
             && (forall k :: 0 <= k < i ==> Worse(path, order)(cs[k], r));
    hide ReusesOrder;
    assert forall k :: 0 <= k < |cs| ==> NotBetter(order, cs[k], r);
    assert forall k :: 0 <= k < i ==> !AsGood(order, cs[k], r);
  }

  // ---------------------------------------------------------------- the order of the candidates

  /** ps[i] is the first predicate that starts an access of this kind on the index. */
  ghost predicate FirstUse(m: IndexMatcher, ps: seq<SqlPredicate>, path: AccessPath, name: Text, i: nat) {
    && i < |ps| && Starts(path, ps[i]) && Uses(m, name, ps[i])
    && forall j :: 0 <= j < i ==> !(Starts(path, ps[j]) && Uses(m, name, ps[j]))
  }

  /** Candidates stand in the order in which the predicates name their indexes; a lookup has the first key given. */
  ghost predicate InUseOrder(m: IndexMatcher, ps: seq<SqlPredicate>, path: AccessPath, cs: seq<IndexAccess>, at: seq<nat>) {
    && |at| == |cs| && (forall j, k :: 0 <= j < k < |at| ==> at[j] < at[k])
    && forall k :: 0 <= k < |cs| ==>
         && FirstUse(m, ps, path, cs[k].name, at[k])
         && (path == IndexLookup ==> cs[k].key.Some? && ps[at[k]].literal == IntValue(cs[k].key.value))
  }

  lemma UseInMore(m: IndexMatcher, ps: seq<SqlPredicate>, p: SqlPredicate, path: AccessPath, cs: seq<IndexAccess>, at: seq<nat>)
    requires InUseOrder(m, ps, path, cs, at)
    ensures InUseOrder(m, ps + [p], path, cs, at)
  {
    hide Uses, Starts;
    forall k | 0 <= k < |cs|
      ensures FirstUse(m, ps + [p], path, cs[k].name, at[k])
    {
      assert FirstUse(m, ps, path, cs[k].name, at[k]);
    }
  }

  /** A new candidate for an index that no earlier predicate names. */
  lemma UseStarted(m: IndexMatcher, ps: seq<SqlPredicate>, p: SqlPredicate, path: AccessPath, cs: seq<IndexAccess>,
                   at: seq<nat>, a: IndexAccess)
    requires InUseOrder(m, ps, path, cs, at) && Complete(m, ps, path, cs)
    requires Starts(path, p) && m(p).Some? && m(p).value.name == a.name && FindFirst(AccessOf(a.name), cs) == None
    requires path == IndexLookup ==> a.key.Some? && p.literal == IntValue(a.key.value)
    ensures InUseOrder(m, ps + [p], path, cs + [a], at + [|ps|])
  {
    UseInMore(m, ps, p, path, cs, at);
    NotListed(a.name, cs);
    hide Listed, Starts;
    var more := ps + [p];
    forall j | 0 <= j < |ps|
      ensures !(Starts(path, more[j]) && Uses(m, a.name, more[j]))
    {
      assert more[j] == ps[j] && ps[j] in ps;
    }
    assert more[|ps|] == p;
    assert FirstUse(m, more, path, a.name, |ps|);
    forall k | 0 <= k < |at|
      ensures at[k] < |ps|
    {
      assert FirstUse(m, ps, path, cs[k].name, at[k]);
    }
  }

  lemma NotListed(name: Text, cs: seq<IndexAccess>)
    requires FindFirst(AccessOf(name), cs) == None
    ensures !Listed(cs, name)
  {
    assert forall k :: 0 <= k < |cs| ==> !AccessOf(name)(cs[k]);
  }

  lemma StillComplete(m: IndexMatcher, ps: seq<SqlPredicate>, p: SqlPredicate, path: AccessPath, cs: seq<IndexAccess>,
                      cs': seq<IndexAccess>)
    requires Complete(m, ps, path, cs) && forall name :: Listed(cs, name) ==> Listed(cs', name)
    requires Starts(path, p) && m(p).Some? ==> Listed(cs', m(p).value.name)
    ensures Complete(m, ps + [p], path, cs')
  {
    hide Listed, Starts;
  }

  lemma {:induction false} LookupsInOrder(m: IndexMatcher, ps: seq<SqlPredicate>) returns (at: seq<nat>)
    requires Integral(m)
    ensures InUseOrder(m, ps, IndexLookup, StartedOf(m, ps), at) && Complete(m, ps, IndexLookup, StartedOf(m, ps))
  {
    if ps == [] {
      at := [];
    } else {
      var rest, p := ps[..|ps| - 1], ps[|ps| - 1];
      var front := StartedOf(m, rest);
      at := LookupsInOrder(m, rest);
      assert rest + [p] == ps;
      UseInMore(m, rest, p, IndexLookup, front, at);
      var all := StartedOf(m, ps);
      hide StartedOf, InUseOrder, Complete, Listed;
      if all != front {
        ListedMore(front, all[|front|]);
        UseStarted(m, rest, p, IndexLookup, front, at, all[|front|]);
        at := at + [|rest|];
      } else {
        AlreadyListed(m, p, IndexLookup, front);
      }
      StillComplete(m, rest, p, IndexLookup, front, all);
    }
  }

  lemma AlreadyListed(m: IndexMatcher, p: SqlPredicate, path: AccessPath, cs: seq<IndexAccess>)
    ensures m(p).Some? && FindFirst(AccessOf(m(p).value.name), cs).Some? ==> Listed(cs, m(p).value.name)
  {
    if m(p).Some? {
      var k := FindFirst(AccessOf(m(p).value.name), cs);
      assert k.Some? ==> AccessOf(m(p).value.name)(cs[k.value]);
    }
  }

  lemma {:induction false} RangesInOrder(m: IndexMatcher, ps: seq<SqlPredicate>) returns (at: seq<nat>)
    ensures InUseOrder(m, ps, IndexRange, RangesOf(m, ps), at) && Complete(m, ps, IndexRange, RangesOf(m, ps))
  {
    if ps == [] {
      at := [];
    } else {
      var rest, p := ps[..|ps| - 1], ps[|ps| - 1];
      var front := RangesOf(m, rest);
      at := RangesInOrder(m, rest);
      assert rest + [p] == ps;
      var all := RangesOf(m, ps);
      assert !IsRange(p) || m(p) == None ==> all == front;
      assert IsRange(p) && m(p).Some? ==>
        var k := FindFirst(AccessOf(m(p).value.name), front);
        all == if k == None then front + [Opening(m(p).value, p)] else front[k.value := Tightened(front[k.value], p)];
      hide RangesOf, InUseOrder, Complete, Opening, Tightened;
      at := OneRangeMore(m, rest, p, front, at, all);
    }
  }

  lemma OneRangeMore(m: IndexMatcher, ps: seq<SqlPredicate>, p: SqlPredicate, front: seq<IndexAccess>, at: seq<nat>,
                     all: seq<IndexAccess>) returns (at': seq<nat>)
    requires InUseOrder(m, ps, IndexRange, front, at) && Complete(m, ps, IndexRange, front)
    requires !IsRange(p) || m(p) == None ==> all == front
    requires IsRange(p) && m(p).Some? ==>
      var k := FindFirst(AccessOf(m(p).value.name), front);
      all == if k == None then front + [Opening(m(p).value, p)] else front[k.value := Tightened(front[k.value], p)]
    ensures InUseOrder(m, ps + [p], IndexRange, all, at') && Complete(m, ps + [p], IndexRange, all)
  {
    hide InUseOrder, Complete, Listed, Opening, Tightened;
    UseInMore(m, ps, p, IndexRange, front, at);
    AlreadyListed(m, p, IndexRange, front);
    at' := at;
    if IsRange(p) && m(p).Some? {
      var k := FindFirst(AccessOf(m(p).value.name), front);
      if k == None {
        OpeningNamed(m(p).value, p);
        ListedMore(front, Opening(m(p).value, p));
        UseStarted(m, ps, p, IndexRange, front, at, Opening(m(p).value, p));
        at' := at + [|ps|];
      } else {
        TightenedNamed(front[k.value], p);
        SameNames(front, all);
        UseRenamed(m, ps + [p], front, all, at);
      }
    }
    StillComplete(m, ps, p, IndexRange, front, all);
  }

  lemma TightenedNamed(a: IndexAccess, p: SqlPredicate)
    ensures Tightened(a, p).name == a.name
  {
  }

  lemma UseRenamed(m: IndexMatcher, ps: seq<SqlPredicate>, cs: seq<IndexAccess>, cs': seq<IndexAccess>, at: seq<nat>)
    requires InUseOrder(m, ps, IndexRange, cs, at)
    requires |cs'| == |cs| && forall k :: 0 <= k < |cs| ==> cs'[k].name == cs[k].name
    ensures InUseOrder(m, ps, IndexRange, cs', at)
  {
    hide FirstUse;
  }

  lemma SameNames(cs: seq<IndexAccess>, cs': seq<IndexAccess>)
    requires |cs'| == |cs| && forall k :: 0 <= k < |cs| ==> cs'[k].name == cs[k].name
    ensures forall name :: Listed(cs, name) ==> Listed(cs', name)
  {
    forall name | Listed(cs, name)
      ensures Listed(cs', name)
    {
      var k :| 0 <= k < |cs| && cs[k].name == name;
      assert cs'[k].name == name;
    }
  }

  /** The candidates for either path are in order of use. */
  lemma CandidatesInOrder(m: IndexMatcher, ps: seq<SqlPredicate>, path: AccessPath) returns (at: seq<nat>)
    requires Integral(m) && path != TableScan
    ensures InUseOrder(m, ps, path, CandidatesOf(m, ps, path), at)
  {
    if path == IndexLookup {
      at := LookupsInOrder(m, ps);
    } else {
      at := RangesInOrder(m, ps);
    }
  }

  /** An exact access counts the predicates that its index decides. */
  lemma SelectedCounts(m: IndexMatcher, ps: seq<SqlPredicate>, a: IndexAccess)
    requires Exact(m, ps, a)
    ensures a.selected == a.covered ==
      |set i | 0 <= i < |ps| && Uses(m, a.name, ps[i]) && (a.path == IndexRange ==> IsRange(ps[i]))|
  {
    var test := if a.path == IndexLookup then UsesIndex(m, a.name) else RangeUsesIndex(m, a.name);
    var counted := FilterCount(test, ps);
    assert counted == set i | 0 <= i < |ps| && Uses(m, a.name, ps[i]) && (a.path == IndexRange ==> IsRange(ps[i]));
  }

  lemma {:induction false} FilterCount(p: SqlPredicate -> bool, s: seq<SqlPredicate>) returns (counted: set<int>)
    ensures |Filter(p, s)| == |counted| && forall i :: i in counted <==> 0 <= i < |s| && p(s[i])
  {
    if s == [] {
      counted := {};
    } else {
      var n := |s| - 1;
      counted := FilterCount(p, s[..n]);
      assert s[..n] + [s[n]] == s;
      FilterConcat(p, s[..n], [s[n]]);
      FilterCons(p, s[n], []);
      counted := counted + if p(s[n]) then {n} else {};
    }
  }

  /** The chosen access never decides more predicates than there are, and decides all of them only if all are its own. */
  lemma CoveredAtMost(m: IndexMatcher, ps: seq<SqlPredicate>, a: IndexAccess)
    requires Exact(m, ps, a)
    ensures a.covered <= |ps|
    ensures a.covered == |ps| ==> Mine(m, ps, a.path, a.name) == ps
  {
    hide Decides;
    FilterLength(if a.path == IndexLookup then UsesIndex(m, a.name) else RangeUsesIndex(m, a.name), ps);
  }

  lemma {:induction false} FilterLength<T>(p: T -> bool, s: seq<T>)
    ensures |Filter(p, s)| <= |s| && (|Filter(p, s)| == |s| ==> Filter(p, s) == s)
  {
    if s != [] {
      FilterLength(p, s[1..]);
    }
  }
}
