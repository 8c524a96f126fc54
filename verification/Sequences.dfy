/** Filtering, cutting and stable sorting of sequences, as the query operators promise them. */
module Sequences {
  import opened Wrappers

  /** The first `limit` elements, or all of them. */
  function Take<T>(s: seq<T>, limit: Option<nat>): seq<T> {
    if limit.Some? && limit.value < |s| then s[..limit.value] else s
  }

  lemma TakeTwice<T>(s: seq<T>, limit: Option<nat>)
    ensures Take(Take(s, limit), limit) == Take(s, limit)
  {
  }

  function Map<A, B>(f: A -> B, s: seq<A>): (r: seq<B>)
    ensures |r| == |s| && forall i :: 0 <= i < |s| ==> r[i] == f(s[i])
  {
    seq(|s|, i requires 0 <= i < |s| => f(s[i]))
  }

  /** std::find_if: the first position whose element satisfies p. */
  function FindFirst<T>(p: T -> bool, s: seq<T>): (r: Option<nat>)
    ensures r.Some? ==> r.value < |s| && p(s[r.value]) && forall k :: 0 <= k < r.value ==> !p(s[k])
    ensures r == None ==> forall k :: 0 <= k < |s| ==> !p(s[k])
  {
    if s == [] then None
    else if p(s[0]) then Some(0)
    else
      var rest := FindFirst(p, s[1..]);
      if rest == None then None else Some(1 + rest.value)
  }

  // ---------------------------------------------------------------- filtering

  function Filter<T>(p: T -> bool, s: seq<T>): seq<T> {
    if s == [] then [] else (if p(s[0]) then [s[0]] else []) + Filter(p, s[1..])
  }

  lemma {:induction false} FilterConcat<T>(p: T -> bool, a: seq<T>, b: seq<T>)
    ensures Filter(p, a + b) == Filter(p, a) + Filter(p, b)
  {
    if a == [] {
      assert a + b == b;
    } else {
      FilterConcat(p, a[1..], b);
      assert (a + b)[1..] == a[1..] + b && (a + b)[0] == a[0];
      var first := if p(a[0]) then [a[0]] else [];
      assert first + (Filter(p, a[1..]) + Filter(p, b)) == first + Filter(p, a[1..]) + Filter(p, b);
    }
  }

  lemma FilterStep<T>(p: T -> bool, s: seq<T>)
    ensures Filter(p, s) == if s == [] then [] else if p(s[0]) then [s[0]] + Filter(p, s[1..]) else Filter(p, s[1..])
    ensures Filter(p, []) == []
  {
  }

  lemma FilterCons<T>(p: T -> bool, x: T, s: seq<T>)
    ensures Filter(p, [x] + s) == (if p(x) then [x] else []) + Filter(p, s)
  {
    assert ([x] + s)[1..] == s;
  }

  lemma {:induction false} FilterMember<T>(p: T -> bool, s: seq<T>)
    ensures forall x :: x in Filter(p, s) <==> x in s && p(x)
    ensures forall k :: 0 <= k < |Filter(p, s)| ==> Filter(p, s)[k] in s && p(Filter(p, s)[k])
  {
    if s != [] {
      FilterMember(p, s[1..]);
      assert s == [s[0]] + s[1..];
    }
  }

  lemma {:induction false} FilterAll<T>(p: T -> bool, s: seq<T>)
    requires forall x :: x in s ==> p(x)
    ensures Filter(p, s) == s
  {
    if s != [] {
      assert s == [s[0]] + s[1..];
      FilterAll(p, s[1..]);
    }
  }

  lemma {:induction false} FilterNone<T>(p: T -> bool, s: seq<T>)
    requires forall x :: x in s ==> !p(x)
    ensures Filter(p, s) == []
  {
    if s != [] {
      assert s[0] in s;
      FilterNone(p, s[1..]);
    }
  }

  /** Two filters that agree on the elements. */
  lemma {:induction false} FilterSame<T>(p: T -> bool, q: T -> bool, s: seq<T>)
    requires forall x :: x in s ==> p(x) == q(x)
    ensures Filter(p, s) == Filter(q, s)
  {
    if s != [] {
      assert s[0] in s;
      FilterSame(p, q, s[1..]);
    }
  }

  /** A coarser filter before a finer one makes no difference. */
  lemma {:induction false} FilterCoarse<T>(fine: T -> bool, coarse: T -> bool, s: seq<T>)
    requires forall x :: x in s && fine(x) ==> coarse(x)
    ensures Filter(fine, Filter(coarse, s)) == Filter(fine, s)
  {
    hide Filter;
    FilterStep(fine, s);
    FilterStep(coarse, s);
    if s != [] {
      assert s[0] in s;
      FilterCoarse(fine, coarse, s[1..]);
      FilterCons(fine, s[0], Filter(coarse, s[1..]));
    }
  }

  /** Filters can be exchanged. */
  lemma {:induction false} FilterSwap<T>(p: T -> bool, q: T -> bool, s: seq<T>)
    ensures Filter(p, Filter(q, s)) == Filter(q, Filter(p, s))
  {
    if s != [] {
      FilterSwap(p, q, s[1..]);
      FilterCons(p, s[0], Filter(q, s[1..]));
      FilterCons(q, s[0], Filter(p, s[1..]));
      assert [] + Filter(p, s[1..]) == Filter(p, s[1..]) && [] + Filter(q, s[1..]) == Filter(q, s[1..]);
    }
  }

  // ---------------------------------------------------------------- strictly ordered sequences

  ghost predicate StrictlySorted<T>(before: (T, T) -> bool, s: seq<T>) {
    forall i, j :: 0 <= i < j < |s| ==> before(s[i], s[j])
  }

  ghost predicate AsymmetricOn<T>(before: (T, T) -> bool, s: seq<T>) {
    forall x, y :: x in s && y in s && before(x, y) ==> !before(y, x)
  }

  lemma NotInEmpty<T>(b: seq<T>)
    requires b != []
    ensures exists x :: x in b
  {
    assert b[0] in b;
  }

  /** A strict order and the elements determine the sequence. */
  lemma {:induction false} SortedUnique<T>(before: (T, T) -> bool, a: seq<T>, b: seq<T>)
    requires StrictlySorted(before, a) && StrictlySorted(before, b) && AsymmetricOn(before, a)
    requires forall x :: x in a <==> x in b
    ensures a == b
    decreases |a|
  {
    if a == [] {
      if b != [] {
        NotInEmpty(b);
        assert false;
      }
    } else {
      assert a[0] in b && b != [];
      assert b[0] in a;
      SameHead(before, a, b);
      SameTailElements(before, a, b);
      assert AsymmetricOn(before, a[1..]) by {
        assert forall x :: x in a[1..] ==> x in a;
      }
      SortedUnique(before, a[1..], b[1..]);
      assert a == [a[0]] + a[1..] && b == [b[0]] + b[1..];
    }
  }

  lemma SameHead<T>(before: (T, T) -> bool, a: seq<T>, b: seq<T>)
    requires StrictlySorted(before, a) && StrictlySorted(before, b) && AsymmetricOn(before, a)
    requires a != [] && b != [] && a[0] in b && b[0] in a
    ensures a[0] == b[0]
  {
    var i :| 0 <= i < |b| && b[i] == a[0];
    var j :| 0 <= j < |a| && a[j] == b[0];
    if i > 0 && j > 0 {
      assert false;
    }
  }

  lemma SameTailElements<T>(before: (T, T) -> bool, a: seq<T>, b: seq<T>)
    requires StrictlySorted(before, a) && StrictlySorted(before, b) && AsymmetricOn(before, a)
    requires a != [] && b != [] && a[0] == b[0]
    requires forall x :: x in a <==> x in b
    ensures forall x :: x in a[1..] <==> x in b[1..]
  {
    forall x
      ensures x in a[1..] <==> x in a && x != a[0]
      ensures x in b[1..] <==> x in b && x != b[0]
    {
      TailElements(before, a, x);
      TailElements(before, b, x);
    }
  }

  lemma TailElements<T>(before: (T, T) -> bool, a: seq<T>, x: T)
    requires a != [] && StrictlySorted(before, a) && (before(a[0], a[0]) ==> !before(a[0], a[0]))
    ensures x in a[1..] <==> x in a && x != a[0]
  {
    if x in a[1..] {
      var i :| 0 <= i < |a[1..]| && a[1..][i] == x;
      assert before(a[0], a[i + 1]);
    }
    assert a == [a[0]] + a[1..];
  }

  lemma {:induction false} FilterSorted<T>(before: (T, T) -> bool, p: T -> bool, s: seq<T>)
    requires StrictlySorted(before, s)
    ensures StrictlySorted(before, Filter(p, s))
  {
    if s != [] {
      FilterSorted(before, p, s[1..]);
      FilterMember(p, s[1..]);
      var rest := Filter(p, s[1..]);
      forall k | 0 <= k < |rest|
        ensures before(s[0], rest[k])
      {
        assert rest[k] in s[1..];
        var i :| 0 <= i < |s[1..]| && s[1..][i] == rest[k];
        assert before(s[0], s[i + 1]);
      }
    }
  }

  // ---------------------------------------------------------------- stable sorting

  /** A strict weak ordering on the elements of s: what a sort demands of its comparator. */
  ghost predicate StrictWeakOn<T>(less: (T, T) -> bool, s: seq<T>) {
    && (forall x, y :: x in s && y in s && less(x, y) ==> !less(y, x))
    && (forall x, y, z :: x in s && y in s && z in s && less(x, y) ==> less(x, z) || less(z, y))
  }

  predicate Equivalent<T>(less: (T, T) -> bool, x: T, y: T) {
    !less(x, y) && !less(y, x)
  }

  function Like<T>(less: (T, T) -> bool, pivot: T): T -> bool {
    x => Equivalent(less, x, pivot)
  }

  ghost predicate Sorted<T>(less: (T, T) -> bool, s: seq<T>) {
    forall i, j :: 0 <= i < j < |s| ==> !less(s[j], s[i])
  }

  /** r has the elements of s in sorted order, equivalent ones in the order in which s has them. */
  ghost predicate IsStableSort<T>(less: (T, T) -> bool, s: seq<T>, r: seq<T>) {
    && Sorted(less, r)
    && (forall x :: x in r ==> x in s)
    && (forall x :: x in s ==> x in r)
    && SameClasses(less, s, r, s)
  }

  /** Every class of equivalent elements stands in the same order in a and b. */
  ghost predicate SameClasses<T>(less: (T, T) -> bool, pivots: seq<T>, a: seq<T>, b: seq<T>) {
    forall pivot :: pivot in pivots ==> Filter(Like(less, pivot), a) == Filter(Like(less, pivot), b)
  }

  /** Puts x before everything that is not below it. */
  function Place<T>(less: (T, T) -> bool, x: T, s: seq<T>): seq<T> {
    if s == [] || !less(s[0], x) then [x] + s else [s[0]] + Place(less, x, s[1..])
  }

  /** std::stable_sort. */
  function StableSort<T>(less: (T, T) -> bool, s: seq<T>): seq<T> {
    if s == [] then [] else Place(less, s[0], StableSort(less, s[1..]))
  }

  lemma {:induction false} PlaceMultiset<T>(less: (T, T) -> bool, x: T, s: seq<T>)
    ensures multiset(Place(less, x, s)) == multiset([x]) + multiset(s)
  {
    if s != [] && less(s[0], x) {
      PlaceMultiset(less, x, s[1..]);
      assert s == [s[0]] + s[1..];
      assert multiset(s) == multiset([s[0]]) + multiset(s[1..]);
    }
  }

  lemma {:induction false} SortMultiset<T>(less: (T, T) -> bool, s: seq<T>)
    ensures multiset(StableSort(less, s)) == multiset(s) && |StableSort(less, s)| == |s|
  {
    if s != [] {
      SortMultiset(less, s[1..]);
      PlaceMultiset(less, s[0], StableSort(less, s[1..]));
      assert s == [s[0]] + s[1..];
      assert multiset(s) == multiset([s[0]]) + multiset(s[1..]);
    }
    assert |multiset(StableSort(less, s))| == |StableSort(less, s)| && |multiset(s)| == |s|;
  }

  lemma SameElements<T>(a: seq<T>, b: seq<T>)
    requires multiset(a) == multiset(b)
    ensures |a| == |b| && forall x :: x in a <==> x in b
  {
    assert |multiset(a)| == |a| && |multiset(b)| == |b|;
    forall x
      ensures x in a <==> x in b
    {
      assert x in a <==> x in multiset(a);
      assert x in b <==> x in multiset(b);
    }
  }

  lemma {:induction false} PlaceSorted<T>(less: (T, T) -> bool, x: T, s: seq<T>)
    requires Sorted(less, s) && StrictWeakOn(less, [x] + s)
    ensures Sorted(less, Place(less, x, s))
  {
    assert x in [x] + s && forall y :: y in s ==> y in [x] + s;
    if s != [] && less(s[0], x) {
      assert forall y :: y in [x] + s[1..] ==> y in [x] + s;
      PlaceSorted(less, x, s[1..]);
      var rest := Place(less, x, s[1..]);
      PlaceMultiset(less, x, s[1..]);
      forall j | 0 <= j < |rest|
        ensures !less(rest[j], s[0])
      {
        assert rest[j] in multiset(rest);
        if rest[j] != x {
          assert rest[j] in s[1..];
          var i :| 0 <= i < |s[1..]| && s[1..][i] == rest[j];
          assert !less(s[i + 1], s[0]);
        }
      }
    } else if s != [] {
      forall j | 0 <= j < |s|
        ensures !less(s[j], x)
      {
        assert s[0] in s && s[j] in s;
        assert j > 0 ==> !less(s[j], s[0]);
      }
    }
  }

  lemma {:induction false} PlaceStable<T>(less: (T, T) -> bool, x: T, s: seq<T>, pivot: T)
    requires StrictWeakOn(less, [x] + s) && pivot in [x] + s
    ensures Filter(Like(less, pivot), Place(less, x, s)) == Filter(Like(less, pivot), [x] + s)
  {
    hide Filter, StrictWeakOn;
    if s != [] && less(s[0], x) {
      var p, y, rest := Like(less, pivot), s[0], s[1..];
      ConsElements(x, s);
      ConsElements(x, rest);
      NotBothLike(less, [x] + s, y, x, pivot);
      FilterCons(p, y, Place(less, x, rest));
      FilterPair(p, x, y, rest);
      assert s == [y] + rest;
      if pivot in [x] + rest {
        StrictWeakSub(less, [x] + s, [x] + rest);
        PlaceStable(less, x, rest, pivot);
      } else {
        LikeItself(less, [x] + s, y);
        PlaceIgnores(less, x, rest, p);
      }
    }
  }

  lemma LikeItself<T>(less: (T, T) -> bool, s: seq<T>, x: T)
    requires StrictWeakOn(less, s) && x in s
    ensures Like(less, x)(x)
  {
  }

  lemma NotBothLike<T>(less: (T, T) -> bool, s: seq<T>, x: T, y: T, pivot: T)
    requires StrictWeakOn(less, s) && x in s && y in s && pivot in s && less(x, y)
    ensures !(Like(less, pivot)(x) && Like(less, pivot)(y))
  {
    assert less(x, pivot) || less(pivot, y);
  }

  /** When not both x and y are kept, their order does not matter. */
  lemma FilterPair<T>(p: T -> bool, x: T, y: T, rest: seq<T>)
    requires !(p(x) && p(y))
    ensures Filter(p, [x] + ([y] + rest)) == (if p(y) then [y] else []) + Filter(p, [x] + rest)
    ensures p(y) ==> Filter(p, [x] + rest) == Filter(p, rest)
  {
    hide Filter;
    FilterCons(p, x, [y] + rest);
    FilterCons(p, y, rest);
    FilterCons(p, x, rest);
  }

  /** An element that a filter drops does not matter for its result. */
  lemma {:induction false} PlaceIgnores<T>(less: (T, T) -> bool, x: T, s: seq<T>, p: T -> bool)
    requires !p(x)
    ensures Filter(p, Place(less, x, s)) == Filter(p, s)
  {
    if s != [] && less(s[0], x) {
      var first, rest := s[0], s[1..];
      assert s == [first] + rest && Place(less, x, s) == [first] + Place(less, x, rest);
      PlaceIgnores(less, x, rest, p);
      hide Place, Filter;
      FilterCons(p, first, Place(less, x, rest));
      FilterCons(p, first, rest);
    } else {
      assert Place(less, x, s) == [x] + s;
      hide Place, Filter;
      FilterCons(p, x, s);
      assert [] + Filter(p, s) == Filter(p, s);
    }
  }

  lemma {:induction false} SortElements<T>(less: (T, T) -> bool, s: seq<T>)
    ensures forall x :: x in StableSort(less, s) <==> x in s
  {
    SortMultiset(less, s);
    SameElements(StableSort(less, s), s);
  }

  lemma ConsElements<T>(x: T, s: seq<T>)
    ensures forall y :: y in [x] + s <==> y == x || y in s
  {
  }

  /** The sort returns a stable sort of its input. */
  lemma {:induction false} SortIsStable<T>(less: (T, T) -> bool, s: seq<T>)
    requires StrictWeakOn(less, s)
    ensures IsStableSort(less, s, StableSort(less, s))
  {
    hide StableSort, Filter, Like, StrictWeakOn, Sorted, SameClasses;
    SortElements(less, s);
    if s == [] {
      SortEmpty(less);
    } else {
      var x, rest := s[0], s[1..];
      var sorted := StableSort(less, rest);
      assert s == [x] + rest;
      ConsElements(x, rest);
      ConsElements(x, sorted);
      StrictWeakSub(less, s, rest);
      SortIsStable(less, rest);
      StrictWeakSub(less, s, [x] + sorted);
      PlaceSorted(less, x, sorted);
      SortStep(less, x, rest);
      SortClasses(less, x, rest, sorted);
      assert StableSort(less, s) == Place(less, x, sorted);
      assert Sorted(less, StableSort(less, s));
      assert SameClasses(less, s, StableSort(less, s), s);
    }
  }

  lemma SortEmpty<T>(less: (T, T) -> bool)
    ensures StableSort(less, []) == [] && Sorted(less, []) && SameClasses(less, [], [], [])
  {
  }

  lemma SortStep<T>(less: (T, T) -> bool, x: T, rest: seq<T>)
    ensures StableSort(less, [x] + rest) == Place(less, x, StableSort(less, rest))
  {
    assert ([x] + rest)[1..] == rest;
  }

  lemma SortClasses<T>(less: (T, T) -> bool, x: T, rest: seq<T>, sorted: seq<T>)
    requires StrictWeakOn(less, [x] + rest) && IsStableSort(less, rest, sorted)
    ensures SameClasses(less, [x] + rest, Place(less, x, sorted), [x] + rest)
  {
    forall pivot | pivot in [x] + rest
      ensures Filter(Like(less, pivot), Place(less, x, sorted)) == Filter(Like(less, pivot), [x] + rest)
    {
      SortClass(less, x, rest, sorted, pivot);
    }
  }

  lemma SortClass<T>(less: (T, T) -> bool, x: T, rest: seq<T>, sorted: seq<T>, pivot: T)
    requires StrictWeakOn(less, [x] + rest) && pivot in [x] + rest && IsStableSort(less, rest, sorted)
    ensures Filter(Like(less, pivot), Place(less, x, sorted)) == Filter(Like(less, pivot), [x] + rest)
  {
    hide Filter, Place, Sorted;
    var p := Like(less, pivot);
    ConsElements(x, rest);
    ConsElements(x, sorted);
    StrictWeakSub(less, [x] + rest, [x] + sorted);
    PlaceStable(less, x, sorted, pivot);
    FilterCons(p, x, sorted);
    FilterCons(p, x, rest);
    if pivot !in rest {
      assert pivot == x;
      if y :| y in rest && p(y) {
        forall z | z in rest
          ensures Like(less, y)(z) == p(z)
        {
          assert y in [x] + rest && z in [x] + rest && x in [x] + rest;
        }
        FilterSame(Like(less, y), p, rest);
        FilterSame(Like(less, y), p, sorted);
      } else {
        FilterNone(p, rest);
        FilterNone(p, sorted);
      }
    }
  }

  /** A stable sort is unique, so that the order of the answer is determined. */
  lemma StableSortUnique<T>(less: (T, T) -> bool, s: seq<T>, a: seq<T>, b: seq<T>)
    requires StrictWeakOn(less, s) && IsStableSort(less, s, a) && IsStableSort(less, s, b)
    ensures a == b
  {
    hide StrictWeakOn, Filter, Like, Sorted;
    assert SameClasses(less, s, a, b);
    ClassesDetermine(less, s, a, b);
  }

  lemma {:induction false} ClassesDetermine<T>(less: (T, T) -> bool, s: seq<T>, a: seq<T>, b: seq<T>)
    requires StrictWeakOn(less, s) && Sorted(less, a) && Sorted(less, b) && SameClasses(less, s, a, b)
    requires (forall x :: x in a ==> x in s) && (forall x :: x in b ==> x in s)
    ensures a == b
    decreases |a|
  {
    hide StrictWeakOn, SameClasses, Sorted;
    if a == [] && b == [] {
    } else {
      HeadsAgree(less, s, a, b);
      TailsAgree(less, s, a, b);
      assert (forall x :: x in a[1..] ==> x in a) && (forall x :: x in b[1..] ==> x in b);
      ClassesDetermine(less, s, a[1..], b[1..]);
      assert a == [a[0]] + a[1..] && b == [b[0]] + b[1..];
    }
  }

  lemma TailsAgree<T>(less: (T, T) -> bool, s: seq<T>, a: seq<T>, b: seq<T>)
    requires a != [] && b != [] && a[0] == b[0]
    requires Sorted(less, a) && Sorted(less, b) && SameClasses(less, s, a, b)
    ensures Sorted(less, a[1..]) && Sorted(less, b[1..]) && SameClasses(less, s, a[1..], b[1..])
  {
    forall pivot | pivot in s
      ensures Filter(Like(less, pivot), a[1..]) == Filter(Like(less, pivot), b[1..])
    {
      var p := Like(less, pivot);
      var head := if p(a[0]) then [a[0]] else [];
      assert (head + Filter(p, a[1..]))[|head|..] == Filter(p, a[1..]);
      assert (head + Filter(p, b[1..]))[|head|..] == Filter(p, b[1..]);
    }
  }

  /** The element x is in b too, because its class is the same there. */
  lemma ClassMember<T>(less: (T, T) -> bool, s: seq<T>, a: seq<T>, b: seq<T>, x: T)
    requires StrictWeakOn(less, s) && SameClasses(less, s, a, b) && x in s
    ensures x in a <==> x in b
  {
    hide Filter;
    var p := Like(less, x);
    assert p(x);
    FilterMember(p, a);
    FilterMember(p, b);
  }

  lemma HeadsAgree<T>(less: (T, T) -> bool, s: seq<T>, a: seq<T>, b: seq<T>)
    requires StrictWeakOn(less, s) && Sorted(less, a) && Sorted(less, b) && SameClasses(less, s, a, b)
    requires (forall x :: x in a ==> x in s) && (forall x :: x in b ==> x in s)
    requires a != [] || b != []
    ensures a != [] && b != [] && a[0] == b[0]
  {
    hide SameClasses, Sorted, StrictWeakOn, Filter;
    var x := if a != [] then a[0] else b[0];
    ClassMember(less, s, a, b, x);
    ClassMember(less, s, a, b, a[0]);
    ClassMember(less, s, a, b, b[0]);
    FirstIsLeast(less, s, a, b[0]);
    FirstIsLeast(less, s, b, a[0]);
    FirstOfClass(less, s, a, b);
  }

  lemma FirstIsLeast<T>(less: (T, T) -> bool, s: seq<T>, a: seq<T>, x: T)
    requires StrictWeakOn(less, s) && Sorted(less, a) && x in a && x in s
    ensures !less(x, a[0])
  {
    var i :| 0 <= i < |a| && a[i] == x;
  }

  lemma FirstOfClass<T>(less: (T, T) -> bool, s: seq<T>, a: seq<T>, b: seq<T>)
    requires SameClasses(less, s, a, b) && a != [] && b != [] && a[0] in s && StrictWeakOn(less, s)
    requires Equivalent(less, b[0], a[0])
    ensures a[0] == b[0]
  {
    var p := Like(less, a[0]);
    assert Filter(p, a) == Filter(p, b);
    assert p(a[0]) && p(b[0]);
    assert Filter(p, a)[0] == a[0] && Filter(p, b)[0] == b[0];
  }

  lemma StrictWeakSub<T>(less: (T, T) -> bool, s: seq<T>, r: seq<T>)
    requires StrictWeakOn(less, s) && forall x :: x in r ==> x in s
    ensures StrictWeakOn(less, r)
  {
  }

  /** Filtering a sorted sequence is sorting the filtered one. */
  lemma FilterSort<T>(less: (T, T) -> bool, p: T -> bool, s: seq<T>)
    requires StrictWeakOn(less, s)
    ensures Filter(p, StableSort(less, s)) == StableSort(less, Filter(p, s))
  {
    hide Filter, StableSort, Like, Sorted, StrictWeakOn;
    var sorted, kept := StableSort(less, s), Filter(p, s);
    var r := Filter(p, sorted);
    SortIsStable(less, s);
    FilterMember(p, s);
    StrictWeakSub(less, s, kept);
    SortIsStable(less, kept);
    FilterKeepsSorted(less, p, sorted);
    FilterMember(p, sorted);
    forall pivot | pivot in kept
      ensures Filter(Like(less, pivot), r) == Filter(Like(less, pivot), kept)
    {
      FilterSwap(Like(less, pivot), p, sorted);
      FilterSwap(Like(less, pivot), p, s);
    }
    StableSortUnique(less, kept, r, StableSort(less, kept));
  }

  lemma {:induction false} FilterKeepsSorted<T>(less: (T, T) -> bool, p: T -> bool, s: seq<T>)
    requires Sorted(less, s)
    ensures Sorted(less, Filter(p, s))
  {
    if s != [] {
      FilterKeepsSorted(less, p, s[1..]);
      FilterMember(p, s[1..]);
      var rest := Filter(p, s[1..]);
      forall k | 0 <= k < |rest|
        ensures !less(rest[k], s[0])
      {
        assert rest[k] in s[1..];
        var i :| 0 <= i < |s[1..]| && s[1..][i] == rest[k];
        assert !less(s[i + 1], s[0]);
      }
    }
  }

  /** Sorting by an order under which everything is equivalent changes nothing. */
  lemma SortTrivial<T>(less: (T, T) -> bool, s: seq<T>)
    requires forall x, y :: x in s && y in s ==> !less(x, y)
    ensures StableSort(less, s) == s
  {
    SortIsStable(less, s);
    assert IsStableSort(less, s, s);
    StableSortUnique(less, s, StableSort(less, s), s);
  }

  /** A sequence in strict order that agrees with `less`, and breaks its ties as s does, is the stable sort of s. */
  lemma StrictOrderIsStableSort<T>(less: (T, T) -> bool, tie: (T, T) -> bool, s: seq<T>, r: seq<T>)
    requires StrictWeakOn(less, s) && StrictlySorted(tie, s) && AsymmetricOn(tie, s)
    requires Sorted(less, r) && forall x :: x in r <==> x in s
    requires forall i, j :: 0 <= i < j < |r| && Equivalent(less, r[i], r[j]) ==> tie(r[i], r[j])
    ensures r == StableSort(less, s)
  {
    forall pivot | pivot in s
      ensures Filter(Like(less, pivot), r) == Filter(Like(less, pivot), s)
    {
      var p := Like(less, pivot);
      var a, b := Filter(p, r), Filter(p, s);
      FilterMember(p, r);
      FilterMember(p, s);
      FilterSorted(tie, p, s);
      TiesSorted(less, tie, r, pivot);
      assert AsymmetricOn(tie, a);
      SortedUnique(tie, a, b);
    }
    SortIsStable(less, s);
    StableSortUnique(less, s, r, StableSort(less, s));
  }

  lemma {:induction false} TiesSorted<T>(less: (T, T) -> bool, tie: (T, T) -> bool, r: seq<T>, pivot: T)
    requires StrictWeakOn(less, r + [pivot])
    requires forall i, j :: 0 <= i < j < |r| && Equivalent(less, r[i], r[j]) ==> tie(r[i], r[j])
    ensures StrictlySorted(tie, Filter(Like(less, pivot), r))
  {
    if r != [] {
      var p := Like(less, pivot);
      assert forall x :: x in r[1..] + [pivot] ==> x in r + [pivot];
      TiesSorted(less, tie, r[1..], pivot);
      FilterMember(p, r[1..]);
      var rest := Filter(p, r[1..]);
      forall k | 0 <= k < |rest| && p(r[0])
        ensures tie(r[0], rest[k])
      {
        assert rest[k] in r[1..];
        var i :| 0 <= i < |r[1..]| && r[1..][i] == rest[k];
        assert pivot in r + [pivot] && r[0] in r + [pivot] && r[i + 1] in r + [pivot];
        assert Equivalent(less, r[0], r[i + 1]);
      }
    }
  }

  // ---------------------------------------------------------------- two orderings

  /** Sorting depends only on how the comparator orders the elements there are. */
  lemma {:induction false} SortSame<T>(less: (T, T) -> bool, other: (T, T) -> bool, s: seq<T>)
    requires forall x, y :: x in s && y in s ==> less(x, y) == other(x, y)
    ensures StableSort(less, s) == StableSort(other, s)
  {
    hide StableSort, Place;
    if s == [] {
      SortEmpty(less);
      SortEmpty(other);
    } else {
      var x, rest := s[0], s[1..];
      assert s == [x] + rest;
      SortSame(less, other, rest);
      var sorted := StableSort(less, rest);
      SortMultiset(less, rest);
      forall k | 0 <= k < |sorted|
        ensures less(sorted[k], x) == other(sorted[k], x)
      {
        assert sorted[k] in multiset(sorted);
        assert sorted[k] in rest;
      }
      PlaceSame(less, other, x, sorted);
      SortStep(less, x, rest);
      SortStep(other, x, rest);
    }
  }

  lemma {:induction false} PlaceSame<T>(less: (T, T) -> bool, other: (T, T) -> bool, x: T, s: seq<T>)
    requires forall k :: 0 <= k < |s| ==> less(s[k], x) == other(s[k], x)
    ensures Place(less, x, s) == Place(other, x, s)
  {
    if s != [] {
      PlaceSame(less, other, x, s[1..]);
    }
  }

  /** By the first ordering, and by the second one among equivalent elements. */
  function Lexicographic<T>(first: (T, T) -> bool, second: (T, T) -> bool): (T, T) -> bool {
    (x, y) => first(x, y) || (!first(y, x) && second(x, y))
  }

  lemma LexicographicWeak<T>(first: (T, T) -> bool, second: (T, T) -> bool, s: seq<T>)
    requires StrictWeakOn(first, s) && StrictWeakOn(second, s)
    ensures StrictWeakOn(Lexicographic(first, second), s)
  {
  }

  /** Elements that a filter keeps stay in their order, so what is sorted after filtering was so before. */
  lemma {:induction false} FilterOrder<T>(less: (T, T) -> bool, p: T -> bool, s: seq<T>, i: nat, j: nat)
    requires i < j < |s| && p(s[i]) && p(s[j]) && Sorted(less, Filter(p, s))
    ensures !less(s[j], s[i])
  {
    var rest := Filter(p, s[1..]);
    if i == 0 {
      FilterMember(p, s[1..]);
      assert s[1..][j - 1] in rest;
      var k :| 0 <= k < |rest| && rest[k] == s[j];
      assert Filter(p, s)[0] == s[0] && Filter(p, s)[k + 1] == s[j];
    } else {
      assert forall k :: 0 <= k < |rest| ==> rest[k] == Filter(p, s)[k + if p(s[0]) then 1 else 0];
      FilterOrder(less, p, s[1..], i - 1, j - 1);
    }
  }

  /** The elements that two orderings both find equivalent to a pivot keep their order in a sort by either. */
  lemma FineClass<T>(less: (T, T) -> bool, fine: T -> bool, s: seq<T>, pivot: T)
    requires StrictWeakOn(less, s) && pivot in s
    requires forall x :: x in s && fine(x) ==> Equivalent(less, x, pivot)
    ensures Filter(fine, StableSort(less, s)) == Filter(fine, s)
  {
    hide StableSort, Filter;
    SortIsStable(less, s);
    SortElements(less, s);
    FilterCoarse(fine, Like(less, pivot), s);
    FilterCoarse(fine, Like(less, pivot), StableSort(less, s));
    assert Filter(Like(less, pivot), StableSort(less, s)) == Filter(Like(less, pivot), s);
  }

  /** Two stable sorts in a row, the less important one first, are one sort by both orderings. */
  lemma SortBySecondThenFirst<T>(first: (T, T) -> bool, second: (T, T) -> bool, s: seq<T>)
    requires StrictWeakOn(first, s) && StrictWeakOn(second, s)
    ensures StableSort(first, StableSort(second, s)) == StableSort(Lexicographic(first, second), s)
  {
    hide StableSort, Filter, StrictWeakOn;
    var both, t := Lexicographic(first, second), StableSort(second, s);
    var r := StableSort(first, t);
    SortElements(second, s);
    SortElements(first, t);
    StrictWeakSub(first, s, t);
    LexicographicWeak(first, second, s);
    forall i, j | 0 <= i < j < |r|
      ensures !both(r[j], r[i])
    {
      TwiceSorted(first, second, s, i, j);
    }
    forall pivot | pivot in s
      ensures Filter(Like(both, pivot), r) == Filter(Like(both, pivot), s)
    {
      FineClass(second, Like(both, pivot), s, pivot);
      FineClass(first, Like(both, pivot), t, pivot);
    }
    assert Sorted(both, r);
    assert SameClasses(both, s, r, s);
    SortIsStable(both, s);
    StableSortUnique(both, s, r, StableSort(both, s));
  }

  lemma TwiceSorted<T>(first: (T, T) -> bool, second: (T, T) -> bool, s: seq<T>, i: nat, j: nat)
    requires StrictWeakOn(first, s) && StrictWeakOn(second, s)
    requires i < j < |StableSort(first, StableSort(second, s))|
    ensures var r := StableSort(first, StableSort(second, s));
      !Lexicographic(first, second)(r[j], r[i])
  {
    hide StableSort, Filter;
    var t := StableSort(second, s);
    var r := StableSort(first, t);
    SortIsStable(second, s);
    StrictWeakSub(first, s, t);
    SortIsStable(first, t);
    SortElements(first, t);
    if !first(r[i], r[j]) {
      var like := Like(first, r[i]);
      assert r[i] in r && r[j] in r && r[i] in t;
      FilterKeepsSorted(second, like, t);
      FilterOrder(second, like, r, i, j);
    }
  }

  /** A sort by the more important ordering does not change what a sort by both orderings gives. */
  lemma SortByFirstThenBoth<T>(first: (T, T) -> bool, second: (T, T) -> bool, s: seq<T>)
    requires StrictWeakOn(first, s) && StrictWeakOn(second, s)
    ensures StableSort(Lexicographic(first, second), StableSort(first, s)) == StableSort(Lexicographic(first, second), s)
  {
    hide StableSort, Filter, StrictWeakOn;
    var both, u := Lexicographic(first, second), StableSort(first, s);
    var r := StableSort(both, u);
    SortElements(first, s);
    SortElements(both, u);
    LexicographicWeak(first, second, s);
    StrictWeakSub(both, s, u);
    SortIsStable(both, u);
    forall pivot | pivot in s
      ensures Filter(Like(both, pivot), r) == Filter(Like(both, pivot), s)
    {
      FineClass(first, Like(both, pivot), s, pivot);
    }
    SortIsStable(both, s);
    StableSortUnique(both, s, r, StableSort(both, s));
  }

  // ---------------------------------------------------------------- when sorting changes nothing

  /** The first `limit` elements are where a sort would put them: nothing behind one of them is below it. */
  ghost predicate InOrderUpTo<T>(less: (T, T) -> bool, s: seq<T>, limit: Option<nat>) {
    forall i, j :: 0 <= i < j < |s| && (limit.Some? ==> i < limit.value) ==> !less(s[j], s[i])
  }

  /** The first elements of a sort are the first elements of the list exactly when these are in order. */
  lemma SortKeepsFirst<T>(less: (T, T) -> bool, s: seq<T>, limit: Option<nat>)
    requires StrictWeakOn(less, s) && forall i, j :: 0 <= i < j < |s| ==> s[i] != s[j]
    ensures Take(StableSort(less, s), limit) == Take(s, limit) <==> InOrderUpTo(less, s, limit)
  {
    hide StableSort;
    if InOrderUpTo(less, s, limit) {
      OrderedFirst(less, s, limit);
    }
    if Take(StableSort(less, s), limit) == Take(s, limit) {
      forall i, j | 0 <= i < j < |s| && (limit.Some? ==> i < limit.value)
        ensures !less(s[j], s[i])
      {
        FirstUnchanged(less, s, limit, i, j);
      }
    }
  }

  lemma FirstUnchanged<T>(less: (T, T) -> bool, s: seq<T>, limit: Option<nat>, i: nat, j: nat)
    requires StrictWeakOn(less, s) && forall i, j :: 0 <= i < j < |s| ==> s[i] != s[j]
    requires Take(StableSort(less, s), limit) == Take(s, limit)
    requires i < j < |s| && (limit.Some? ==> i < limit.value)
    ensures !less(s[j], s[i])
  {
    hide StableSort;
    var r := StableSort(less, s);
    SortIsStable(less, s);
    SortMultiset(less, s);
    var n := if limit.Some? && limit.value < |s| then limit.value else |s|;
    assert r[..n] == Take(r, limit) && s[..n] == Take(s, limit);
    assert forall k :: 0 <= k < n ==> r[k] == r[..n][k] == s[..n][k] == s[k];
    assert s[j] in r;
    var k :| 0 <= k < |r| && r[k] == s[j];
    assert k > i by {
      if k < n {
        assert s[k] == s[j];
      }
    }
  }

  lemma OrderedFirst<T>(less: (T, T) -> bool, s: seq<T>, limit: Option<nat>)
    requires StrictWeakOn(less, s) && InOrderUpTo(less, s, limit)
    ensures Take(StableSort(less, s), limit) == Take(s, limit)
  {
    hide StableSort, Filter, StrictWeakOn;
    var n := if limit.Some? && limit.value < |s| then limit.value else |s|;
    var head, tail := s[..n], s[n..];
    var r := head + StableSort(less, tail);
    assert s == head + tail;
    StrictWeakSub(less, s, tail);
    SortIsStable(less, tail);
    SortElements(less, tail);
    forall i, j | 0 <= i < j < |r|
      ensures !less(r[j], r[i])
    {
      if i < n <= j {
        assert r[j] == StableSort(less, tail)[j - n] && r[j] in tail;
        var k :| 0 <= k < |tail| && tail[k] == r[j];
        assert s[n + k] == r[j];
      }
    }
    forall pivot | pivot in s
      ensures Filter(Like(less, pivot), r) == Filter(Like(less, pivot), s)
    {
      FilterConcat(Like(less, pivot), head, tail);
      FilterConcat(Like(less, pivot), head, StableSort(less, tail));
      ClassUnsorted(less, s, tail, pivot);
    }
    SortIsStable(less, s);
    StableSortUnique(less, s, r, StableSort(less, s));
    SortMultiset(less, s);
    assert r[..n] == head;
  }

  lemma ClassUnsorted<T>(less: (T, T) -> bool, s: seq<T>, tail: seq<T>, pivot: T)
    requires StrictWeakOn(less, s) && pivot in s && forall x :: x in tail ==> x in s
    ensures Filter(Like(less, pivot), StableSort(less, tail)) == Filter(Like(less, pivot), tail)
  {
    hide StableSort, Filter;
    var like := Like(less, pivot);
    StrictWeakSub(less, s, tail);
    FilterSort(less, like, tail);
    FilterMember(like, tail);
    SortTrivial(less, Filter(like, tail));
  }

  /** Cutting first or mapping first gives the same. */
  lemma MapTake<A, B>(f: A -> B, s: seq<A>, limit: Option<nat>)
    ensures Take(Map(f, s), limit) == Map(f, Take(s, limit))
    ensures Take(Map(f, Take(s, limit)), limit) == Take(Map(f, s), limit)
  {
  }

  // ---------------------------------------------------------------- the first elements in a strict order

  /**
     Some of the elements of s in strict order, with none of the others before them. They are not more than
     the limit, and less only if they are all.
     */
  ghost predicate Firsts<T>(before: (T, T) -> bool, s: seq<T>, limit: Option<nat>, a: seq<T>) {
    && StrictlySorted(before, a) && (forall x :: x in a ==> x in s)
    && (limit.Some? ==> |a| <= limit.value)
    && (forall x :: x in s && x !in a ==> limit == Some(|a|) && forall k :: 0 <= k < |a| ==> before(a[k], x))
  }

  /** There is one choice of first elements only. */
  lemma FirstsUnique<T>(before: (T, T) -> bool, s: seq<T>, limit: Option<nat>, a: seq<T>, b: seq<T>)
    requires AsymmetricOn(before, s) && Firsts(before, s, limit, a) && Firsts(before, s, limit, b)
    ensures a == b
  {
    var n := if |a| < |b| then |a| else |b|;
    FirstsAgree(before, s, limit, a, b, n);
    StrictDistinct(before, s, a);
    StrictDistinct(before, s, b);
    assert a[..|a|] == a && b[..|b|] == b;
    if |a| < |b| {
      BeyondIsNew(a, b);
    } else if |b| < |a| {
      BeyondIsNew(b, a);
    }
  }

  lemma {:induction false} FirstsAgree<T>(before: (T, T) -> bool, s: seq<T>, limit: Option<nat>, a: seq<T>, b: seq<T>, n: nat)
    requires AsymmetricOn(before, s) && Firsts(before, s, limit, a) && Firsts(before, s, limit, b) && n <= |a| && n <= |b|
    ensures a[..n] == b[..n]
  {
    if n > 0 {
      var i := n - 1;
      FirstsAgree(before, s, limit, a, b, i);
      assert a[i] in s && b[i] in s;
      if a[i] != b[i] {
        FirstsDiffer(before, s, limit, a, b, i);
        FirstsDiffer(before, s, limit, b, a, i);
      }
      assert a[..n] == a[..i] + [a[i]] && b[..n] == b[..i] + [b[i]];
    }
  }

  /** Where two choices differ first, each element would have to come before the other. */
  lemma FirstsDiffer<T>(before: (T, T) -> bool, s: seq<T>, limit: Option<nat>, a: seq<T>, b: seq<T>, i: nat)
    requires AsymmetricOn(before, s) && Firsts(before, s, limit, a) && Firsts(before, s, limit, b)
    requires i < |a| && i < |b| && a[..i] == b[..i] && a[i] != b[i]
    ensures before(b[i], a[i])
  {
    assert a[i] in s && !before(a[i], a[i]);
    assert forall j :: 0 <= j < i ==> a[..i][j] == b[..i][j] && before(a[j], a[i]);
    if a[i] in b {
      var j :| 0 <= j < |b| && b[j] == a[i];
    }
  }

  lemma BeyondIsNew<T>(a: seq<T>, b: seq<T>)
    requires |a| < |b| && b[..|a|] == a && forall i, j :: 0 <= i < j < |b| ==> b[i] != b[j]
    ensures b[|a|] in b && b[|a|] !in a
  {
    assert forall i :: 0 <= i < |a| ==> a[i] == b[..|a|][i] == b[i];
  }

  lemma StrictDistinct<T>(before: (T, T) -> bool, s: seq<T>, a: seq<T>)
    requires AsymmetricOn(before, s) && StrictlySorted(before, a) && forall x :: x in a ==> x in s
    ensures forall i, j :: 0 <= i < j < |a| ==> a[i] != a[j]
  {
    forall i, j | 0 <= i < j < |a|
      ensures a[i] != a[j]
    {
      assert before(a[i], a[j]) && a[i] in s && a[j] in s;
    }
  }

  /** In a strictly sorted list of all elements, the first ones stand in front. */
  lemma FirstsInFront<T>(before: (T, T) -> bool, s: seq<T>, r: seq<T>, limit: Option<nat>)
    requires StrictlySorted(before, r) && forall x :: x in r <==> x in s
    ensures Firsts(before, s, limit, Take(r, limit))
  {
    var a := Take(r, limit);
    assert forall k :: 0 <= k < |a| ==> a[k] == r[k] && a[k] in a;
    forall x | x in s && x !in a
      ensures limit == Some(|a|) && forall k :: 0 <= k < |a| ==> before(a[k], x)
    {
      var i :| 0 <= i < |r| && r[i] == x;
    }
  }

  /** A stable sort of a strictly sorted list is strictly sorted by both orderings. */
  lemma SortStrict<T>(less: (T, T) -> bool, tie: (T, T) -> bool, s: seq<T>)
    requires StrictWeakOn(less, s) && StrictlySorted(tie, s) && AsymmetricOn(tie, s)
    ensures StrictlySorted(Lexicographic(less, tie), StableSort(less, s))
  {
    hide StableSort, Filter;
    var r := StableSort(less, s);
    SortIsStable(less, s);
    SortElements(less, s);
    forall i, j | 0 <= i < j < |r|
      ensures Lexicographic(less, tie)(r[i], r[j])
    {
      if !less(r[i], r[j]) {
        var p := Like(less, r[i]);
        assert r[i] in r && r[j] in r;
        LikeItself(less, s, r[i]);
        FilterSorted(tie, p, s);
        FilterTies(tie, p, r, i, j);
      }
    }
  }

  lemma {:induction false} FilterTies<T>(tie: (T, T) -> bool, p: T -> bool, s: seq<T>, i: nat, j: nat)
    requires i < j < |s| && p(s[i]) && p(s[j]) && StrictlySorted(tie, Filter(p, s))
    ensures tie(s[i], s[j])
  {
    var rest := Filter(p, s[1..]);
    if i == 0 {
      FilterMember(p, s[1..]);
      assert s[1..][j - 1] in rest;
      var k :| 0 <= k < |rest| && rest[k] == s[j];
      assert Filter(p, s)[0] == s[0] && Filter(p, s)[k + 1] == s[j];
    } else {
      assert forall k :: 0 <= k < |rest| ==> rest[k] == Filter(p, s)[k + if p(s[0]) then 1 else 0];
      FilterTies(tie, p, s[1..], i - 1, j - 1);
    }
  }

  lemma LexicographicAsymmetric<T>(less: (T, T) -> bool, tie: (T, T) -> bool, s: seq<T>)
    requires StrictWeakOn(less, s) && AsymmetricOn(tie, s)
    ensures AsymmetricOn(Lexicographic(less, tie), s)
  {
  }
}
