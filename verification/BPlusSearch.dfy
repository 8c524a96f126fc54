/** What lookups in an ordered chain of leaves have to return. */
module BPlusSearch {
  import opened Wrappers
  import opened Stores
  import opened BPlusNodes
  import opened BPlusTrees

  /** The row ids stored under a key, in entry order. */
  function WithKey(es: seq<Entry>, key: int64): seq<RecordId> {
    if es == [] then [] else (if es[0].key == key then [es[0].value] else []) + WithKey(es[1..], key)
  }

  predicate InBounds(lower: Option<int64>, upper: Option<int64>, key: int64) {
    (lower.Some? ==> lower.value <= key) && (upper.Some? ==> key <= upper.value)
  }

  /** The entries within inclusive bounds, in entry order. */
  function Between(es: seq<Entry>, lower: Option<int64>, upper: Option<int64>): seq<Entry> {
    if es == [] then [] else (if InBounds(lower, upper, es[0].key) then [es[0]] else []) + Between(es[1..], lower, upper)
  }

  lemma {:induction false} WithKeyConcat(a: seq<Entry>, b: seq<Entry>, key: int64)
    ensures WithKey(a + b, key) == WithKey(a, key) + WithKey(b, key)
  {
    if a == [] {
      assert a + b == b;
    } else {
      WithKeyConcat(a[1..], b, key);
      assert (a + b)[1..] == a[1..] + b && (a + b)[0] == a[0];
      var first := if a[0].key == key then [a[0].value] else [];
      assert first + (WithKey(a[1..], key) + WithKey(b, key)) == first + WithKey(a[1..], key) + WithKey(b, key);
    }
  }

  lemma {:induction false} BetweenConcat(a: seq<Entry>, b: seq<Entry>, lower: Option<int64>, upper: Option<int64>)
    ensures Between(a + b, lower, upper) == Between(a, lower, upper) + Between(b, lower, upper)
  {
    if a == [] {
      assert a + b == b;
    } else {
      BetweenConcat(a[1..], b, lower, upper);
      assert (a + b)[1..] == a[1..] + b && (a + b)[0] == a[0];
      var first := if InBounds(lower, upper, a[0].key) then [a[0]] else [];
      assert first + (Between(a[1..], lower, upper) + Between(b, lower, upper))
          == first + Between(a[1..], lower, upper) + Between(b, lower, upper);
    }
  }

  lemma {:induction false} WithKeyNone(es: seq<Entry>, key: int64)
    requires forall e :: e in es ==> e.key != key
    ensures WithKey(es, key) == []
  {
    if es != [] {
      assert es[0] in es;
      WithKeyNone(es[1..], key);
    }
  }

  lemma {:induction false} BetweenNone(es: seq<Entry>, lower: Option<int64>, upper: Option<int64>)
    requires forall e :: e in es ==> !InBounds(lower, upper, e.key)
    ensures Between(es, lower, upper) == []
  {
    if es != [] {
      assert es[0] in es;
      BetweenNone(es[1..], lower, upper);
    }
  }

  /** A key lookup lists exactly the row ids stored under the key, by page and slot. */
  lemma {:induction false} WithKeyExact(es: seq<Entry>, key: int64)
    requires Ordered(es)
    ensures forall id :: id in WithKey(es, key) <==> Entry(key, id) in es
    ensures IdsAscending(WithKey(es, key))
  {
    if es != [] {
      WithKeyExact(es[1..], key);
      var rest := WithKey(es[1..], key);
      assert es == [es[0]] + es[1..];
      if es[0].key == key {
        forall id | id in rest
          ensures IdLess(es[0].value, id)
        {
          var k :| 0 <= k < |es[1..]| && es[1..][k] == Entry(key, id);
          assert EntryLess(es[0], es[k + 1]);
        }
        IdsAscendingCons(es[0].value, rest);
      }
    }
  }

  predicate IdsAscending(ids: seq<RecordId>) {
    forall i, j :: 0 <= i < j < |ids| ==> IdLess(ids[i], ids[j])
  }

  lemma IdsAscendingCons(first: RecordId, rest: seq<RecordId>)
    requires IdsAscending(rest) && forall id :: id in rest ==> IdLess(first, id)
    ensures IdsAscending([first] + rest)
  {
    assert forall i :: 0 <= i < |rest| ==> rest[i] in rest;
  }

  /** A range lists exactly the entries within the bounds, in entry order. */
  lemma {:induction false} BetweenExact(es: seq<Entry>, lower: Option<int64>, upper: Option<int64>)
    requires Ordered(es)
    ensures forall e :: e in Between(es, lower, upper) <==> e in es && InBounds(lower, upper, e.key)
    ensures Ordered(Between(es, lower, upper))
  {
    if es != [] {
      BetweenExact(es[1..], lower, upper);
      var rest := Between(es[1..], lower, upper);
      assert es == [es[0]] + es[1..];
      forall i | 0 <= i < |rest|
        ensures EntryLess(es[0], rest[i])
      {
        assert rest[i] in rest;
        assert rest[i] in es[1..];
      }
    }
  }

  /** Nothing before the routed leaf has the key. */
  lemma RouteKeySkips(t: Tree, key: int64)
    requires WellFormed(t) && |t.leaves| > 1
    ensures var c := RouteKey(ChildrenOf(t.leaves), key);
      forall e :: e in Flatten(t.leaves[..c]) ==> e.key < key
  {
    var cs := ChildrenOf(t.leaves);
    var c := RouteKey(cs, key);
    forall e | e in Flatten(t.leaves[..c])
      ensures e.key < key
    {
      InFlatten(t.leaves[..c], e);
      var i :| 0 <= i < c && e in t.leaves[..c][i].entries;
      HighIsLast(t.leaves[i], e);
      assert cs[i].high.key < key;
    }
  }

  /** Once a leaf ends above the key, so does everything behind it. */
  lemma BehindIsLarger(t: Tree, i: nat)
    requires WellFormed(t) && i < |t.leaves| && t.leaves[i].entries != []
    ensures forall e :: e in Flatten(t.leaves[i + 1..]) ==> EntryLess(High(t.leaves[i]), e)
  {
    forall e | e in Flatten(t.leaves[i + 1..])
      ensures EntryLess(High(t.leaves[i]), e)
    {
      InFlatten(t.leaves[i + 1..], e);
      var j :| 0 <= j < |t.leaves[i + 1..]| && e in t.leaves[i + 1..][j].entries;
      assert e in t.leaves[i + 1 + j].entries;
      assert AllBefore(t.leaves[i].entries, t.leaves[i + 1 + j].entries);
      assert High(t.leaves[i]) in t.leaves[i].entries;
    }
  }

  lemma BehindHasNoKey(t: Tree, i: nat, key: int64)
    requires WellFormed(t) && i < |t.leaves| && t.leaves[i].entries != [] && High(t.leaves[i]).key > key
    ensures WithKey(Flatten(t.leaves[i + 1..]), key) == []
  {
    BehindIsLarger(t, i);
    forall e | e in Flatten(t.leaves[i + 1..])
      ensures e.key != key
    {
      assert EntryLess(High(t.leaves[i]), e);
    }
    WithKeyNone(Flatten(t.leaves[i + 1..]), key);
  }

  lemma BehindIsAbove(t: Tree, i: nat, lower: Option<int64>, upper: Option<int64>)
    requires WellFormed(t) && i < |t.leaves| && t.leaves[i].entries != []
    requires upper.Some? && High(t.leaves[i]).key > upper.value
    ensures Between(Flatten(t.leaves[i + 1..]), lower, upper) == []
  {
    BehindIsLarger(t, i);
    forall e | e in Flatten(t.leaves[i + 1..])
      ensures !InBounds(lower, upper, e.key)
    {
      assert EntryLess(High(t.leaves[i]), e);
    }
    BetweenNone(Flatten(t.leaves[i + 1..]), lower, upper);
  }

  lemma FlattenFrom(leaves: seq<Node>, i: nat)
    requires i < |leaves|
    ensures Flatten(leaves[i..]) == leaves[i].entries + Flatten(leaves[i + 1..])
  {
    assert leaves[i..][1..] == leaves[i + 1..];
  }

  lemma FlattenSplit(leaves: seq<Node>, i: nat)
    requires i <= |leaves|
    ensures Flatten(leaves) == Flatten(leaves[..i]) + Flatten(leaves[i..])
  {
    FlattenConcat(leaves[..i], leaves[i..]);
    assert leaves == leaves[..i] + leaves[i..];
  }

  // ---------------------------------------------------------------- one leaf

  /** Adds the matches of one leaf to the result, up to the limit. */
  method CollectKey(es: seq<Entry>, key: int64, limit: Option<nat>, found: seq<RecordId>)
    returns (result: seq<RecordId>, full: bool)
    requires limit.Some? ==> |found| < limit.value
    ensures full ==> limit.Some? && |result| == limit.value && result <= found + WithKey(es, key)
    ensures !full ==> result == found + WithKey(es, key) && (limit.Some? ==> |result| < limit.value)
  {
    result := found;
    for i := 0 to |es|
      invariant result + WithKey(es[i..], key) == found + WithKey(es, key)
      invariant limit.Some? ==> |result| < limit.value
    {
      assert es[i..][1..] == es[i + 1..];
      if es[i].key == key {
        result := result + [es[i].value];
        assert result + WithKey(es[i + 1..], key) == found + WithKey(es, key);
        if limit == Some(|result|) {
          return result, true;
        }
      }
    }
    full := false;
  }

  /** Adds the entries of one leaf that lie within the bounds; stops above the upper bound. */
  method CollectRange(es: seq<Entry>, lower: Option<int64>, upper: Option<int64>, limit: Option<nat>, found: seq<Entry>)
    returns (result: seq<Entry>, stop: bool)
    requires Ordered(es)
    requires limit.Some? ==> |found| < limit.value
    ensures result <= found + Between(es, lower, upper)
    ensures limit.Some? ==> |result| <= limit.value
    ensures !stop ==> result == found + Between(es, lower, upper) && (limit.Some? ==> |result| < limit.value)
    ensures stop ==>
      || limit == Some(|result|)
      || (es != [] && upper.Some? && es[|es| - 1].key > upper.value && result == found + Between(es, lower, upper))
  {
    result := found;
    for i := 0 to |es|
      invariant result + Between(es[i..], lower, upper) == found + Between(es, lower, upper)
      invariant limit.Some? ==> |result| < limit.value
    {
      assert es[i..][1..] == es[i + 1..];
      if lower.Some? && es[i].key < lower.value {
        continue;
      }
      if upper.Some? && es[i].key > upper.value {
        forall e | e in es[i..]
          ensures !InBounds(lower, upper, e.key)
        {
          AboveStaysAbove(es, i, e);
        }
        BetweenNone(es[i..], lower, upper);
        AboveStaysAbove(es, i, es[|es| - 1]);
        return result, true;
      }
      result := result + [es[i]];
      assert result + Between(es[i + 1..], lower, upper) == found + Between(es, lower, upper);
      if limit == Some(|result|) {
        return result, true;
      }
    }
    stop := false;
  }

  lemma AboveStaysAbove(es: seq<Entry>, i: nat, e: Entry)
    requires Ordered(es) && i < |es| && e in es[i..]
    ensures es[i].key <= e.key
  {
    var j :| 0 <= j < |es[i..]| && es[i..][j] == e;
    assert e == es[i + j];
    if j > 0 {
      assert EntryLess(es[i], es[i + j]);
    }
  }
}
