/** Trees filled in ascending order: how many entries fit, and one that cannot be put back once it is erased. */
module AscendingTrees {
  import opened Wrappers
  import opened Stores
  import opened BPlusNodes
  import opened BPlusTrees
  import opened BPlusTreeLaws
  import opened TreeShapes

  /** Every leaf before leaf i has half a leaf of entries. */
  function Front(i: nat): nat { 64 * i }

  /** Splits have left half a leaf everywhere; the last leaf has the rest. */
  predicate Halves(ls: seq<seq<Entry>>, es: seq<Entry>) {
    && 0 < |ls| <= INTERNAL_CAPACITY
    && var last := |ls| - 1;
    && Front(last) <= |es| <= Front(last) + LEAF_CAPACITY
    && (last > 0 ==> Front(last) + 64 < |es|)
    && (forall i :: 0 <= i < last ==> Front(i) + 64 <= |es| && ls[i] == es[Front(i)..Front(i) + 64])
    && ls[last] == es[Front(last)..]
  }

  lemma HalvesAt(ls: seq<seq<Entry>>, es: seq<Entry>, i: nat)
    requires Halves(ls, es) && i < |ls| - 1
    ensures Front(i) + 64 <= |es| && ls[i] == es[Front(i)..Front(i) + 64] && |ls[i]| == 64
    ensures forall x :: x in ls[i] ==> x in es
  {
  }

  // ---------------------------------------------------------------- the next entry

  lemma {:induction false} RoutedLast(ls: seq<seq<Entry>>, e: Entry)
    requires ls != [] && forall i :: 0 <= i < |ls| - 1 ==> ls[i] != [] && EntryLess(ls[i][|ls[i]| - 1], e)
    ensures Routed(ls, e) == |ls| - 1
  {
    if |ls| > 1 {
      assert forall i :: 0 <= i < |ls[1..]| ==> ls[1..][i] == ls[i + 1];
      RoutedLast(ls[1..], e);
    }
  }

  lemma AddedBehind(es: seq<Entry>, e: Entry)
    requires forall x :: x in es ==> EntryLess(x, e)
    ensures e !in es && WithEntry(es, e) == es + [e]
  {
    assert !EntryLess(e, e);
    hide EntryLess;
    var p := LowerBound(es, e);
    forall i | 0 <= i < |es|
      ensures EntryLess(es[i], e)
    {
      assert es[i] in es;
    }
    assert p == |es|;
    assert es[..p] == es && es[p..] == [];
  }

  /** A greater entry goes to the end of the last leaf. */
  lemma GrownAtEnd(ls: seq<seq<Entry>>, es: seq<Entry>, e: Entry)
    requires Halves(ls, es) && forall x :: x in es ==> EntryLess(x, e)
    ensures var k, last := |ls| - 1, ls[|ls| - 1] + [e];
      Grown(ls, e) == if |last| <= LEAF_CAPACITY then Some(ls[k := last])
                      else if |ls| == INTERNAL_CAPACITY then None
                      else Some(ls[..k] + [last[..64], last[64..]])
  {
    var k := |ls| - 1;
    assert ls[k + 1..] == [];
    assert forall x :: x in ls[k] ==> x in es;
    forall i | 0 <= i < k
      ensures ls[i] != [] && EntryLess(ls[i][|ls[i]| - 1], e)
    {
      HalvesAt(ls, es, i);
    }
    assert |ls[k]| <= LEAF_CAPACITY;
    hide Halves, EntryLess, WithEntry, Routed;
    RoutedLast(ls, e);
    AddedBehind(ls[k], e);
    var last := ls[k] + [e];
    if |last| > LEAF_CAPACITY {
      assert ls[..k] + [last[..64], last[64..]] + [] == ls[..k] + [last[..64], last[64..]];
    }
  }

  /** The next entry keeps the shape, in place or by a split, until there are 8256. */
  lemma NextInOrder(ls: seq<seq<Entry>>, es: seq<Entry>, e: Entry)
    requires Halves(ls, es) && forall x :: x in es ==> EntryLess(x, e)
    ensures |es| <= SURE_CAPACITY && (Grown(ls, e) == None <==> |es| == SURE_CAPACITY)
    ensures Grown(ls, e).Some? ==> Halves(Grown(ls, e).value, es + [e])
  {
    hide Grown;
    GrownAtEnd(ls, es, e);
    var k := |ls| - 1;
    if Grown(ls, e).Some? {
      var grown, all := Grown(ls, e).value, es + [e];
      forall i | 0 <= i < k
        ensures grown[i] == ls[i] && all[Front(i)..Front(i) + 64] == ls[i]
      {
        HalvesAt(ls, es, i);
      }
      assert all[Front(k)..] == es[Front(k)..] + [e];
      if |grown| > |ls| {
        assert all[Front(k)..Front(k) + 64] == all[Front(k)..][..64] && all[Front(k) + 64..] == all[Front(k)..][64..];
      }
    }
  }

  /** A tree takes entries in ascending order exactly up to 8256 of them. */
  lemma {:induction false} AscendingFill(es: seq<Entry>)
    requires Ordered(es)
    ensures Filled(es).Some? <==> |es| <= SURE_CAPACITY
    ensures Filled(es).Some? ==> Halves(Filled(es).value, es)
  {
    if es != [] {
      hide Grown, Halves, Filled, EntryLess;
      var front, e := es[..|es| - 1], es[|es| - 1];
      AscendingFill(front);
      assert front + [e] == es;
      FilledMore(front, e);
      if Filled(front).Some? {
        NextInOrder(Filled(front).value, front, e);
      }
    }
  }

  // ---------------------------------------------------------------- trees of this shape

  predicate Ascended(t: Tree, es: seq<Entry>) {
    WellFormed(t) && Halves(ShapeOf(t.leaves), es)
  }

  lemma EmptyAscended(header: RecordId, leaf: RecordId)
    requires header != leaf && LinkFits(header) && LinkFits(leaf)
    ensures Ascended(EmptyTree(header, leaf), [])
  {
    EmptyTreeWellFormed(header, leaf);
  }

  /** Inserting the next entry keeps the shape. */
  lemma AscendStep(t: Tree, es: seq<Entry>, e: Entry, rightId: RecordId, rootId: RecordId)
    requires Ascended(t, es) && |es| < SURE_CAPACITY && IdFits(e.value) && forall x :: x in es ==> EntryLess(x, e)
    requires Splits(t, e) ==> FreshIds(t, rightId, rootId)
    ensures var r := InsertInto(t, e, rightId, rootId);
      && r.Inserted? && Ascended(r.tree, es + [e]) && EntrySet(r.tree) == EntrySet(t) + {e}
  {
    hide WellFormed, EntrySet, FreshIds, Halves, InsertInto, Rejects, Splits, Grown;
    AscendTakes(t, es, e);
    NextInOrder(ShapeOf(t.leaves), es, e);
    GrownSame(t, e, rightId, rootId);
    InsertRefinesSet(t, e, rightId, rootId);
  }

  /** There is a place for the next entry. */
  lemma AscendTakes(t: Tree, es: seq<Entry>, e: Entry)
    requires Ascended(t, es) && |es| < SURE_CAPACITY && forall x :: x in es ==> EntryLess(x, e)
    ensures WellFormed(t) && !Rejects(t, e) && e !in EntrySet(t)
  {
    hide WellFormed, EntrySet, Halves, InsertInto, Rejects, Grown;
    NextInOrder(ShapeOf(t.leaves), es, e);
    GrownSame(t, e, t.header, t.header);
    RootFullIsRejection(t, e, t.header, t.header);
    assert !EntryLess(e, e);
    AscendedHas(t, es, e);
  }

  lemma AscendedHas(t: Tree, es: seq<Entry>, e: Entry)
    requires Halves(ShapeOf(t.leaves), es) && e !in es
    ensures e !in EntrySet(t)
  {
    InFlatten(t.leaves, e);
    if i :| 0 <= i < |t.leaves| && e in t.leaves[i].entries {
      assert e in ShapeOf(t.leaves)[i];
      if i < |t.leaves| - 1 {
        HalvesAt(ShapeOf(t.leaves), es, i);
      }
    }
  }

  /** With 8256 entries there are 128 leaves, the last of them full. */
  lemma FullHalves(ls: seq<seq<Entry>>, es: seq<Entry>)
    requires Halves(ls, es) && |es| == SURE_CAPACITY
    ensures |ls| == INTERNAL_CAPACITY && |ls[INTERNAL_CAPACITY - 1]| == LEAF_CAPACITY
    ensures var n := ls[INTERNAL_CAPACITY - 2];
      |n| == 64 && n[63] == es[SURE_CAPACITY - LEAF_CAPACITY - 1]
  {
    assert |ls| == INTERNAL_CAPACITY;
    HalvesAt(ls, es, INTERNAL_CAPACITY - 2);
  }

  /** The greatest entry of the last leaf but one: after an erasure it belongs into the last leaf, which is full. */
  lemma AscendedBlocked(t: Tree, es: seq<Entry>)
    requires Ascended(t, es) && |es| == SURE_CAPACITY
    ensures var e := es[SURE_CAPACITY - LEAF_CAPACITY - 1];
      e in EntrySet(t) && RestoreBlocked(t, e)
  {
    hide WellFormed, EntrySet, RouteLeaf, Halves;
    FullHalves(ShapeOf(t.leaves), es);
    LeafInSet(t, INTERNAL_CAPACITY - 2);
    RouteToOwn(t, INTERNAL_CAPACITY - 2);
  }

  /** The greatest entry of a leaf is routed there. */
  lemma RouteToOwn(t: Tree, c: nat)
    requires WellFormed(t) && |t.leaves| > 1 && c < |t.leaves|
    ensures RouteLeaf(t, High(t.leaves[c])) == c
  {
    hide DistinctIds, NodeOk;
    var e := High(t.leaves[c]);
    var d := RouteLeaf(t, e);
    RouteSplits(t, e);
    assert e in t.leaves[c].entries && e in [e];
    assert !EntryLess(e, e);
  }

  // ---------------------------------------------------------------- a run that leads there

  /** The entries of a run with keys 0, 1, 2 and so on. */
  function Counting(n: nat): (es: seq<Entry>)
    requires n <= SURE_CAPACITY
    ensures |es| == n && forall i :: 0 <= i < n ==> es[i] == Entry(i, RecordId(i, 0))
  {
    seq(n, i requires 0 <= i < n => Entry(i, RecordId(i, 0)))
  }

  /** All records of the tree lie on pages below p. */
  predicate OwnedBelow(t: Tree, p: nat) {
    t.header.page < p && t.root.page < p && forall i :: 0 <= i < |t.leaves| ==> t.leaves[i].id.page < p
  }

  /** Each insertion brings two new record ids with it. */
  lemma {:induction false} AscendingRun(n: nat) returns (trace: seq<Tree>, ops: seq<TreeOp>)
    requires n <= SURE_CAPACITY
    ensures IsRun(trace, ops) && |ops| == n && trace[0] == EmptyTree(RecordId(0, 0), RecordId(1, 0))
    ensures forall i :: 0 <= i < n ==> ops[i].Insert?
    ensures Ascended(trace[n], Counting(n)) && OwnedBelow(trace[n], 2 * n + 2)
  {
    if n == 0 {
      trace, ops := [EmptyTree(RecordId(0, 0), RecordId(1, 0))], [];
      EmptyAscended(RecordId(0, 0), RecordId(1, 0));
      assert Counting(0) == [];
    } else {
      var before, done := AscendingRun(n - 1);
      var t := before[n - 1];
      var op := Insert(Entry(n - 1, RecordId(n - 1, 0)), RecordId(2 * n, 0), RecordId(2 * n + 1, 0));
      CountingStep(t, n, op.rightId, op.rootId);
      trace, ops := before + [Step(t, op)], done + [op];
      RunExtended(before, done, op);
    }
  }

  lemma RunExtended(trace: seq<Tree>, ops: seq<TreeOp>, op: TreeOp)
    requires IsRun(trace, ops) && OpOk(trace[|ops|], op)
    ensures IsRun(trace + [Step(trace[|ops|], op)], ops + [op])
  {
    hide Step, OpOk;
  }

  /** The next entry in order. */
  lemma CountingNext(n: nat)
    requires 0 < n <= SURE_CAPACITY
    ensures var e := Entry(n - 1, RecordId(n - 1, 0));
      Counting(n) == Counting(n - 1) + [e] && IdFits(e.value) && forall x :: x in Counting(n - 1) ==> EntryLess(x, e)
  {
    var e := Entry(n - 1, RecordId(n - 1, 0));
    forall x | x in Counting(n - 1)
      ensures EntryLess(x, e)
    {
      var i :| 0 <= i < n - 1 && Counting(n - 1)[i] == x;
    }
  }

  lemma NextAreFresh(t: Tree, p: nat)
    requires OwnedBelow(t, p) && p + 1 < NO_PAGE
    ensures FreshIds(t, RecordId(p, 0), RecordId(p + 1, 0))
  {
  }

  /** Insertion hands out no other ids than the two given to it. */
  lemma StillBelow(t: Tree, p: nat, e: Entry)
    requires WellFormed(t) && OwnedBelow(t, p)
    ensures OwnedBelow(Step(t, Insert(e, RecordId(p, 0), RecordId(p + 1, 0))), p + 2)
  {
    hide WellFormed, LowerBound, RouteLeaf, WithEntry;
  }

  lemma CountingStep(t: Tree, n: nat, rightId: RecordId, rootId: RecordId)
    requires 0 < n <= SURE_CAPACITY && Ascended(t, Counting(n - 1)) && OwnedBelow(t, 2 * n)
    requires rightId == RecordId(2 * n, 0) && rootId == RecordId(2 * n + 1, 0)
    ensures var op := Insert(Entry(n - 1, RecordId(n - 1, 0)), rightId, rootId);
      OpOk(t, op) && Ascended(Step(t, op), Counting(n)) && OwnedBelow(Step(t, op), 2 * n + 2)
  {
    hide WellFormed, EntrySet, Ascended, Splits, InsertInto, FreshIds, OwnedBelow, Counting, IdFits;
    var e := Entry(n - 1, RecordId(n - 1, 0));
    CountingNext(n);
    AscendedWellFormed(t, Counting(n - 1));
    NextAreFresh(t, 2 * n);
    AscendStep(t, Counting(n - 1), e, rightId, rootId);
    StillBelow(t, 2 * n, e);
  }

  lemma AscendedWellFormed(t: Tree, es: seq<Entry>)
    requires Ascended(t, es)
    ensures WellFormed(t)
  {
  }

  /** After SURE_CAPACITY insertions in ascending order, this entry can be erased but not be put back. */
  lemma RestoreCanFail() returns (trace: seq<Tree>, ops: seq<TreeOp>)
    ensures IsRun(trace, ops) && |ops| == SURE_CAPACITY && trace[0] == EmptyTree(RecordId(0, 0), RecordId(1, 0))
    ensures forall i :: 0 <= i < |ops| ==> ops[i].Insert?
    ensures var t, e := trace[SURE_CAPACITY], Counting(SURE_CAPACITY)[SURE_CAPACITY - LEAF_CAPACITY - 1];
      && WellFormed(t) && e in EntrySet(t) && RestoreBlocked(t, e)
      && EraseFrom(t, e).Some? && WellFormed(EraseFrom(t, e).value) && Rejects(EraseFrom(t, e).value, e)
  {
    hide EntrySet, EraseFrom, Rejects, RestoreBlocked, WellFormed, Ascended, IsRun;
    trace, ops := AscendingRun(SURE_CAPACITY);
    var t, e := trace[SURE_CAPACITY], Counting(SURE_CAPACITY)[SURE_CAPACITY - LEAF_CAPACITY - 1];
    AscendedWellFormed(t, Counting(SURE_CAPACITY));
    AscendedBlocked(t, Counting(SURE_CAPACITY));
    RestoreRejected(t, e);
  }
}
