/** What follows from the tree operations over whole runs. */
module BPlusTreeLaws {
  import opened Stores
  import opened BPlusNodes
  import opened BPlusTrees

  datatype TreeOp = Insert(entry: Entry, rightId: RecordId, rootId: RecordId) | Erase(entry: Entry)

  function EmptyTree(header: RecordId, leaf: RecordId): Tree {
    Tree(header, leaf, [Node(leaf, [])])
  }

  /** One operation; a rejected one leaves the tree as it is. */
  function Step(t: Tree, op: TreeOp): Tree {
    if !WellFormed(t) then t else
    match op
    case Insert(e, rightId, rootId) =>
      (match InsertInto(t, e, rightId, rootId)
       case Inserted(t') => t'
       case _ => t)
    case Erase(e) => var r := EraseFrom(t, e); if r.Some? then r.value else t
  }

  /** The record ids handed out are new to the tree, and row ids fit their fields. */
  predicate OpOk(t: Tree, op: TreeOp) {
    && IdFits(op.entry.value)
    && (op.Insert? && WellFormed(t) && Splits(t, op.entry) ==> FreshIds(t, op.rightId, op.rootId))
  }

  lemma StepWellFormed(t: Tree, op: TreeOp)
    requires WellFormed(t) && OpOk(t, op)
    ensures WellFormed(Step(t, op))
  {
    hide InsertInto, EraseFrom, EntrySet, WellFormed;
    if op.Insert? {
      InsertRefinesSet(t, op.entry, op.rightId, op.rootId);
    } else {
      EraseRefinesSet(t, op.entry);
    }
  }

  /** `trace` lists the trees of a run of `ops` that starts with trace[0]. */
  predicate IsRun(trace: seq<Tree>, ops: seq<TreeOp>) {
    && |trace| == |ops| + 1
    && forall i :: 0 <= i < |ops| ==> OpOk(trace[i], ops[i]) && trace[i + 1] == Step(trace[i], ops[i])
  }

  lemma EmptyTreeWellFormed(header: RecordId, leaf: RecordId)
    requires header != leaf && LinkFits(header) && LinkFits(leaf)
    ensures WellFormed(EmptyTree(header, leaf)) && EntrySet(EmptyTree(header, leaf)) == {}
  {
    FlattenOne(Node(leaf, []));
  }

  // ---------------------------------------------------------------- sizes

  lemma {:induction false} FlattenSize(leaves: seq<Node>)
    requires forall i :: 0 <= i < |leaves| ==> |leaves[i].entries| <= LEAF_CAPACITY
    ensures |Flatten(leaves)| <= LEAF_CAPACITY * |leaves|
  {
    if leaves != [] {
      FlattenSize(leaves[1..]);
    }
  }

  lemma {:induction false} OrderedCount(es: seq<Entry>)
    requires Ordered(es)
    ensures |set e | e in es| == |es|
  {
    if es != [] {
      var n := |es| - 1;
      OrderedCount(es[..n]);
      assert (set e | e in es) == (set e | e in es[..n]) + {es[n]};
      assert es[n] !in es[..n] by {
        assert !EntryLess(es[n], es[n]);
      }
    }
  }

  lemma EntryCount(t: Tree)
    requires WellFormed(t)
    ensures |EntrySet(t)| == |Flatten(t.leaves)| <= INTERNAL_CAPACITY * LEAF_CAPACITY
  {
    FlattenOrdered(t.leaves);
    OrderedCount(Flatten(t.leaves));
    FlattenSize(t.leaves);
  }

  lemma {:induction false} RunWellFormed(trace: seq<Tree>, ops: seq<TreeOp>, header: RecordId, leaf: RecordId, k: nat)
    requires header != leaf && LinkFits(header) && LinkFits(leaf)
    requires IsRun(trace, ops) && trace[0] == EmptyTree(header, leaf) && k <= |ops|
    ensures WellFormed(trace[k])
  {
    hide WellFormed, Step, EntrySet;
    if k == 0 {
      EmptyTreeWellFormed(header, leaf);
    } else {
      RunWellFormed(trace, ops, header, leaf, k - 1);
      StepWellFormed(trace[k - 1], ops[k - 1]);
    }
  }

  /** In every tree that a run reaches, all invariants hold and the node count is conserved. */
  lemma ReachableTrees(trace: seq<Tree>, ops: seq<TreeOp>, header: RecordId, leaf: RecordId)
    requires header != leaf && LinkFits(header) && LinkFits(leaf)
    requires IsRun(trace, ops) && trace[0] == EmptyTree(header, leaf)
    ensures forall k :: 0 <= k <= |ops| ==>
      var t := trace[k];
      && WellFormed(t)
      && |Owned(t)| == |t.leaves| + Height(t)
      && (EntrySet(t) == {} ==> Height(t) == 1)
      && |EntrySet(t)| <= INTERNAL_CAPACITY * LEAF_CAPACITY
  {
    hide Step, EntrySet, Owned;
    forall k | 0 <= k <= |ops|
      ensures WellFormed(trace[k]) && |Owned(trace[k])| == |trace[k].leaves| + Height(trace[k])
      ensures (EntrySet(trace[k]) == {} ==> Height(trace[k]) == 1)
      ensures |EntrySet(trace[k])| <= INTERNAL_CAPACITY * LEAF_CAPACITY
    {
      RunWellFormed(trace, ops, header, leaf, k);
      NodeConservation(trace[k]);
      EntryCount(trace[k]);
    }
  }

  // ---------------------------------------------------------------- insert-only runs

  /** Half-full leaves and a full one: a tree that has only been inserted into takes this many entries in any order. */
  const SURE_CAPACITY := (INTERNAL_CAPACITY - 1) * (LEAF_CAPACITY / 2) + LEAF_CAPACITY

  predicate HalfFull(t: Tree) {
    |t.leaves| > 1 ==> forall i :: 0 <= i < |t.leaves| ==> |t.leaves[i].entries| >= LEAF_CAPACITY / 2
  }

  lemma InsertKeepsHalfFull(t: Tree, e: Entry, rightId: RecordId, rootId: RecordId)
    requires WellFormed(t) && HalfFull(t)
    ensures var r := InsertInto(t, e, rightId, rootId); r.Inserted? ==> HalfFull(r.tree)
  {
    hide RouteLeaf, LowerBound, LeavesOrdered, DistinctIds, Ordered;
    var c := RouteLeaf(t, e);
    var n := t.leaves[c];
    var r := InsertInto(t, e, rightId, rootId);
    if r.Inserted? {
      WithEntrySize(n.entries, e);
      var leaves := r.tree.leaves;
      forall i | 0 <= i < |leaves| && |leaves| > 1
        ensures |leaves[i].entries| >= LEAF_CAPACITY / 2
      {
        var added := |leaves| - |t.leaves|;
        assert i < c ==> leaves[i] == t.leaves[i];
        assert i > c + added ==> leaves[i] == t.leaves[i - added];
      }
    }
  }

  lemma {:induction false} HalfFullSize(leaves: seq<Node>)
    requires forall i :: 0 <= i < |leaves| ==> |leaves[i].entries| >= 64
    ensures |Flatten(leaves)| >= 64 * |leaves|
  {
    if leaves != [] {
      HalfFullSize(leaves[1..]);
    }
  }

  lemma FullRootSize(leaves: seq<Node>, c: nat)
    requires c < |leaves| == INTERNAL_CAPACITY && |leaves[c].entries| == LEAF_CAPACITY
    requires forall i :: 0 <= i < |leaves| ==> |leaves[i].entries| >= 64
    ensures |Flatten(leaves)| >= SURE_CAPACITY
  {
    hide Flatten;
    FlattenAround(leaves, c);
    HalfFullSize(leaves[..c]);
    HalfFullSize(leaves[c + 1..]);
  }

  /** A root-full rejection needs 128 leaves, all at least half full and the routed one full. */
  lemma RootFullNeedsEntries(t: Tree, e: Entry, rightId: RecordId, rootId: RecordId)
    requires WellFormed(t) && HalfFull(t)
    requires IdFits(e.value)
    requires InsertInto(t, e, rightId, rootId).RootFull?
    ensures |EntrySet(t)| >= SURE_CAPACITY
  {
    hide Flatten, EntrySet, InsertInto, RouteLeaf, LeavesOrdered, DistinctIds;
    RootFullIsRejection(t, e, rightId, rootId);
    EntryCount(t);
    FullRootSize(t.leaves, RouteLeaf(t, e));
  }

  lemma {:induction false} InsertOnlyHalfFull(trace: seq<Tree>, ops: seq<TreeOp>, header: RecordId, leaf: RecordId,
                                              k: nat)
    requires header != leaf && LinkFits(header) && LinkFits(leaf)
    requires IsRun(trace, ops) && trace[0] == EmptyTree(header, leaf) && k <= |ops|
    requires forall i :: 0 <= i < |ops| ==> ops[i].Insert?
    ensures WellFormed(trace[k]) && HalfFull(trace[k])
  {
    hide WellFormed, InsertInto, EntrySet, HalfFull;
    RunWellFormed(trace, ops, header, leaf, k);
    if k == 0 {
      EmptyHalfFull(header, leaf);
    } else {
      var t, op := trace[k - 1], ops[k - 1];
      InsertOnlyHalfFull(trace, ops, header, leaf, k - 1);
      InsertKeepsHalfFull(t, op.entry, op.rightId, op.rootId);
    }
  }

  /** In an insert-only run the root is never reported full before 8256 entries are stored. */
  lemma InsertOnlyCapacity(trace: seq<Tree>, ops: seq<TreeOp>, header: RecordId, leaf: RecordId, k: nat)
    requires header != leaf && LinkFits(header) && LinkFits(leaf)
    requires IsRun(trace, ops) && trace[0] == EmptyTree(header, leaf) && k < |ops|
    requires forall i :: 0 <= i < |ops| ==> ops[i].Insert?
    ensures WellFormed(trace[k])
    ensures InsertInto(trace[k], ops[k].entry, ops[k].rightId, ops[k].rootId).RootFull? ==>
      |EntrySet(trace[k])| >= SURE_CAPACITY == 8256 && trace[k + 1] == trace[k]
  {
    hide WellFormed, InsertInto, EntrySet, HalfFull;
    InsertOnlyHalfFull(trace, ops, header, leaf, k);
    var op := ops[k];
    if InsertInto(trace[k], op.entry, op.rightId, op.rootId).RootFull? {
      RootFullNeedsEntries(trace[k], op.entry, op.rightId, op.rootId);
    }
  }

  lemma EmptyHalfFull(header: RecordId, leaf: RecordId)
    ensures HalfFull(EmptyTree(header, leaf))
  {
  }

  // ---------------------------------------------------------------- erase, then insert again

  /** The routed leaf keeps other entries, e was its maximum, and the next leaf and the root are full. */
  predicate RestoreBlocked(t: Tree, e: Entry)
    requires WellFormed(t)
  {
    var c := RouteLeaf(t, e);
    && |t.leaves| == INTERNAL_CAPACITY
    && |t.leaves[c].entries| >= 2 && e == High(t.leaves[c])
    && c + 1 < |t.leaves| && |t.leaves[c + 1].entries| == LEAF_CAPACITY
  }

  /** Re-inserting an entry that was just erased fails in exactly one situation. */
  lemma EraseThenInsert(t: Tree, e: Entry, rightId: RecordId, rootId: RecordId)
    requires WellFormed(t) && e in EntrySet(t)
    ensures EraseFrom(t, e).Some? && WellFormed(EraseFrom(t, e).value)
    ensures InsertInto(EraseFrom(t, e).value, e, rightId, rootId).RootFull? <==> RestoreBlocked(t, e)
  {
    hide Flatten, EntrySet, LeavesOrdered, DistinctIds, RouteLeaf, WithoutEntry, Ordered;
    var c := RouteLeaf(t, e);
    var n := t.leaves[c];
    EraseRefinesSet(t, e);
    RoutedMembership(t, e);
    LeafOrdered(t, c);
    WithoutEntryOrdered(n.entries, e);
    var es := WithoutEntry(n.entries, e);
    if es != [] && |t.leaves| == INTERNAL_CAPACITY {
      var t' := EraseFrom(t, e).value;
      assert t'.leaves == t.leaves[c := Node(n.id, es)];
      RouteAfterErase(t, t', e, es);
      var d := RouteLeaf(t', e);
      WithEntrySize(t'.leaves[d].entries, e);
      assert e !in EntrySet(t');
      LeafInSet(t', d);
      LeafOrdered(t', d);
      LowerBoundFinds(t'.leaves[d].entries, e);
    }
  }

  lemma RootFullIsRejection(t: Tree, e: Entry, rightId: RecordId, rootId: RecordId)
    requires WellFormed(t)
    ensures InsertInto(t, e, rightId, rootId).RootFull? <==> Rejects(t, e)
  {
    hide RouteLeaf, LowerBound, LeavesOrdered, DistinctIds, Ordered;
    var c := RouteLeaf(t, e);
    LeafOrdered(t, c);
    LowerBoundFinds(t.leaves[c].entries, e);
    WithEntrySize(t.leaves[c].entries, e);
  }

  /** An erased entry can be put back unless that one situation holds; it never does with room in the root. */
  lemma RestoreRejected(t: Tree, e: Entry)
    requires WellFormed(t) && e in EntrySet(t)
    ensures EraseFrom(t, e).Some? && WellFormed(EraseFrom(t, e).value)
    ensures Rejects(EraseFrom(t, e).value, e) <==> RestoreBlocked(t, e)
    ensures |t.leaves| < INTERNAL_CAPACITY ==> !RestoreBlocked(t, e)
  {
    hide EraseFrom, Rejects, InsertInto, EntrySet, WellFormed;
    EraseThenInsert(t, e, t.header, t.header);
    RootFullIsRejection(EraseFrom(t, e).value, e, t.header, t.header);
  }

  /** Erasing lowers a separator only if the maximum went; e then belongs to the next leaf. */
  lemma RouteAfterErase(t: Tree, t': Tree, e: Entry, es: seq<Entry>)
    requires WellFormed(t) && WellFormed(t') && |t.leaves| > 1
    requires e in t.leaves[RouteLeaf(t, e)].entries && es != [] && Ordered(es)
    requires forall x :: x in es <==> x in t.leaves[RouteLeaf(t, e)].entries && x != e
    requires var c := RouteLeaf(t, e); t'.leaves == t.leaves[c := Node(t.leaves[c].id, es)]
    ensures var c := RouteLeaf(t, e);
      RouteLeaf(t', e) == if e == High(t.leaves[c]) && c + 1 < |t.leaves| then c + 1 else c
  {
    hide RouteEntry, DistinctIds, NodeOk, LeavesOrdered, Ordered;
    var c, d := RouteLeaf(t, e), RouteLeaf(t', e);
    var cs, ds := ChildrenOf(t.leaves), ChildrenOf(t'.leaves);
    assert forall i :: 0 <= i < |cs| && i != c ==> ds[i] == cs[i];
    LeafOrdered(t, c);
    LeafOrdered(t', c);
    var top := es[|es| - 1];
    assert top in es && ds[c].high == top;
    HighIsLast(t.leaves[c], top);
    HighIsLast(t.leaves[c], e);
    RouteSplits(t, e);
    if c + 1 < |t.leaves| {
      assert High(t.leaves[c + 1]) in t.leaves[c + 1].entries && e in [e];
      assert EntryLess(e, cs[c + 1].high);
    }
    if e != High(t.leaves[c]) {
      assert High(t.leaves[c]) in es;
      HighIsLast(t'.leaves[c], High(t.leaves[c]));
      assert top == High(t.leaves[c]);
    }
  }
}
