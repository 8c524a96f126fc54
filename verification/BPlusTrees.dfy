/**
 The B+ tree as a value: a header id, a root id, and the chain of leaves. The height, the first
 leaf, the links and the separators all follow from the chain.
 */
module BPlusTrees {
  import opened Wrappers
  import opened Stores
  import opened BPlusNodes

  datatype Node = Node(id: RecordId, entries: seq<Entry>)

  datatype Tree = Tree(header: RecordId, root: RecordId, leaves: seq<Node>)

  // ---------------------------------------------------------------- entries of the chain

  function Flatten(leaves: seq<Node>): seq<Entry> {
    if leaves == [] then [] else leaves[0].entries + Flatten(leaves[1..])
  }

  lemma {:induction false} FlattenConcat(a: seq<Node>, b: seq<Node>)
    ensures Flatten(a + b) == Flatten(a) + Flatten(b)
  {
    if a == [] {
      assert a + b == b;
    } else {
      FlattenConcat(a[1..], b);
      assert (a + b)[1..] == a[1..] + b && (a + b)[0] == a[0];
      assert a[0].entries + (Flatten(a[1..]) + Flatten(b)) == a[0].entries + Flatten(a[1..]) + Flatten(b);
    }
  }

  lemma SplitAt<T>(s: seq<T>, c: nat)
    requires c < |s|
    ensures s == s[..c] + [s[c]] + s[c + 1..]
  {
  }

  lemma FlattenOne(n: Node)
    ensures Flatten([n]) == n.entries
  {
    assert [n][1..] == [];
  }

  /** The chain around leaf c. */
  lemma FlattenAround(leaves: seq<Node>, c: nat)
    requires c < |leaves|
    ensures Flatten(leaves) == Flatten(leaves[..c]) + leaves[c].entries + Flatten(leaves[c + 1..])
  {
    hide Flatten;
    SplitAt(leaves, c);
    FlattenConcat(leaves[..c] + [leaves[c]], leaves[c + 1..]);
    FlattenConcat(leaves[..c], [leaves[c]]);
    FlattenOne(leaves[c]);
  }

  lemma {:induction false} InFlatten(leaves: seq<Node>, e: Entry)
    ensures e in Flatten(leaves) <==> exists i :: 0 <= i < |leaves| && e in leaves[i].entries
  {
    if leaves != [] {
      InFlatten(leaves[1..], e);
      if e in Flatten(leaves[1..]) {
        var i :| 0 <= i < |leaves[1..]| && e in leaves[1..][i].entries;
        assert e in leaves[i + 1].entries;
      }
      if i :| 0 <= i < |leaves| && e in leaves[i].entries {
        if i > 0 {
          assert e in leaves[1..][i - 1].entries;
        }
      }
    }
  }

  function EntrySet(t: Tree): set<Entry> {
    set e | e in Flatten(t.leaves)
  }

  predicate AllBefore(xs: seq<Entry>, ys: seq<Entry>) {
    forall x, y :: x in xs && y in ys ==> EntryLess(x, y)
  }

  predicate LeavesOrdered(leaves: seq<Node>) {
    && (forall i :: 0 <= i < |leaves| ==> Ordered(leaves[i].entries))
    && (forall i, j :: 0 <= i < j < |leaves| ==> AllBefore(leaves[i].entries, leaves[j].entries))
  }

  lemma OrderedConcat(a: seq<Entry>, b: seq<Entry>)
    ensures Ordered(a + b) <==> Ordered(a) && Ordered(b) && AllBefore(a, b)
  {
    var s := a + b;
    if Ordered(s) {
      assert forall i :: 0 <= i < |a| ==> a[i] == s[i];
      assert forall j :: 0 <= j < |b| ==> b[j] == s[|a| + j];
    }
  }

  /** The chain is ordered leaf by leaf exactly when its entries are ordered from end to end. */
  lemma {:induction false} FlattenOrdered(leaves: seq<Node>)
    ensures LeavesOrdered(leaves) <==> Ordered(Flatten(leaves))
  {
    if leaves != [] {
      var first, rest := leaves[0].entries, leaves[1..];
      FlattenOrdered(rest);
      OrderedConcat(first, Flatten(rest));
      forall e
        ensures e in Flatten(rest) <==> exists j :: 1 <= j < |leaves| && e in leaves[j].entries
      {
        InFlatten(rest, e);
        if j :| 1 <= j < |leaves| && e in leaves[j].entries {
          assert e in rest[j - 1].entries;
        }
        if k :| 0 <= k < |rest| && e in rest[k].entries {
          assert e in leaves[k + 1].entries;
        }
      }
      assert AllBefore(first, Flatten(rest)) <==>
             forall j :: 1 <= j < |leaves| ==> AllBefore(first, leaves[j].entries);
      assert LeavesOrdered(rest) <==>
             (forall i :: 1 <= i < |leaves| ==> Ordered(leaves[i].entries)) &&
             (forall i, j :: 1 <= i < j < |leaves| ==> AllBefore(leaves[i].entries, leaves[j].entries)) by {
        assert forall i :: 1 <= i < |leaves| ==> leaves[i] == rest[i - 1];
        assert forall i :: 0 <= i < |rest| ==> rest[i] == leaves[i + 1];
      }
    }
  }

  // ---------------------------------------------------------------- the invariant

  function Height(t: Tree): nat { if |t.leaves| == 1 then 1 else 2 }

  predicate DistinctIds(t: Tree) {
    && (forall i, j :: 0 <= i < j < |t.leaves| ==> t.leaves[i].id != t.leaves[j].id)
    && (forall i :: 0 <= i < |t.leaves| ==> t.leaves[i].id != t.header)
    && (|t.leaves| > 1 ==> t.root != t.header && forall i :: 0 <= i < |t.leaves| ==> t.leaves[i].id != t.root)
  }

  predicate NodeOk(n: Node) {
    && |n.entries| <= LEAF_CAPACITY
    && LinkFits(n.id)
    && forall i :: 0 <= i < |n.entries| ==> IdFits(n.entries[i].value)
  }

  /** Everything that holds of a tree between operations, apart from how it is stored. */
  predicate WellFormed(t: Tree) {
    && 1 <= |t.leaves| <= INTERNAL_CAPACITY
    && LinkFits(t.header) && LinkFits(t.root)
    && (|t.leaves| == 1 ==> t.root == t.leaves[0].id)
    && (forall i :: 0 <= i < |t.leaves| ==> NodeOk(t.leaves[i]))
    && (|t.leaves| > 1 ==> forall i :: 0 <= i < |t.leaves| ==> t.leaves[i].entries != [])
    && LeavesOrdered(t.leaves)
    && DistinctIds(t)
  }

  /** The records that the tree is made of. */
  function Owned(t: Tree): set<RecordId>
    requires t.leaves != []
  {
    {t.header, t.root} + set i | 0 <= i < |t.leaves| :: t.leaves[i].id
  }

  lemma {:induction false} LeafIdCount(leaves: seq<Node>)
    requires forall i, j :: 0 <= i < j < |leaves| ==> leaves[i].id != leaves[j].id
    ensures |set i | 0 <= i < |leaves| :: leaves[i].id| == |leaves|
  {
    if leaves != [] {
      var n := |leaves| - 1;
      LeafIdCount(leaves[..n]);
      assert (set i | 0 <= i < |leaves| :: leaves[i].id) ==
             (set i | 0 <= i < n :: leaves[..n][i].id) + {leaves[n].id};
    }
  }

  /** A tree owns its header, its leaves, and at height two one internal root. */
  lemma NodeConservation(t: Tree)
    requires WellFormed(t)
    ensures |Owned(t)| == |t.leaves| + Height(t)
    ensures EntrySet(t) == {} ==> Height(t) == 1
  {
    hide LeavesOrdered, NodeOk, EntrySet;
    var ids := set i | 0 <= i < |t.leaves| :: t.leaves[i].id;
    LeafIdCount(t.leaves);
    assert t.header !in ids;
    if |t.leaves| == 1 {
      assert t.root in ids;
      assert Owned(t) == ids + {t.header};
    } else {
      assert t.root !in ids + {t.header};
      assert Owned(t) == ids + {t.header} + {t.root};
      HasEntry(t);
    }
  }

  lemma HasEntry(t: Tree)
    requires t.leaves != [] && t.leaves[0].entries != []
    ensures EntrySet(t) != {}
  {
    var e := t.leaves[0].entries[0];
    InFlatten(t.leaves, e);
    assert e in EntrySet(t);
  }

  // ---------------------------------------------------------------- routing

  function High(n: Node): Entry
    requires n.entries != []
  {
    n.entries[|n.entries| - 1]
  }

  /** The children of the internal root, one for each leaf, separated by the leaf maxima. */
  function ChildrenOf(leaves: seq<Node>): (cs: seq<Child>)
    requires forall i :: 0 <= i < |leaves| ==> leaves[i].entries != []
    ensures |cs| == |leaves|
    ensures forall i :: 0 <= i < |cs| ==> cs[i] == Child(High(leaves[i]), leaves[i].id)
  {
    seq(|leaves|, i requires 0 <= i < |leaves| => Child(High(leaves[i]), leaves[i].id))
  }

  function NextOf(leaves: seq<Node>, i: nat): Option<RecordId> {
    if i + 1 < |leaves| then Some(leaves[i + 1].id) else None
  }

  function LeafOf(leaves: seq<Node>, i: nat): Leaf
    requires i < |leaves|
  {
    Leaf(NextOf(leaves, i), leaves[i].entries)
  }

  /** The first child whose separator is not below the entry; the last child if there is none. */
  function RouteEntry(cs: seq<Child>, e: Entry): (c: nat)
    requires cs != []
    ensures c < |cs|
    ensures forall i :: 0 <= i < c ==> EntryLess(cs[i].high, e)
    ensures EntryLess(cs[c].high, e) ==> c == |cs| - 1
  {
    if |cs| == 1 || !EntryLess(cs[0].high, e) then 0 else 1 + RouteEntry(cs[1..], e)
  }

  function RouteKey(cs: seq<Child>, key: int64): (c: nat)
    requires cs != []
    ensures c < |cs|
    ensures forall i :: 0 <= i < c ==> cs[i].high.key < key
    ensures cs[c].high.key < key ==> c == |cs| - 1
  {
    if |cs| == 1 || cs[0].high.key >= key then 0 else 1 + RouteKey(cs[1..], key)
  }

  /** std::lower_bound: the first position whose entry is not below e. */
  function LowerBound(es: seq<Entry>, e: Entry): (p: nat)
    ensures p <= |es|
    ensures forall i :: 0 <= i < p ==> EntryLess(es[i], e)
    ensures p < |es| ==> !EntryLess(es[p], e)
  {
    if es == [] || !EntryLess(es[0], e) then 0 else 1 + LowerBound(es[1..], e)
  }

  function RouteLeaf(t: Tree, e: Entry): (c: nat)
    requires WellFormed(t)
    ensures c < |t.leaves|
  {
    if |t.leaves| == 1 then 0 else RouteEntry(ChildrenOf(t.leaves), e)
  }

  lemma HighIsLast(n: Node, e: Entry)
    requires Ordered(n.entries) && e in n.entries
    ensures e == High(n) || EntryLess(e, High(n))
  {
  }

  /** Everything left of the routed leaf is smaller than e, everything right of it larger. */
  lemma RouteSplits(t: Tree, e: Entry)
    requires WellFormed(t)
    ensures var c := RouteLeaf(t, e);
      && (forall i :: 0 <= i < c ==> AllBefore(t.leaves[i].entries, [e]))
      && (forall i :: c < i < |t.leaves| ==> AllBefore([e], t.leaves[i].entries))
  {
    var c := RouteLeaf(t, e);
    if |t.leaves| > 1 {
      var cs := ChildrenOf(t.leaves);
      forall i, x | 0 <= i < c && x in t.leaves[i].entries
        ensures EntryLess(x, e)
      {
        assert EntryLess(cs[i].high, e);
        HighIsLast(t.leaves[i], x);
      }
      forall i, y | c < i < |t.leaves| && y in t.leaves[i].entries
        ensures EntryLess(e, y)
      {
        assert AllBefore(t.leaves[c].entries, t.leaves[i].entries);
        assert High(t.leaves[c]) in t.leaves[c].entries;
        assert EntryLess(High(t.leaves[c]), y);
        assert cs[c].high == High(t.leaves[c]);
      }
    }
  }

  /** An entry of the tree lies in the leaf it is routed to. */
  lemma RoutedMembership(t: Tree, e: Entry)
    requires WellFormed(t)
    ensures e in EntrySet(t) <==> e in t.leaves[RouteLeaf(t, e)].entries
  {
    var c := RouteLeaf(t, e);
    RouteSplits(t, e);
    InFlatten(t.leaves, e);
    if i :| 0 <= i < |t.leaves| && e in t.leaves[i].entries {
      assert e in [e];
      assert !EntryLess(e, e);
    }
  }

  lemma LowerBoundFinds(es: seq<Entry>, e: Entry)
    requires Ordered(es)
    ensures var p := LowerBound(es, e);
      && (e in es <==> p < |es| && es[p] == e)
      && (forall i :: p <= i < |es| && es[i] != e ==> EntryLess(e, es[i]))
  {
    var p := LowerBound(es, e);
    forall i | p <= i < |es| && es[i] != e
      ensures EntryLess(e, es[i])
    {
      if i > p {
        assert EntryLess(es[p], es[i]);
      }
    }
  }

  // ---------------------------------------------------------------- insertion

  datatype InsertOutcome = Present | Inserted(tree: Tree) | RootFull

  /** The root has no room for another leaf and the leaf has none for another entry. */
  predicate Rejects(t: Tree, e: Entry)
    requires WellFormed(t)
  {
    var n := t.leaves[RouteLeaf(t, e)];
    e !in n.entries && |n.entries| == LEAF_CAPACITY && |t.leaves| == INTERNAL_CAPACITY
  }

  function WithEntry(es: seq<Entry>, e: Entry): seq<Entry> {
    var p := LowerBound(es, e);
    es[..p] + [e] + es[p..]
  }

  /** The chain with leaf c replaced by the given nodes. */
  function ReplaceLeaf(leaves: seq<Node>, c: nat, nodes: seq<Node>): seq<Node>
    requires c < |leaves|
  {
    leaves[..c] + nodes + leaves[c + 1..]
  }

  /** The tree after inserting e; `rightId` and `rootId` are the ids for a split and a promotion. */
  function InsertInto(t: Tree, e: Entry, rightId: RecordId, rootId: RecordId): InsertOutcome
    requires WellFormed(t)
  {
    var c := RouteLeaf(t, e);
    var n := t.leaves[c];
    var p := LowerBound(n.entries, e);
    if p < |n.entries| && n.entries[p] == e then Present else
    var es := WithEntry(n.entries, e);
    if |es| <= LEAF_CAPACITY then Inserted(t.(leaves := ReplaceLeaf(t.leaves, c, [Node(n.id, es)])))
    else if |t.leaves| == INTERNAL_CAPACITY then RootFull
    else
      var half := |es| / 2;
      var parts := [Node(n.id, es[..half]), Node(rightId, es[half..])];
      Inserted(Tree(t.header, if |t.leaves| == 1 then rootId else t.root, ReplaceLeaf(t.leaves, c, parts)))
  }

  predicate Unowned(t: Tree, id: RecordId) {
    id != t.header && id != t.root && forall i :: 0 <= i < |t.leaves| ==> t.leaves[i].id != id
  }

  /** The ids given to a new leaf and, when a single leaf splits, to the new root. */
  predicate FreshIds(t: Tree, rightId: RecordId, rootId: RecordId) {
    && LinkFits(rightId) && Unowned(t, rightId)
    && (|t.leaves| == 1 ==> LinkFits(rootId) && Unowned(t, rootId) && rightId != rootId)
  }

  /** Inserting e has to split its leaf. */
  predicate Splits(t: Tree, e: Entry)
    requires WellFormed(t)
  {
    var n := t.leaves[RouteLeaf(t, e)];
    e !in n.entries && |n.entries| == LEAF_CAPACITY && |t.leaves| < INTERNAL_CAPACITY
  }

  lemma WithEntryOrdered(es: seq<Entry>, e: Entry)
    requires Ordered(es) && e !in es
    ensures Ordered(WithEntry(es, e))
    ensures forall x :: x in WithEntry(es, e) <==> x in es || x == e
  {
    hide LowerBound;
    LowerBoundFinds(es, e);
    var p := LowerBound(es, e);
    assert es == es[..p] + es[p..];
    OrderedConcat(es[..p], es[p..]);
    OrderedConcat(es[..p], [e]);
    OrderedConcat(es[..p] + [e], es[p..]);
    assert forall y :: y in es[p..] ==> EntryLess(e, y);
    assert forall x :: x in es[..p] ==> EntryLess(x, e);
  }

  lemma FlattenReplaced(leaves: seq<Node>, c: nat, nodes: seq<Node>)
    requires c < |leaves|
    ensures Flatten(ReplaceLeaf(leaves, c, nodes)) ==
      Flatten(leaves[..c]) + Flatten(nodes) + Flatten(leaves[c + 1..])
  {
    hide Flatten;
    FlattenConcat(leaves[..c] + nodes, leaves[c + 1..]);
    FlattenConcat(leaves[..c], nodes);
  }

  lemma {:induction false} AllBeforeFlatten(leaves: seq<Node>, es: seq<Entry>)
    ensures (forall i :: 0 <= i < |leaves| ==> AllBefore(leaves[i].entries, es)) ==> AllBefore(Flatten(leaves), es)
    ensures (forall i :: 0 <= i < |leaves| ==> AllBefore(es, leaves[i].entries)) ==> AllBefore(es, Flatten(leaves))
  {
    forall x | x in Flatten(leaves)
      ensures exists i :: 0 <= i < |leaves| && x in leaves[i].entries
    {
      InFlatten(leaves, x);
    }
  }

  /** Replacing the entries of the routed leaf, around e, keeps the chain ordered. */
  lemma ReplaceOrdered(t: Tree, e: Entry, nodes: seq<Node>)
    requires WellFormed(t)
    requires Ordered(Flatten(nodes))
    requires forall x :: x in Flatten(nodes) ==> x == e || x in t.leaves[RouteLeaf(t, e)].entries
    ensures LeavesOrdered(ReplaceLeaf(t.leaves, RouteLeaf(t, e), nodes))
  {
    hide Flatten, RouteLeaf, Ordered, DistinctIds;
    var c := RouteLeaf(t, e);
    var before, after := t.leaves[..c], t.leaves[c + 1..];
    var es := Flatten(nodes);
    RouteSplits(t, e);
    forall i | 0 <= i < |before|
      ensures AllBefore(before[i].entries, es)
    {
      assert AllBefore(t.leaves[i].entries, [e]) && AllBefore(t.leaves[i].entries, t.leaves[c].entries);
      assert e in [e];
    }
    forall i | 0 <= i < |after|
      ensures AllBefore(es, after[i].entries)
    {
      assert AllBefore([e], t.leaves[c + 1 + i].entries);
      assert AllBefore(t.leaves[c].entries, t.leaves[c + 1 + i].entries);
      assert e in [e];
    }
    AllBeforeFlatten(before, es);
    AllBeforeFlatten(after, es);
    FlattenOrdered(t.leaves);
    FlattenAround(t.leaves, c);
    var n := t.leaves[c].entries;
    OrderedConcat(Flatten(before) + n, Flatten(after));
    OrderedConcat(Flatten(before), n);
    assert AllBefore(Flatten(before), Flatten(after));
    OrderedConcat(Flatten(before), es);
    OrderedConcat(Flatten(before) + es, Flatten(after));
    FlattenReplaced(t.leaves, c, nodes);
    FlattenOrdered(ReplaceLeaf(t.leaves, c, nodes));
  }

  lemma ReplacedSet(t: Tree, c: nat, nodes: seq<Node>, e: Entry)
    requires WellFormed(t) && c == RouteLeaf(t, e)
    ensures forall x :: x in Flatten(ReplaceLeaf(t.leaves, c, nodes)) <==>
      x in Flatten(nodes) || (x in EntrySet(t) && x !in t.leaves[c].entries)
  {
    hide Flatten, RouteLeaf;
    FlattenReplaced(t.leaves, c, nodes);
    FlattenAround(t.leaves, c);
    FlattenOrdered(t.leaves);
    var before, n, after := Flatten(t.leaves[..c]), t.leaves[c].entries, Flatten(t.leaves[c + 1..]);
    OrderedConcat(before + n, after);
    OrderedConcat(before, n);
    forall x | x in n
      ensures x !in before && x !in after
    {
      assert !EntryLess(x, x);
    }
  }

  /** Inserting adds exactly e to the set and keeps the tree well formed, split or not. */
  lemma InsertRefinesSet(t: Tree, e: Entry, rightId: RecordId, rootId: RecordId)
    requires WellFormed(t) && IdFits(e.value) && (Splits(t, e) ==> FreshIds(t, rightId, rootId))
    ensures var r := InsertInto(t, e, rightId, rootId);
      && (r.Present? <==> e in EntrySet(t))
      && (r.Inserted? ==> WellFormed(r.tree) && EntrySet(r.tree) == EntrySet(t) + {e} && r.tree.header == t.header)
      && (r.RootFull? <==> Rejects(t, e))
  {
    hide Flatten, RouteLeaf, LowerBound, Ordered, LeavesOrdered, DistinctIds, RouteEntry, WithEntry;
    var c := RouteLeaf(t, e);
    var n := t.leaves[c];
    RoutedMembership(t, e);
    LeafOrdered(t, c);
    LowerBoundFinds(n.entries, e);
    if e !in n.entries {
      var es := WithEntry(n.entries, e);
      WithEntryOrdered(n.entries, e);
      WithEntrySize(n.entries, e);
      if |es| <= LEAF_CAPACITY {
        InsertInPlace(t, e, es);
      } else if |t.leaves| < INTERNAL_CAPACITY {
        InsertSplitting(t, e, es, rightId, rootId);
      }
    }
  }

  lemma LeafOrdered(t: Tree, c: nat)
    requires WellFormed(t) && c < |t.leaves|
    ensures Ordered(t.leaves[c].entries)
  {
  }

  lemma WithEntrySize(es: seq<Entry>, e: Entry)
    ensures |WithEntry(es, e)| == |es| + 1
  {
  }

  lemma InsertInPlace(t: Tree, e: Entry, es: seq<Entry>)
    requires WellFormed(t) && IdFits(e.value) && es != [] && |es| <= LEAF_CAPACITY && Ordered(es)
    requires forall x :: x in es <==> x in t.leaves[RouteLeaf(t, e)].entries || x == e
    ensures var c := RouteLeaf(t, e);
      var t' := t.(leaves := ReplaceLeaf(t.leaves, c, [Node(t.leaves[c].id, es)]));
      WellFormed(t') && EntrySet(t') == EntrySet(t) + {e}
  {
    hide Flatten, RouteLeaf, Ordered, LeavesOrdered;
    var c := RouteLeaf(t, e);
    var nodes := [Node(t.leaves[c].id, es)];
    var t' := t.(leaves := ReplaceLeaf(t.leaves, c, nodes));
    FlattenOne(nodes[0]);
    ReplaceOrdered(t, e, nodes);
    ReplacedSet(t, c, nodes, e);
    RoutedMembership(t, e);
    LeafInSet(t, c);
    assert t'.leaves == t.leaves[c := nodes[0]];
    EntriesFit(t.leaves[c], e, es);
  }

  lemma LeafInSet(t: Tree, c: nat)
    requires c < |t.leaves|
    ensures forall x :: x in t.leaves[c].entries ==> x in EntrySet(t)
  {
    forall x | x in t.leaves[c].entries
      ensures x in EntrySet(t)
    {
      InFlatten(t.leaves, x);
    }
  }

  lemma EntriesFit(n: Node, e: Entry, es: seq<Entry>)
    requires NodeOk(n) && IdFits(e.value)
    requires forall x :: x in es ==> x in n.entries || x == e
    ensures forall i :: 0 <= i < |es| ==> IdFits(es[i].value)
  {
    forall i | 0 <= i < |es|
      ensures IdFits(es[i].value)
    {
      assert es[i] in es;
    }
  }

  lemma InsertSplitting(t: Tree, e: Entry, es: seq<Entry>, rightId: RecordId, rootId: RecordId)
    requires WellFormed(t) && IdFits(e.value) && FreshIds(t, rightId, rootId)
    requires |es| == LEAF_CAPACITY + 1 && Ordered(es) && |t.leaves| < INTERNAL_CAPACITY
    requires forall x :: x in es <==> x in t.leaves[RouteLeaf(t, e)].entries || x == e
    ensures var c, half := RouteLeaf(t, e), |es| / 2;
      var parts := [Node(t.leaves[c].id, es[..half]), Node(rightId, es[half..])];
      var t' := Tree(t.header, if |t.leaves| == 1 then rootId else t.root, ReplaceLeaf(t.leaves, c, parts));
      WellFormed(t') && EntrySet(t') == EntrySet(t) + {e}
  {
    hide Flatten, RouteLeaf, Ordered, LeavesOrdered;
    var c, half := RouteLeaf(t, e), |es| / 2;
    var parts := [Node(t.leaves[c].id, es[..half]), Node(rightId, es[half..])];
    var t' := Tree(t.header, if |t.leaves| == 1 then rootId else t.root, ReplaceLeaf(t.leaves, c, parts));
    assert es[..half] + es[half..] == es;
    FlattenTwo(parts[0], parts[1]);
    ReplaceOrdered(t, e, parts);
    ReplacedSet(t, c, parts, e);
    RoutedMembership(t, e);
    LeafInSet(t, c);
    EntriesFit(t.leaves[c], e, es);
    SplitIds(t, c, parts, rightId, rootId);
    SplitNodesOk(t, c, parts);
  }

  lemma FlattenTwo(m: Node, n: Node)
    ensures Flatten([m, n]) == m.entries + n.entries
  {
    assert [m, n][1..] == [n];
    FlattenOne(n);
  }

  lemma SplitIds(t: Tree, c: nat, parts: seq<Node>, rightId: RecordId, rootId: RecordId)
    requires WellFormed(t) && c < |t.leaves| && FreshIds(t, rightId, rootId)
    requires |parts| == 2 && parts[0].id == t.leaves[c].id && parts[1].id == rightId
    ensures DistinctIds(Tree(t.header, if |t.leaves| == 1 then rootId else t.root, ReplaceLeaf(t.leaves, c, parts)))
  {
    hide LeavesOrdered, NodeOk;
    var leaves := ReplaceLeaf(t.leaves, c, parts);
    forall i | 0 <= i < |leaves|
      ensures leaves[i].id == SplitId(t, c, rightId, i)
    {
    }
    forall i, j | 0 <= i < j < |leaves|
      ensures leaves[i].id != leaves[j].id
    {
      assert SplitId(t, c, rightId, i) != SplitId(t, c, rightId, j);
    }
  }

  /** The id of the i-th leaf after leaf c was split. */
  function SplitId(t: Tree, c: nat, rightId: RecordId, i: nat): RecordId
    requires c < |t.leaves| && i <= |t.leaves|
  {
    if i == c + 1 then rightId else if i <= c then t.leaves[i].id else t.leaves[i - 1].id
  }

  lemma SplitNodesOk(t: Tree, c: nat, parts: seq<Node>)
    requires WellFormed(t) && c < |t.leaves|
    requires |parts| == 2 && NodeOk(parts[0]) && NodeOk(parts[1])
    requires parts[0].entries != [] && parts[1].entries != []
    ensures var leaves := ReplaceLeaf(t.leaves, c, parts);
      forall i :: 0 <= i < |leaves| ==> NodeOk(leaves[i]) && leaves[i].entries != []
  {
    hide LeavesOrdered, NodeOk;
    var leaves := ReplaceLeaf(t.leaves, c, parts);
    assert forall i :: 0 <= i < |leaves| ==>
      leaves[i] == if i < c then t.leaves[i] else if i == c then parts[0] else if i == c + 1 then parts[1]
                   else t.leaves[i - 1];
  }

  // ---------------------------------------------------------------- erasure

  function WithoutEntry(es: seq<Entry>, e: Entry): seq<Entry>
    requires e in es && Ordered(es)
  {
    LowerBoundFinds(es, e);
    var p := LowerBound(es, e);
    es[..p] + es[p + 1..]
  }

  /** The tree after erasing e, or None if e is not in it. */
  function EraseFrom(t: Tree, e: Entry): Option<Tree>
    requires WellFormed(t)
  {
    var c := RouteLeaf(t, e);
    var n := t.leaves[c];
    if e !in n.entries then None else
    var es := WithoutEntry(n.entries, e);
    if es != [] || |t.leaves| == 1 then Some(t.(leaves := ReplaceLeaf(t.leaves, c, [Node(n.id, es)])))
    else
      var rest := ReplaceLeaf(t.leaves, c, []);
      Some(Tree(t.header, if |rest| == 1 then rest[0].id else t.root, rest))
  }

  lemma WithoutEntryOrdered(es: seq<Entry>, e: Entry)
    requires Ordered(es) && e in es
    ensures Ordered(WithoutEntry(es, e)) && |WithoutEntry(es, e)| == |es| - 1
    ensures forall x :: x in WithoutEntry(es, e) <==> x in es && x != e
  {
    LowerBoundFinds(es, e);
    hide LowerBound;
    var p := LowerBound(es, e);
    SplitAt(es, p);
    var r := es[..p] + es[p + 1..];
    assert forall i :: 0 <= i < |r| ==> r[i] == if i < p then es[i] else es[i + 1];
    assert !EntryLess(e, e);
    forall x | x in es && x != e
      ensures x in r
    {
      assert x in es[..p] || x in [es[p]] || x in es[p + 1..];
    }
  }

  /** Erasing removes exactly e from the set, unlinking and collapsing as needed. */
  lemma EraseRefinesSet(t: Tree, e: Entry)
    requires WellFormed(t)
    ensures EraseFrom(t, e).Some? <==> e in EntrySet(t)
    ensures var r := EraseFrom(t, e);
      r.Some? ==> WellFormed(r.value) && EntrySet(r.value) == EntrySet(t) - {e} && r.value.header == t.header
  {
    hide Flatten, RouteLeaf, Ordered, LeavesOrdered, DistinctIds, WithoutEntry;
    var c := RouteLeaf(t, e);
    var n := t.leaves[c];
    RoutedMembership(t, e);
    LeafOrdered(t, c);
    if e in n.entries {
      var es := WithoutEntry(n.entries, e);
      WithoutEntryOrdered(n.entries, e);
      if es != [] || |t.leaves| == 1 {
        EraseInPlace(t, e, es);
      } else {
        EraseUnlinking(t, e);
      }
    }
  }

  lemma EraseInPlace(t: Tree, e: Entry, es: seq<Entry>)
    requires WellFormed(t) && e in t.leaves[RouteLeaf(t, e)].entries
    requires es != [] || |t.leaves| == 1
    requires Ordered(es) && |es| <= LEAF_CAPACITY
    requires forall x :: x in es <==> x in t.leaves[RouteLeaf(t, e)].entries && x != e
    ensures var c := RouteLeaf(t, e);
      var t' := t.(leaves := ReplaceLeaf(t.leaves, c, [Node(t.leaves[c].id, es)]));
      WellFormed(t') && EntrySet(t') == EntrySet(t) - {e}
  {
    hide Flatten, RouteLeaf, Ordered, LeavesOrdered;
    var c := RouteLeaf(t, e);
    var nodes := [Node(t.leaves[c].id, es)];
    var t' := t.(leaves := ReplaceLeaf(t.leaves, c, nodes));
    FlattenOne(nodes[0]);
    ReplaceOrdered(t, e, nodes);
    ReplacedSet(t, c, nodes, e);
    LeafInSet(t, c);
    assert t'.leaves == t.leaves[c := nodes[0]];
    LeafEntriesFit(t.leaves[c], es);
  }

  lemma LeafEntriesFit(n: Node, es: seq<Entry>)
    requires NodeOk(n) && forall x :: x in es ==> x in n.entries
    ensures forall i :: 0 <= i < |es| ==> IdFits(es[i].value)
  {
    forall i | 0 <= i < |es|
      ensures IdFits(es[i].value)
    {
      assert es[i] in es;
    }
  }

  lemma EraseUnlinking(t: Tree, e: Entry)
    requires WellFormed(t) && |t.leaves| > 1
    requires forall x :: x in t.leaves[RouteLeaf(t, e)].entries <==> x == e
    ensures var rest := ReplaceLeaf(t.leaves, RouteLeaf(t, e), []);
      && rest != []
      && var t' := Tree(t.header, if |rest| == 1 then rest[0].id else t.root, rest);
      && WellFormed(t') && EntrySet(t') == EntrySet(t) - {e}
  {
    hide Flatten, RouteLeaf, Ordered, LeavesOrdered, DistinctIds;
    var c := RouteLeaf(t, e);
    var rest := ReplaceLeaf(t.leaves, c, []);
    FlattenNone();
    ReplaceOrdered(t, e, []);
    ReplacedSet(t, c, [], e);
    LeafInSet(t, c);
    assert e in t.leaves[c].entries;
    assert forall i :: 0 <= i < |rest| ==> rest[i] == if i < c then t.leaves[i] else t.leaves[i + 1];
    UnlinkedIds(t, c);
  }

  lemma UnlinkedIds(t: Tree, c: nat)
    requires WellFormed(t) && |t.leaves| > 1 && c < |t.leaves|
    ensures var rest := ReplaceLeaf(t.leaves, c, []);
      && rest != []
      && DistinctIds(Tree(t.header, if |rest| == 1 then rest[0].id else t.root, rest))
  {
    hide LeavesOrdered, NodeOk;
    var rest := ReplaceLeaf(t.leaves, c, []);
    assert forall i :: 0 <= i < |rest| ==> rest[i] == if i < c then t.leaves[i] else t.leaves[i + 1];
    forall i, j | 0 <= i < j < |rest|
      ensures rest[i].id != rest[j].id
    {
      assert t.leaves[if i < c then i else i + 1].id != t.leaves[if j < c then j else j + 1].id;
    }
  }

  lemma FlattenNone()
    ensures Flatten([]) == [] && Ordered(Flatten([]))
  {
  }
}
