/** Trees without record ids: the entries leaf by leaf, and what insertions make of them. */
module TreeShapes {
  import opened Wrappers
  import opened Stores
  import opened BPlusNodes
  import opened BPlusTrees

  /** The entries of a chain, leaf by leaf. */
  function ShapeOf(leaves: seq<Node>): (ls: seq<seq<Entry>>)
    ensures |ls| == |leaves| && forall i :: 0 <= i < |ls| ==> ls[i] == leaves[i].entries
  {
    seq(|leaves|, i requires 0 <= i < |leaves| => leaves[i].entries)
  }

  /** The first leaf whose greatest entry is not below e; the last leaf if there is none. */
  function Routed(ls: seq<seq<Entry>>, e: Entry): (c: nat)
    requires ls != []
    ensures c < |ls|
  {
    if |ls| == 1 || (ls[0] != [] && !EntryLess(ls[0][|ls[0]| - 1], e)) then 0 else 1 + Routed(ls[1..], e)
  }

  /** The leaves with e added, or None if the root has no room for the half of a full leaf. */
  function Grown(ls: seq<seq<Entry>>, e: Entry): (r: Option<seq<seq<Entry>>>)
    requires ls != []
    ensures r.Some? ==> r.value != []
  {
    var c := Routed(ls, e);
    if e in ls[c] then Some(ls) else
    var es := WithEntry(ls[c], e);
    if |es| <= LEAF_CAPACITY then Some(ls[c := es])
    else if |ls| == INTERNAL_CAPACITY then None
    else Some(ls[..c] + [es[..|es| / 2], es[|es| / 2..]] + ls[c + 1..])
  }

  /** The leaves after adding the entries one after the other to an empty tree. */
  function Filled(es: seq<Entry>): (r: Option<seq<seq<Entry>>>)
    ensures r.Some? ==> r.value != []
  {
    if es == [] then Some([[]]) else
    var front := Filled(es[..|es| - 1]);
    if front == None then None else Grown(front.value, es[|es| - 1])
  }

  lemma {:induction false} RoutedSame(leaves: seq<Node>, e: Entry)
    requires leaves != [] && forall i :: 0 <= i < |leaves| ==> leaves[i].entries != []
    ensures Routed(ShapeOf(leaves), e) == RouteEntry(ChildrenOf(leaves), e)
  {
    var ls, cs := ShapeOf(leaves), ChildrenOf(leaves);
    if |leaves| > 1 {
      RoutedSame(leaves[1..], e);
      assert ls[1..] == ShapeOf(leaves[1..]) && cs[1..] == ChildrenOf(leaves[1..]);
    }
  }

  lemma RouteSame(t: Tree, e: Entry)
    requires WellFormed(t)
    ensures Routed(ShapeOf(t.leaves), e) == RouteLeaf(t, e)
  {
    hide LeavesOrdered, DistinctIds, NodeOk, Routed;
    if |t.leaves| > 1 {
      RoutedSame(t.leaves, e);
    }
  }

  /** Insertion into a tree is insertion into its shape, whatever ids are handed out. */
  lemma GrownSame(t: Tree, e: Entry, rightId: RecordId, rootId: RecordId)
    requires WellFormed(t)
    ensures var r, g := InsertInto(t, e, rightId, rootId), Grown(ShapeOf(t.leaves), e);
      && (r.RootFull? <==> g == None)
      && (r.Inserted? ==> g == Some(ShapeOf(r.tree.leaves)))
      && (r.Present? ==> g == Some(ShapeOf(t.leaves)))
  {
    hide RouteLeaf, Routed, LowerBound, WithEntry, WellFormed, Ordered;
    var c := RouteLeaf(t, e);
    RouteSame(t, e);
    LeafOrdered(t, c);
    LowerBoundFinds(t.leaves[c].entries, e);
    var n, es := t.leaves[c], WithEntry(t.leaves[c].entries, e);
    ShapeInPlace(t.leaves, c, Node(n.id, es));
    ShapeSplit(t.leaves, c, Node(n.id, es[..|es| / 2]), Node(rightId, es[|es| / 2..]));
  }

  lemma ShapeInPlace(leaves: seq<Node>, c: nat, n: Node)
    requires c < |leaves|
    ensures ShapeOf(ReplaceLeaf(leaves, c, [n])) == ShapeOf(leaves)[c := n.entries]
  {
  }

  lemma ShapeSplit(leaves: seq<Node>, c: nat, m: Node, n: Node)
    requires c < |leaves|
    ensures var ls := ShapeOf(leaves);
      ShapeOf(ReplaceLeaf(leaves, c, [m, n])) == ls[..c] + [m.entries, n.entries] + ls[c + 1..]
  {
  }

  lemma FilledMore(es: seq<Entry>, e: Entry)
    ensures Filled(es + [e]) == if Filled(es) == None then None else Grown(Filled(es).value, e)
  {
    assert (es + [e])[..|es + [e]| - 1] == es;
  }

  /** Once the root is full, further entries do not change that. */
  lemma {:induction false} FilledPrefix(es: seq<Entry>, k: nat)
    requires k <= |es| && Filled(es[..k]) == None
    ensures Filled(es) == None
    decreases |es| - k
  {
    if k < |es| {
      assert es[..k + 1] == es[..k] + [es[k]];
      FilledMore(es[..k], es[k]);
      FilledPrefix(es, k + 1);
    } else {
      assert es[..k] == es;
    }
  }
}
