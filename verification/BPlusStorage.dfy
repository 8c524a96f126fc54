/** How a tree lies in a record store, and what each rewrite of its records does to that. */
module BPlusStorage {
  import opened Wrappers
  import opened Stores
  import opened BPlusNodes
  import opened BPlusTrees

  predicate HoldsHeader(m: Store, id: RecordId, h: Header) { id in m && IsHeader(m[id], h) }

  predicate HoldsLeaf(m: Store, id: RecordId, leaf: Leaf) { id in m && IsLeaf(m[id], leaf) }

  predicate HoldsInternal(m: Store, id: RecordId, cs: seq<Child>) { id in m && IsInternal(m[id], cs) }

  function HeaderOf(t: Tree): Header
    requires t.leaves != []
  {
    Header(Height(t), t.root, t.leaves[0].id)
  }

  predicate LeavesStored(m: Store, leaves: seq<Node>) {
    forall i :: 0 <= i < |leaves| ==> HoldsLeaf(m, leaves[i].id, LeafOf(leaves, i))
  }

  /** Every node of the tree is in the store under its id, linked and separated as the chain says. */
  predicate Stored(m: Store, t: Tree)
    requires WellFormed(t)
  {
    && HoldsHeader(m, t.header, HeaderOf(t))
    && (|t.leaves| > 1 ==> HoldsInternal(m, t.root, ChildrenOf(t.leaves)))
    && LeavesStored(m, t.leaves)
  }

  /** The stores agree on everything that is not part of the tree before or after. */
  ghost predicate OutsideKept(m: Store, t: Tree, m': Store, t': Tree) {
    forall id :: && (id in m && Unowned(t, id) <==> id in m' && Unowned(t', id))
                 && (id in m && Unowned(t, id) ==> m'[id] == m[id])
  }

  lemma OwnedMeans(t: Tree)
    requires t.leaves != []
    ensures forall id :: id in Owned(t) <==> !Unowned(t, id)
  {
  }

  lemma OwnedLive(m: Store, t: Tree)
    requires WellFormed(t) && Stored(m, t)
    ensures Owned(t) <= m.Keys
  {
    hide IsHeader, IsLeaf, IsInternal;
    forall id | id in Owned(t)
      ensures id in m
    {
      if i :| 0 <= i < |t.leaves| && t.leaves[i].id == id {
        assert HoldsLeaf(m, t.leaves[i].id, LeafOf(t.leaves, i));
      }
    }
  }

  /** A tree is not affected by changes to other records. */
  lemma StoredFrame(m: Store, m': Store, t: Tree)
    requires WellFormed(t) && Stored(m, t)
    requires forall id :: id in m && !Unowned(t, id) ==> id in m' && m'[id] == m[id]
    ensures Stored(m', t)
  {
    hide IsHeader, IsLeaf, IsInternal;
    forall i | 0 <= i < |t.leaves|
      ensures HoldsLeaf(m', t.leaves[i].id, LeafOf(t.leaves, i))
    {
      assert HoldsLeaf(m, t.leaves[i].id, LeafOf(t.leaves, i));
    }
  }

  /** Writing leaf c and, at height two, the root stores the tree with the new entries. */
  lemma StoredInPlace(m: Store, m': Store, t: Tree, t': Tree, c: nat, es: seq<Entry>)
    requires WellFormed(t) && Stored(m, t) && c < |t.leaves|
    requires t' == t.(leaves := ReplaceLeaf(t.leaves, c, [Node(t.leaves[c].id, es)])) && WellFormed(t')
    requires HoldsLeaf(m', t.leaves[c].id, Leaf(NextOf(t.leaves, c), es))
    requires |t.leaves| > 1 ==> HoldsInternal(m', t.root, ChildrenOf(t'.leaves))
    requires forall id :: id != t.leaves[c].id && id != t.root ==>
      (id in m' <==> id in m) && (id in m ==> m'[id] == m[id])
    ensures Stored(m', t') && OutsideKept(m, t, m', t')
  {
    hide IsHeader, IsLeaf, IsInternal, WellFormed, OutsideKept, ChildrenOf, Unowned, LeavesStored, HoldsLeaf,
         HoldsInternal;
    assert t'.leaves == t.leaves[c := Node(t.leaves[c].id, es)];
    IdsDistinct(t, c);
    WellFormedHeight(t);
    WellFormedHeight(t');
    InPlaceLeavesStored(m, m', t, t', c, es);
    InPlaceOutside(m, m', t, t', c);
  }

  lemma InPlaceLeavesStored(m: Store, m': Store, t: Tree, t': Tree, c: nat, es: seq<Entry>)
    requires c < |t.leaves| && LeavesStored(m, t.leaves) && t'.leaves == t.leaves[c := Node(t.leaves[c].id, es)]
    requires HoldsLeaf(m', t.leaves[c].id, Leaf(NextOf(t.leaves, c), es))
    requires forall i :: 0 <= i < |t.leaves| && i != c ==> t.leaves[i].id != t.leaves[c].id
    requires |t.leaves| > 1 ==> forall i :: 0 <= i < |t.leaves| ==> t.leaves[i].id != t.root
    requires forall id :: id != t.leaves[c].id && id != t.root ==>
      (id in m' <==> id in m) && (id in m ==> m'[id] == m[id])
    ensures LeavesStored(m', t'.leaves)
  {
    hide IsLeaf;
    forall i | 0 <= i < |t'.leaves|
      ensures HoldsLeaf(m', t'.leaves[i].id, LeafOf(t'.leaves, i))
    {
      assert HoldsLeaf(m, t.leaves[i].id, LeafOf(t.leaves, i));
    }
  }

  lemma IdsDistinct(t: Tree, c: nat)
    requires WellFormed(t) && c < |t.leaves|
    ensures t.header != t.leaves[c].id && t.header != t.root
    ensures forall i :: 0 <= i < |t.leaves| && i != c ==> t.leaves[i].id != t.leaves[c].id
    ensures |t.leaves| > 1 ==> t.header != t.root && forall i :: 0 <= i < |t.leaves| ==> t.leaves[i].id != t.root
  {
  }

  lemma InPlaceOutside(m: Store, m': Store, t: Tree, t': Tree, c: nat)
    requires c < |t.leaves| == |t'.leaves| && t'.header == t.header && t'.root == t.root
    requires forall i :: 0 <= i < |t.leaves| ==> t'.leaves[i].id == t.leaves[i].id
    requires forall id :: id != t.leaves[c].id && id != t.root ==>
      (id in m' <==> id in m) && (id in m ==> m'[id] == m[id])
    ensures OutsideKept(m, t, m', t')
  {
    forall id
      ensures Unowned(t, id) <==> Unowned(t', id)
    {
    }
  }

  /** Storing the right half, relinking the left and writing the parent stores the split tree. */
  lemma StoredSplit(m: Store, m': Store, t: Tree, t': Tree, c: nat, left: seq<Entry>, right: seq<Entry>,
                    rightId: RecordId)
    requires WellFormed(t) && Stored(m, t) && c < |t.leaves| && Unowned(t, rightId)
    requires t'.header == t.header && (|t.leaves| > 1 ==> t'.root == t.root)
    requires t'.leaves == ReplaceLeaf(t.leaves, c, [Node(t.leaves[c].id, left), Node(rightId, right)])
    requires WellFormed(t') && rightId !in m && (|t.leaves| == 1 ==> t'.root !in m)
    requires HoldsLeaf(m', t.leaves[c].id, Leaf(Some(rightId), left))
    requires HoldsLeaf(m', rightId, Leaf(NextOf(t.leaves, c), right))
    requires HoldsInternal(m', t'.root, ChildrenOf(t'.leaves))
    requires |t.leaves| == 1 ==> HoldsHeader(m', t.header, HeaderOf(t'))
    requires forall id :: Unowned(t, id) && id != rightId && id != t'.root ==>
      (id in m' <==> id in m) && (id in m ==> m'[id] == m[id])
    requires forall i :: 0 <= i < |t.leaves| && i != c ==>
      t.leaves[i].id in m && t.leaves[i].id in m' && m'[t.leaves[i].id] == m[t.leaves[i].id]
    requires |t.leaves| > 1 ==> t.header in m' && m'[t.header] == m[t.header]
    ensures Stored(m', t') && OutsideKept(m, t, m', t')
  {
    hide IsHeader, IsLeaf, IsInternal, LeavesOrdered, NodeOk, DistinctIds, OutsideKept, Unowned;
    SplitNodes(t, t', c, left, right, rightId);
    forall i | 0 <= i < |t'.leaves|
      ensures HoldsLeaf(m', t'.leaves[i].id, LeafOf(t'.leaves, i))
    {
      if i < c {
        assert HoldsLeaf(m, t.leaves[i].id, LeafOf(t.leaves, i));
      } else if i > c + 1 {
        assert HoldsLeaf(m, t.leaves[i - 1].id, LeafOf(t.leaves, i - 1));
      }
    }
    SplitOutside(m, m', t, t', c, rightId);
  }

  function SplitEntries(t: Tree, c: nat, left: seq<Entry>, right: seq<Entry>, i: nat): seq<Entry>
    requires c < |t.leaves| && i <= |t.leaves|
  {
    if i == c then left else if i == c + 1 then right else if i < c then t.leaves[i].entries else t.leaves[i - 1].entries
  }

  lemma SplitNodes(t: Tree, t': Tree, c: nat, left: seq<Entry>, right: seq<Entry>, rightId: RecordId)
    requires c < |t.leaves|
    requires t'.leaves == ReplaceLeaf(t.leaves, c, [Node(t.leaves[c].id, left), Node(rightId, right)])
    ensures |t'.leaves| == |t.leaves| + 1
    ensures forall i :: 0 <= i < |t'.leaves| ==>
      t'.leaves[i].id == SplitId(t, c, rightId, i) && t'.leaves[i].entries == SplitEntries(t, c, left, right, i)
  {
  }

  lemma SplitOutside(m: Store, m': Store, t: Tree, t': Tree, c: nat, rightId: RecordId)
    requires c < |t.leaves| && |t'.leaves| == |t.leaves| + 1
    requires t'.header == t.header && (|t.leaves| > 1 ==> t'.root == t.root)
    requires |t.leaves| == 1 ==> t.root == t.leaves[0].id
    requires forall i :: 0 <= i < |t'.leaves| ==> t'.leaves[i].id == SplitId(t, c, rightId, i)
    requires rightId !in m && (|t.leaves| == 1 ==> t'.root !in m)
    requires forall id :: Unowned(t, id) && id != rightId && id != t'.root ==>
      (id in m' <==> id in m) && (id in m ==> m'[id] == m[id])
    ensures OutsideKept(m, t, m', t')
  {
    forall id
      ensures Unowned(t', id) <==> Unowned(t, id) && id != rightId && id != t'.root
    {
      if Unowned(t', id) {
        assert t'.leaves[c + 1].id == rightId;
        forall i | 0 <= i < |t.leaves|
          ensures t.leaves[i].id != id
        {
          assert SplitId(t, c, rightId, if i <= c then i else i + 1) == t.leaves[i].id;
        }
      }
    }
  }

  /** Unlinking leaf c, rewriting the parent or header and dropping the dead records stores the rest. */
  lemma StoredUnlinked(m: Store, m': Store, t: Tree, t': Tree, c: nat)
    requires WellFormed(t) && Stored(m, t) && c < |t.leaves| && |t.leaves| > 1
    requires t' == Tree(t.header, if |t.leaves| == 2 then t.leaves[1 - c].id else t.root, ReplaceLeaf(t.leaves, c, []))
    requires WellFormed(t')
    requires c > 0 ==> HoldsLeaf(m', t.leaves[c - 1].id, Leaf(NextOf(t.leaves, c), t.leaves[c - 1].entries))
    requires forall i :: 0 <= i < |t.leaves| && i != c && i + 1 != c ==>
      t.leaves[i].id in m && t.leaves[i].id in m' && m'[t.leaves[i].id] == m[t.leaves[i].id]
    requires |t.leaves| > 2 ==> HoldsInternal(m', t.root, ChildrenOf(t'.leaves))
    requires HoldsHeader(m', t.header, HeaderOf(t'))
    requires t.leaves[c].id !in m' && (|t.leaves| == 2 ==> t.root !in m')
    requires forall id :: Unowned(t, id) ==> (id in m' <==> id in m) && (id in m ==> m'[id] == m[id])
    ensures Stored(m', t') && OutsideKept(m, t, m', t')
  {
    hide IsHeader, IsLeaf, IsInternal, WellFormed, OutsideKept, Unowned, LeavesStored, ChildrenOf, HoldsLeaf;
    UnlinkedLeaves(t, t', c);
    UnlinkedLeavesStored(m, m', t, t', c);
    UnlinkedOutside(m, m', t, t', c);
    WellFormedHeight(t');
  }

  lemma WellFormedHeight(t: Tree)
    requires WellFormed(t)
    ensures t.leaves != [] && (|t.leaves| > 1 ==> forall i :: 0 <= i < |t.leaves| ==> t.leaves[i].entries != [])
  {
  }

  /** The leaves that are left are linked past the one that is gone. */
  lemma UnlinkedLeavesStored(m: Store, m': Store, t: Tree, t': Tree, c: nat)
    requires c < |t.leaves| && LeavesStored(m, t.leaves)
    requires |t'.leaves| == |t.leaves| - 1
    requires forall i :: 0 <= i < |t'.leaves| ==> t'.leaves[i] == Remaining(t.leaves, c, i)
    requires c > 0 ==> HoldsLeaf(m', t.leaves[c - 1].id, Leaf(NextOf(t.leaves, c), t.leaves[c - 1].entries))
    requires forall i :: 0 <= i < |t.leaves| && i != c && i + 1 != c ==>
      t.leaves[i].id in m && t.leaves[i].id in m' && m'[t.leaves[i].id] == m[t.leaves[i].id]
    ensures LeavesStored(m', t'.leaves)
  {
    hide IsLeaf;
    forall i | 0 <= i < |t'.leaves|
      ensures HoldsLeaf(m', t'.leaves[i].id, LeafOf(t'.leaves, i))
    {
      var j := if i < c then i else i + 1;
      assert HoldsLeaf(m, t.leaves[j].id, LeafOf(t.leaves, j));
    }
  }

  /** The i-th leaf after leaf c is gone. */
  function Remaining(leaves: seq<Node>, c: nat, i: nat): Node
    requires c < |leaves| && i + 1 < |leaves|
  {
    if i < c then leaves[i] else leaves[i + 1]
  }

  lemma UnlinkedLeaves(t: Tree, t': Tree, c: nat)
    requires c < |t.leaves| && t'.leaves == ReplaceLeaf(t.leaves, c, [])
    ensures |t'.leaves| == |t.leaves| - 1
    ensures forall i :: 0 <= i < |t'.leaves| ==> t'.leaves[i] == Remaining(t.leaves, c, i)
  {
  }

  lemma UnlinkedOutside(m: Store, m': Store, t: Tree, t': Tree, c: nat)
    requires c < |t.leaves| && |t.leaves| > 1 && t'.header == t.header && |t'.leaves| == |t.leaves| - 1
    requires t'.root == if |t.leaves| == 2 then t.leaves[1 - c].id else t.root
    requires forall i :: 0 <= i < |t'.leaves| ==> t'.leaves[i] == Remaining(t.leaves, c, i)
    requires t.leaves[c].id !in m' && (|t.leaves| == 2 ==> t.root !in m')
    requires forall id :: Unowned(t, id) ==> (id in m' <==> id in m) && (id in m ==> m'[id] == m[id])
    ensures OutsideKept(m, t, m', t')
  {
    forall id
      ensures Unowned(t, id) ==> Unowned(t', id)
      ensures Unowned(t', id) && id != t.leaves[c].id && id != t.root ==> Unowned(t, id)
    {
      if Unowned(t', id) && id != t.leaves[c].id && id != t.root {
        forall i | 0 <= i < |t.leaves|
          ensures t.leaves[i].id != id
        {
          if i != c {
            assert Remaining(t.leaves, c, if i < c then i else i - 1) == t.leaves[i];
          }
        }
      }
    }
  }

  // ---------------------------------------------------------------- uniqueness

  /** Two stored trees with the same header have the same root, height and first leaf. */
  lemma SameHeader(m: Store, t: Tree, u: Tree)
    requires WellFormed(t) && Stored(m, t) && WellFormed(u) && Stored(m, u) && t.header == u.header
    ensures t.root == u.root && t.leaves[0].id == u.leaves[0].id && Height(t) == Height(u)
  {
  }

  lemma {:induction false} SameChain(m: Store, a: seq<Node>, b: seq<Node>, k: nat)
    requires LeavesStored(m, a) && LeavesStored(m, b)
    requires k < |a| && k < |b| && a[0].id == b[0].id
    ensures a[..k + 1] == b[..k + 1] && NextOf(a, k) == NextOf(b, k)
  {
    hide IsLeaf, LeavesStored;
    if k > 0 {
      SameChain(m, a, b, k - 1);
      assert a[..k] == b[..k] && a[..k + 1] == a[..k] + [a[k]] && b[..k + 1] == b[..k] + [b[k]];
    }
    SameLeaf(m, a, b, k);
  }

  lemma SameLeaf(m: Store, a: seq<Node>, b: seq<Node>, k: nat)
    requires LeavesStored(m, a) && LeavesStored(m, b)
    requires k < |a| && k < |b| && a[k].id == b[k].id
    ensures a[k] == b[k] && NextOf(a, k) == NextOf(b, k)
  {
    hide IsLeaf;
    assert HoldsLeaf(m, a[k].id, LeafOf(a, k)) && HoldsLeaf(m, b[k].id, LeafOf(b, k));
    LeafUnique(m[a[k].id], LeafOf(a, k), LeafOf(b, k));
  }

  /** The records under a header determine the tree. */
  lemma StoredUnique(m: Store, t: Tree, u: Tree)
    requires WellFormed(t) && Stored(m, t) && WellFormed(u) && Stored(m, u) && t.header == u.header
    ensures t == u
  {
    SameHeader(m, t, u);
    hide IsHeader, IsLeaf, IsInternal, LeavesOrdered, DistinctIds, NodeOk;
    var k := if |t.leaves| < |u.leaves| then |t.leaves| - 1 else |u.leaves| - 1;
    SameChain(m, t.leaves, u.leaves, k);
    assert t.leaves[..|t.leaves|] == t.leaves && u.leaves[..|u.leaves|] == u.leaves;
  }

  // ---------------------------------------------------------------- loading arbitrary records

  /** The link of the j-th loaded leaf: the next loaded one, or where the walk stands. */
  function LoadedNext(leaves: seq<Node>, current: Option<RecordId>, j: nat): Option<RecordId> {
    if j + 1 < |leaves| then Some(leaves[j + 1].id) else current
  }

  /** The leaves met when following links from `first`, and the link to follow next. */
  predicate ChainLoaded(m: Store, first: RecordId, leaves: seq<Node>, current: Option<RecordId>) {
    && (if leaves == [] then current == Some(first) else leaves[0].id == first)
    && forall j :: 0 <= j < |leaves| ==> HoldsLeaf(m, leaves[j].id, Leaf(LoadedNext(leaves, current, j), leaves[j].entries))
  }

  lemma ChainExtended(m: Store, first: RecordId, leaves: seq<Node>, id: RecordId, leaf: Leaf)
    requires ChainLoaded(m, first, leaves, Some(id)) && HoldsLeaf(m, id, leaf)
    ensures ChainLoaded(m, first, leaves + [Node(id, leaf.entries)], leaf.next)
  {
    hide IsLeaf;
    var more := leaves + [Node(id, leaf.entries)];
    forall j | 0 <= j < |more|
      ensures HoldsLeaf(m, more[j].id, Leaf(LoadedNext(more, leaf.next, j), more[j].entries))
    {
      if j < |leaves| {
        assert HoldsLeaf(m, leaves[j].id, Leaf(LoadedNext(leaves, Some(id), j), leaves[j].entries));
      }
    }
  }

  /** A tree is stored in m whose chain starts at `first`. */
  predicate StoredFrom(m: Store, first: RecordId, t: Tree) {
    WellFormed(t) && Stored(m, t) && t.leaves[0].id == first
  }

  /** Following links meets the leaves of a stored tree, in order. */
  lemma {:induction false} LoadedIsPrefix(m: Store, first: RecordId, leaves: seq<Node>, current: Option<RecordId>,
                                          t: Tree)
    requires StoredFrom(m, first, t) && ChainLoaded(m, first, leaves, current)
    ensures |leaves| <= |t.leaves| && leaves == t.leaves[..|leaves|]
    ensures current == if |leaves| < |t.leaves| then Some(t.leaves[|leaves|].id) else None
    decreases |leaves|
  {
    hide IsLeaf, IsHeader, IsInternal, LeavesOrdered, DistinctIds, NodeOk;
    if leaves != [] {
      var n := |leaves| - 1;
      var init := leaves[..n];
      assert ChainLoaded(m, first, init, Some(leaves[n].id)) by {
        assert forall j :: 0 <= j < n ==> init[j] == leaves[j];
        forall j | 0 <= j < n
          ensures HoldsLeaf(m, init[j].id, Leaf(LoadedNext(init, Some(leaves[n].id), j), init[j].entries))
        {
          assert HoldsLeaf(m, leaves[j].id, Leaf(LoadedNext(leaves, current, j), leaves[j].entries));
        }
      }
      LoadedIsPrefix(m, first, init, Some(leaves[n].id), t);
      assert HoldsLeaf(m, leaves[n].id, Leaf(LoadedNext(leaves, current, n), leaves[n].entries));
      assert HoldsLeaf(m, t.leaves[n].id, LeafOf(t.leaves, n));
      LeafUnique(m[leaves[n].id], Leaf(current, leaves[n].entries), LeafOf(t.leaves, n));
      assert leaves == init + [leaves[n]];
    }
  }

  /** In a stored tree, the next link is not one already followed, and leads to a leaf. */
  lemma NextIsNew(m: Store, first: RecordId, leaves: seq<Node>, id: RecordId, t: Tree)
    requires StoredFrom(m, first, t) && ChainLoaded(m, first, leaves, Some(id))
    ensures forall j :: 0 <= j < |leaves| ==> leaves[j].id != id
    ensures |leaves| < |t.leaves| && HoldsLeaf(m, id, LeafOf(t.leaves, |leaves|))
  {
    hide LeavesOrdered, NodeOk, IsLeaf;
    LoadedIsPrefix(m, first, leaves, Some(id), t);
  }

  /** In a stored tree, that leaf is not empty unless it is alone, and starts above the last one. */
  lemma NextIsAbove(m: Store, first: RecordId, leaves: seq<Node>, id: RecordId, leaf: Leaf, t: Tree)
    requires StoredFrom(m, first, t) && ChainLoaded(m, first, leaves, Some(id)) && HoldsLeaf(m, id, leaf)
    ensures leaf.entries == [] ==> leaves == [] && leaf.next == None
    ensures leaves != [] && leaves[|leaves| - 1].entries != [] && leaf.entries != [] ==>
      EntryLess(High(leaves[|leaves| - 1]), leaf.entries[0])
  {
    hide NodeOk, DistinctIds, IsLeaf;
    LoadedIsPrefix(m, first, leaves, Some(id), t);
    NextIsNew(m, first, leaves, id, t);
    var n := |leaves|;
    LeafUnique(m[id], leaf, LeafOf(t.leaves, n));
    if n > 0 {
      assert t.leaves[n - 1] == leaves[n - 1];
      assert AllBefore(t.leaves[n - 1].entries, t.leaves[n].entries);
      assert leaves[n - 1].entries != [] ==> High(leaves[n - 1]) in t.leaves[n - 1].entries;
    }
  }

  /** Appending a leaf that starts above the last one keeps the chain ordered. */
  lemma AppendOrdered(leaves: seq<Node>, n: Node)
    requires LeavesOrdered(leaves) && Ordered(n.entries) && n.entries != []
    requires forall j :: 0 <= j < |leaves| ==> leaves[j].entries != []
    requires leaves != [] ==> EntryLess(High(leaves[|leaves| - 1]), n.entries[0])
    ensures LeavesOrdered(leaves + [n])
  {
    var more := leaves + [n];
    forall i | 0 <= i < |leaves|
      ensures AllBefore(leaves[i].entries, n.entries)
    {
      var last := leaves[|leaves| - 1];
      forall x, y | x in leaves[i].entries && y in n.entries
        ensures EntryLess(x, y)
      {
        assert EntryLess(x, High(last)) || x == High(last) by {
          if i < |leaves| - 1 {
            assert AllBefore(leaves[i].entries, last.entries);
            assert High(last) in last.entries;
          } else {
            HighIsLast(last, x);
          }
        }
        var j :| 0 <= j < |n.entries| && n.entries[j] == y;
        assert j > 0 ==> EntryLess(n.entries[0], y);
      }
    }
  }

  predicate LoadedOk(leaves: seq<Node>) {
    && LeavesOrdered(leaves)
    && (forall i, j :: 0 <= i < j < |leaves| ==> leaves[i].id != leaves[j].id)
    && (|leaves| > 1 ==> forall j :: 0 <= j < |leaves| ==> leaves[j].entries != [])
  }

  /** A fully loaded chain, with its header and root as the validator demands, is a stored tree. */
  lemma LoadedIsTree(m: Store, header: RecordId, h: Header, leaves: seq<Node>)
    requires HoldsHeader(m, header, h) && leaves != [] && ChainLoaded(m, h.firstLeaf, leaves, None) && LoadedOk(leaves)
    requires forall id :: id in m ==> LinkFits(id)
    requires if h.height == 1 then h.root == h.firstLeaf && |leaves| == 1
             else (forall j :: 0 <= j < |leaves| ==> leaves[j].entries != []) && HoldsInternal(m, h.root, ChildrenOf(leaves))
    ensures var t := Tree(header, h.root, leaves);
      WellFormed(t) && Stored(m, t) && Height(t) == h.height
  {
    hide LeavesOrdered, LeafHead, EntryAt, ZeroFrom, InternalHead, ChildAt, IdAt;
    var t := Tree(header, h.root, leaves);
    forall j | 0 <= j < |leaves|
      ensures HoldsLeaf(m, leaves[j].id, LeafOf(leaves, j)) && NodeOk(leaves[j])
      ensures leaves[j].id != header && (h.height == 2 ==> leaves[j].id != h.root)
    {
      assert HoldsLeaf(m, leaves[j].id, Leaf(LoadedNext(leaves, None, j), leaves[j].entries));
      assert LoadedNext(leaves, None, j) == NextOf(leaves, j);
      KindsDisjoint(m[leaves[j].id]);
    }
    KindsDisjoint(m[header]);
  }
}
