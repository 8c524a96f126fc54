/** The B+ tree object over a record store. */
module BPlusTreeIndexes {
  import opened Wrappers
  import opened Sequences
  import opened PageFormat
  import opened HeapFiles
  import opened BufferPools
  import opened PageGuards
  import opened Stores
  import opened RecordStores
  import opened BPlusNodes
  import opened BPlusTrees
  import opened BPlusTreeLaws
  import opened BPlusStorage
  import opened BPlusSearch

  // ---------------------------------------------------------------- node records

  /** Ids of live records fit the link fields of the node formats. */
  lemma LiveIdsFit(records: RecordStore)
    requires records.pool.Valid()
    ensures forall id :: id in records.Contents() ==> LinkFits(id)
  {
    hide ValidImage, RecordsOf, TableOk;
    PagesValid(records.pool);
    forall id | id in records.Contents()
      ensures LinkFits(id)
    {
      var image := records.pool.Pages()[id.page];
      assert ValidImage(image);
      SlotsFitPage(image);
    }
  }

  lemma SlotsFitPage(b: Image)
    requires ValidImage(b)
    ensures |PageRecords(b)| < 0xFFFF
  {
  }

  method LoadLeaf(records: RecordStore, id: RecordId) returns (r: Result<Leaf>)
    requires records.Ready()
    modifies records.pool, records.pool.heap
    ensures records.Ready() && records.Slots() == old(records.Slots())
    ensures records.Contents() == old(records.Contents())
    ensures r.Ok? ==> HoldsLeaf(records.Contents(), id, r.value)
    ensures r.Err? ==> r.error == IndexCorruption && forall leaf :: !HoldsLeaf(records.Contents(), id, leaf)
  {
    hide IsLeaf, RecordStore.Contents, PoolSlots, Kept;
    var bytes := records.Read(id);
    if bytes.Err? {
      return Err(IndexCorruption);
    }
    r := DecodeLeaf(bytes.value);
  }

  method LoadInternal(records: RecordStore, id: RecordId) returns (r: Result<seq<Child>>)
    requires records.Ready()
    modifies records.pool, records.pool.heap
    ensures records.Ready() && records.Slots() == old(records.Slots())
    ensures records.Contents() == old(records.Contents())
    ensures r.Ok? ==> HoldsInternal(records.Contents(), id, r.value)
    ensures r.Err? ==> r.error == IndexCorruption && forall cs :: !HoldsInternal(records.Contents(), id, cs)
  {
    hide IsInternal, RecordStore.Contents, PoolSlots, Kept;
    var bytes := records.Read(id);
    if bytes.Err? {
      return Err(IndexCorruption);
    }
    r := DecodeInternal(bytes.value);
  }

  method LoadHeader(records: RecordStore, id: RecordId) returns (r: Result<Header>)
    requires records.Ready()
    modifies records.pool, records.pool.heap
    ensures records.Ready() && records.Slots() == old(records.Slots())
    ensures records.Contents() == old(records.Contents())
    ensures r.Ok? ==> HoldsHeader(records.Contents(), id, r.value)
    ensures r.Err? ==> r.error == IndexCorruption && forall h :: !HoldsHeader(records.Contents(), id, h)
  {
    hide IsHeader, RecordStore.Contents, PoolSlots, Kept;
    var bytes := records.Read(id);
    if bytes.Err? {
      return Err(IndexCorruption);
    }
    r := DecodeHeader(bytes.value);
  }

  /** The stores differ at most at the given ids. */
  ghost predicate SameExcept(m: Store, m': Store, ids: set<RecordId>) {
    forall id :: id !in ids ==> (id in m <==> id in m') && (id in m ==> m'[id] == m[id])
  }

  lemma SameTrans(a: Store, b: Store, c: Store, x: set<RecordId>, y: set<RecordId>)
    requires SameExcept(a, b, x) && SameExcept(b, c, y)
    ensures SameExcept(a, c, x + y)
  {
  }

  /** Rewrites a leaf record; it has the same size, so this cannot fail. */
  method WriteLeaf(records: RecordStore, id: RecordId, leaf: Leaf, ghost was: Leaf)
    requires records.Ready() && HoldsLeaf(records.Contents(), id, was) && ValidLeaf(leaf)
    modifies records.pool, records.pool.heap
    ensures records.Ready() && |records.Slots()| == |old(records.Slots())|
    ensures SameExcept(old(records.Contents()), records.Contents(), {id})
    ensures HoldsLeaf(records.Contents(), id, leaf)
  {
    hide RecordStore.Contents, HasUnpinned, TableOk, PoolSlots, Kept, LeafHead, EntryAt, ZeroFrom, Ordered,
         BufferPool.Valid;
    var bytes := EncodeLeaf(leaf);
    var written := records.Replace(id, bytes.value);
  }

  method WriteInternal(records: RecordStore, id: RecordId, cs: seq<Child>, ghost was: seq<Child>)
    requires records.Ready() && HoldsInternal(records.Contents(), id, was)
    requires 2 <= |cs| <= INTERNAL_CAPACITY && SeparatorsOrdered(cs) && ChildrenFit(cs) && DistinctChildren(cs)
    modifies records.pool, records.pool.heap
    ensures records.Ready() && |records.Slots()| == |old(records.Slots())|
    ensures SameExcept(old(records.Contents()), records.Contents(), {id})
    ensures HoldsInternal(records.Contents(), id, cs)
  {
    hide RecordStore.Contents, HasUnpinned, TableOk, PoolSlots, Kept, InternalHead, ChildAt, ZeroFrom,
         BufferPool.Valid;
    var bytes := EncodeInternal(cs);
    var written := records.Replace(id, bytes.value);
  }

  method WriteHeader(records: RecordStore, id: RecordId, h: Header, ghost was: Header)
    requires records.Ready() && HoldsHeader(records.Contents(), id, was)
    requires (h.height == 1 || h.height == 2) && IdFits(h.root) && IdFits(h.firstLeaf)
    modifies records.pool, records.pool.heap
    ensures records.Ready() && |records.Slots()| == |old(records.Slots())|
    ensures SameExcept(old(records.Contents()), records.Contents(), {id})
    ensures HoldsHeader(records.Contents(), id, h)
  {
    hide RecordStore.Contents, HasUnpinned, TableOk, PoolSlots, Kept, IdAt, BufferPool.Valid;
    var bytes := EncodeHeader(h);
    var written := records.Replace(id, bytes.value);
  }

  /** A record was added under an id that was not in use. */
  ghost predicate AddedOnly(m: Store, m': Store, id: RecordId) {
    id !in m && id in m' && LinkFits(id) && SameExcept(m, m', {id})
  }

  method AddLeaf(records: RecordStore, leaf: Leaf) returns (id: RecordId)
    requires records.Ready() && |records.Slots()| < MAX_PAGES && ValidLeaf(leaf)
    modifies records, records.pool, records.pool.heap
    ensures records.Ready() && |records.Slots()| <= |old(records.Slots())| + 1
    ensures AddedOnly(old(records.Contents()), records.Contents(), id)
    ensures HoldsLeaf(records.Contents(), id, leaf)
  {
    hide RecordStore.Contents, HasUnpinned, TableOk, PoolSlots, Kept, LeafHead, EntryAt, ZeroFrom, Ordered,
         BufferPool.Valid;
    var bytes := EncodeLeaf(leaf);
    var added := records.Insert(bytes.value);
    id := added.value;
    LiveIdsFit(records);
  }

  method AddInternal(records: RecordStore, cs: seq<Child>) returns (id: RecordId)
    requires records.Ready() && |records.Slots()| < MAX_PAGES
    requires 2 <= |cs| <= INTERNAL_CAPACITY && SeparatorsOrdered(cs) && ChildrenFit(cs) && DistinctChildren(cs)
    modifies records, records.pool, records.pool.heap
    ensures records.Ready() && |records.Slots()| <= |old(records.Slots())| + 1
    ensures AddedOnly(old(records.Contents()), records.Contents(), id)
    ensures HoldsInternal(records.Contents(), id, cs)
  {
    hide RecordStore.Contents, HasUnpinned, TableOk, PoolSlots, Kept, InternalHead, ChildAt, ZeroFrom,
         BufferPool.Valid;
    var bytes := EncodeInternal(cs);
    var added := records.Insert(bytes.value);
    id := added.value;
    LiveIdsFit(records);
  }

  method AddHeader(records: RecordStore, h: Header) returns (id: RecordId)
    requires records.Ready() && |records.Slots()| < MAX_PAGES
    requires (h.height == 1 || h.height == 2) && IdFits(h.root) && IdFits(h.firstLeaf)
    modifies records, records.pool, records.pool.heap
    ensures records.Ready() && |records.Slots()| <= |old(records.Slots())| + 1
    ensures AddedOnly(old(records.Contents()), records.Contents(), id)
    ensures HoldsHeader(records.Contents(), id, h)
  {
    hide RecordStore.Contents, HasUnpinned, TableOk, PoolSlots, Kept, IdAt, BufferPool.Valid;
    var bytes := EncodeHeader(h);
    var added := records.Insert(bytes.value);
    id := added.value;
    LiveIdsFit(records);
  }

  // ---------------------------------------------------------------- opening

  /**
     Follows the leaf links from `first`. It ends on every store, cyclic links included, and
     succeeds on the chain of every stored tree.
     */
  method LoadChain(records: RecordStore, first: RecordId) returns (r: Result<seq<Node>>)
    requires records.Ready()
    modifies records.pool, records.pool.heap
    ensures records.Ready() && records.Slots() == old(records.Slots())
    ensures records.Contents() == old(records.Contents())
    ensures r.Ok? ==> r.value != [] && r.value[0].id == first && LoadedOk(r.value)
    ensures r.Ok? ==> ChainLoaded(records.Contents(), first, r.value, None)
    ensures r.Err? ==> r.error == IndexCorruption && forall t :: !StoredFrom(records.Contents(), first, t)
  {
    hide IsLeaf, RecordStore.Contents, HasUnpinned, TableOk, PoolSlots, WellFormed, Stored, ChainLoaded,
         LeavesOrdered, StoredFrom, BufferPool.Valid;
    ghost var m := records.Contents();
    NothingLoaded(m, first);
    var leaves: seq<Node>, visited: set<RecordId>, current := [], {}, Some(first);
    while current.Some?
      invariant records.Ready() && records.Contents() == m && records.Slots() == old(records.Slots())
      invariant ChainLoaded(m, first, leaves, current) && LoadedOk(leaves)
      invariant visited == IdsOf(leaves)
      invariant leaves != [] ==> leaves[0].id == first
      invariant leaves == [] ==> current == Some(first)
      invariant visited <= m.Keys && (current == None ==> leaves != [])
      invariant |leaves| == 1 && current.Some? ==> leaves[0].entries != []
      decreases m.Keys - visited, current.Some?
    {
      var id := current.value;
      if id in visited {
        NextRefuted(m, first, leaves, id);
        return Err(IndexCorruption);
      }
      var loaded := LoadLeaf(records, id);
      if loaded.Err? {
        NextRefuted(m, first, leaves, id);
        return Err(loaded.error);
      }
      var leaf := loaded.value;
      if leaf.entries == [] && (leaves != [] || leaf.next.Some?) {
        LeafRefuted(m, first, leaves, id, leaf);
        return Err(IndexCorruption);
      }
      if leaves != [] && leaf.entries != [] && !EntryLess(High(leaves[|leaves| - 1]), leaf.entries[0]) {
        LeafRefuted(m, first, leaves, id, leaf);
        return Err(IndexCorruption);
      }
      ChainExtended(m, first, leaves, id, leaf);
      LoadedMore(m, leaves, id, leaf);
      IdsOfMore(leaves, Node(id, leaf.entries));
      leaves := leaves + [Node(id, leaf.entries)];
      visited := visited + {id};
      current := leaf.next;
    }
    r := Ok(leaves);
  }

  function IdsOf(leaves: seq<Node>): set<RecordId> {
    set j | 0 <= j < |leaves| :: leaves[j].id
  }

  lemma IdsOfMore(leaves: seq<Node>, n: Node)
    ensures IdsOf(leaves + [n]) == IdsOf(leaves) + {n.id}
  {
    var more := leaves + [n];
    assert more[|leaves|] == n;
    assert forall j :: 0 <= j < |leaves| ==> more[j] == leaves[j];
  }

  lemma NothingLoaded(m: Store, first: RecordId)
    ensures ChainLoaded(m, first, [], Some(first)) && LoadedOk([])
  {
  }

  lemma NextRefuted(m: Store, first: RecordId, leaves: seq<Node>, id: RecordId)
    requires ChainLoaded(m, first, leaves, Some(id))
    requires (exists j :: 0 <= j < |leaves| && leaves[j].id == id) || (forall leaf :: !HoldsLeaf(m, id, leaf))
    ensures forall t :: !StoredFrom(m, first, t)
  {
    hide ChainLoaded, IsLeaf, WellFormed, Stored;
    forall t
      ensures !StoredFrom(m, first, t)
    {
      if StoredFrom(m, first, t) {
        NextIsNew(m, first, leaves, id, t);
      }
    }
  }

  lemma LeafRefuted(m: Store, first: RecordId, leaves: seq<Node>, id: RecordId, leaf: Leaf)
    requires ChainLoaded(m, first, leaves, Some(id)) && HoldsLeaf(m, id, leaf)
    requires || (leaf.entries == [] && (leaves != [] || leaf.next.Some?))
             || (leaves != [] && leaves[|leaves| - 1].entries != [] && leaf.entries != []
                 && !EntryLess(High(leaves[|leaves| - 1]), leaf.entries[0]))
    ensures forall t :: !StoredFrom(m, first, t)
  {
    hide ChainLoaded, IsLeaf, WellFormed, Stored;
    forall t
      ensures !StoredFrom(m, first, t)
    {
      if StoredFrom(m, first, t) {
        NextIsAbove(m, first, leaves, id, leaf, t);
      }
    }
  }

  lemma LoadedMore(m: Store, leaves: seq<Node>, id: RecordId, leaf: Leaf)
    requires LoadedOk(leaves) && HoldsLeaf(m, id, leaf)
    requires forall j :: 0 <= j < |leaves| ==> leaves[j].id != id && leaves[j].entries != []
    requires leaf.entries == [] ==> leaves == []
    requires leaves != [] ==> EntryLess(High(leaves[|leaves| - 1]), leaf.entries[0])
    ensures LoadedOk(leaves + [Node(id, leaf.entries)])
  {
    if leaf.entries != [] {
      AppendOrdered(leaves, Node(id, leaf.entries));
    }
  }

  /** Accepts a header exactly when a tree with that root, first leaf and height is stored under it. */
  method ValidateTree(records: RecordStore, ghost headerId: RecordId, header: Header) returns (r: Result<seq<Node>>)
    requires records.Ready() && HoldsHeader(records.Contents(), headerId, header)
    modifies records.pool, records.pool.heap
    ensures records.Ready() && records.Slots() == old(records.Slots())
    ensures records.Contents() == old(records.Contents())
    ensures r.Ok? ==> var t := Tree(headerId, header.root, r.value);
      WellFormed(t) && Stored(records.Contents(), t) && Height(t) == header.height && r.value[0].id == header.firstLeaf
    ensures r.Err? ==> r.error == IndexCorruption
    ensures r.Err? ==> forall t :: WellFormed(t) && Stored(records.Contents(), t) ==> t.header != headerId
  {
    hide IsLeaf, IsInternal, IsHeader, RecordStore.Contents, HasUnpinned, TableOk, PoolSlots, WellFormed, Stored,
         ChainLoaded, LoadedOk, StoredFrom, BufferPool.Valid;
    ghost var m := records.Contents();
    LiveIdsFit(records);
    HeaderHeight(m, headerId, header);
    var chain := LoadChain(records, header.firstLeaf);
    if chain.Err? {
      HeaderRefuted(m, headerId, header);
      return chain;
    }
    var leaves := chain.value;
    if header.height == 1 {
      if header.root != header.firstLeaf || |leaves| != 1 {
        ShapeRefuted(m, headerId, header, leaves);
        return Err(IndexCorruption);
      }
      LoadedIsTree(m, headerId, header, leaves);
      return Ok(leaves);
    }
    var internal := LoadInternal(records, header.root);
    if internal.Err? {
      RootRefuted(m, headerId, header);
      return Err(internal.error);
    }
    var matches := SeparatorsMatch(internal.value, leaves);
    if !matches {
      SeparatorsRefuted(m, headerId, header, leaves, internal.value);
      return Err(IndexCorruption);
    }
    LoadedIsTree(m, headerId, header, leaves);
    r := Ok(leaves);
  }

  method SeparatorsMatch(children: seq<Child>, leaves: seq<Node>) returns (ok: bool)
    ensures ok <==> (forall j :: 0 <= j < |leaves| ==> leaves[j].entries != []) && children == ChildrenOf(leaves)
  {
    if |children| != |leaves| {
      return false;
    }
    for i := 0 to |leaves|
      invariant forall j :: 0 <= j < i ==> leaves[j].entries != [] && children[j] == Child(High(leaves[j]), leaves[j].id)
    {
      if leaves[i].entries == [] || children[i].id != leaves[i].id ||
         children[i].high != leaves[i].entries[|leaves[i].entries| - 1] {
        return false;
      }
    }
    ok := true;
  }

  lemma NoHeader(m: Store, headerId: RecordId)
    requires forall h :: !HoldsHeader(m, headerId, h)
    ensures forall t :: WellFormed(t) && Stored(m, t) ==> t.header != headerId
  {
    forall t | WellFormed(t) && Stored(m, t)
      ensures t.header != headerId
    {
      assert HoldsHeader(m, t.header, HeaderOf(t));
    }
  }

  lemma HeaderHeight(m: Store, headerId: RecordId, h: Header)
    requires HoldsHeader(m, headerId, h)
    ensures h.height == 1 || h.height == 2
  {
  }

  lemma HeaderDetermines(m: Store, headerId: RecordId, h: Header, t: Tree)
    requires HoldsHeader(m, headerId, h) && WellFormed(t) && Stored(m, t) && t.header == headerId
    ensures HeaderOf(t) == h && StoredFrom(m, h.firstLeaf, t)
    ensures h.height == 2 ==> HoldsInternal(m, h.root, ChildrenOf(t.leaves))
  {
  }

  lemma HeaderRefuted(m: Store, headerId: RecordId, h: Header)
    requires HoldsHeader(m, headerId, h) && forall t :: !StoredFrom(m, h.firstLeaf, t)
    ensures forall t :: WellFormed(t) && Stored(m, t) ==> t.header != headerId
  {
    hide IsHeader, IsLeaf, IsInternal, WellFormed, Stored, StoredFrom;
    forall t | WellFormed(t) && Stored(m, t)
      ensures t.header != headerId
    {
      if t.header == headerId {
        HeaderDetermines(m, headerId, h, t);
      }
    }
  }

  lemma ShapeRefuted(m: Store, headerId: RecordId, h: Header, leaves: seq<Node>)
    requires HoldsHeader(m, headerId, h) && ChainLoaded(m, h.firstLeaf, leaves, None)
    requires h.height == 1 && (h.root != h.firstLeaf || |leaves| != 1)
    ensures forall t :: WellFormed(t) && Stored(m, t) ==> t.header != headerId
  {
    hide IsHeader, IsLeaf, IsInternal, Stored, LeavesOrdered, ChainLoaded;
    forall t | WellFormed(t) && Stored(m, t)
      ensures t.header != headerId
    {
      if t.header == headerId {
        HeaderDetermines(m, headerId, h, t);
        LoadedIsPrefix(m, h.firstLeaf, leaves, None, t);
      }
    }
  }

  lemma RootRefuted(m: Store, headerId: RecordId, h: Header)
    requires HoldsHeader(m, headerId, h) && h.height == 2 && forall cs :: !HoldsInternal(m, h.root, cs)
    ensures forall t :: WellFormed(t) && Stored(m, t) ==> t.header != headerId
  {
    hide IsHeader, IsLeaf, IsInternal, WellFormed, Stored;
    forall t | WellFormed(t) && Stored(m, t)
      ensures t.header != headerId
    {
      if t.header == headerId {
        HeaderDetermines(m, headerId, h, t);
      }
    }
  }

  lemma SeparatorsRefuted(m: Store, headerId: RecordId, h: Header, leaves: seq<Node>, cs: seq<Child>)
    requires HoldsHeader(m, headerId, h) && ChainLoaded(m, h.firstLeaf, leaves, None)
    requires h.height == 2 && HoldsInternal(m, h.root, cs)
    requires !((forall j :: 0 <= j < |leaves| ==> leaves[j].entries != []) && cs == ChildrenOf(leaves))
    ensures forall t :: WellFormed(t) && Stored(m, t) ==> t.header != headerId
  {
    hide IsHeader, IsLeaf, IsInternal, Stored, LeavesOrdered, ChainLoaded;
    forall t | WellFormed(t) && Stored(m, t)
      ensures t.header != headerId
    {
      if t.header == headerId {
        HeaderDetermines(m, headerId, h, t);
        LoadedIsPrefix(m, h.firstLeaf, leaves, None, t);
        InternalUnique(m[h.root], cs, ChildrenOf(t.leaves));
      }
    }
  }

  // ---------------------------------------------------------------- the index object

  class BPlusTreeIndex {
    const records: RecordStore
    const headerId: RecordId
    var root: RecordId
    var firstLeaf: RecordId
    var height: nat
    ghost var tree: Tree

    /** The fields in memory say what the header record says. */
    ghost predicate Matches()
      reads this
    {
      && WellFormed(tree)
      && tree.header == headerId && tree.root == root
      && tree.leaves[0].id == firstLeaf && Height(tree) == height
    }

    ghost predicate Valid()
      reads this, records, records.pool, records.pool.heap
    {
      records.Ready() && Matches() && Stored(records.Contents(), tree)
    }

    constructor Over(records: RecordStore, headerId: RecordId, root: RecordId, firstLeaf: RecordId, height: nat,
                     ghost tree: Tree)
      ensures this.records == records && this.headerId == headerId && this.root == root
      ensures this.firstLeaf == firstLeaf && this.height == height && this.tree == tree
    {
      this.records := records;
      this.headerId := headerId;
      this.root := root;
      this.firstLeaf := firstLeaf;
      this.height := height;
      this.tree := tree;
    }

    /** An empty tree in two new records. */
    static method Create(records: RecordStore) returns (index: BPlusTreeIndex)
      requires records.Ready() && |records.Slots()| + 2 <= MAX_PAGES
      modifies records, records.pool, records.pool.heap
      ensures fresh(index) && index.records == records && index.Valid()
      ensures index.tree == EmptyTree(index.headerId, index.root) && EntrySet(index.tree) == {}
      ensures |records.Slots()| <= |old(records.Slots())| + 2
      ensures index.headerId !in old(records.Contents()) && index.root !in old(records.Contents())
      ensures records.Contents() - {index.headerId, index.root} == old(records.Contents())
    {
      hide RecordStore.Contents, HasUnpinned, TableOk, PoolSlots, Kept, IsLeaf, IsHeader, BufferPool.Valid;
      var leafId := AddLeaf(records, Leaf(None, []));
      var headerId := AddHeader(records, Header(1, leafId, leafId));
      EmptyTreeWellFormed(headerId, leafId);
      index := new BPlusTreeIndex.Over(records, headerId, leafId, leafId, 1, EmptyTree(headerId, leafId));
    }

    /** Opens a stored tree: accepts a header id exactly when a tree is stored under it, and finds it. */
    static method Open(records: RecordStore, headerId: RecordId) returns (r: Result<BPlusTreeIndex>)
      requires records.Ready()
      modifies records.pool, records.pool.heap
      ensures records.Ready() && records.Slots() == old(records.Slots())
      ensures records.Contents() == old(records.Contents())
      ensures r.Ok? ==> fresh(r.value) && r.value.records == records && r.value.headerId == headerId && r.value.Valid()
      ensures r.Err? ==> r.error == IndexCorruption
      ensures r.Err? ==> forall t :: WellFormed(t) && Stored(records.Contents(), t) ==> t.header != headerId
    {
      hide IsLeaf, IsInternal, IsHeader, RecordStore.Contents, HasUnpinned, TableOk, PoolSlots, WellFormed, Stored,
           BufferPool.Valid;
      var header := LoadHeader(records, headerId);
      if header.Err? {
        NoHeader(records.Contents(), headerId);
        return Err(header.error);
      }
      var leaves := ValidateTree(records, headerId, header.value);
      if leaves.Err? {
        return Err(leaves.error);
      }
      ghost var tree := Tree(headerId, header.value.root, leaves.value);
      var index := new BPlusTreeIndex.Over(records, headerId, header.value.root, header.value.firstLeaf,
                                           header.value.height, tree);
      r := Ok(index);
    }

    /** The number of leaves: with the height, the number of records that the tree owns. */
    method LeafCount() returns (r: Result<nat>)
      requires Valid()
      modifies records.pool, records.pool.heap
      ensures Valid() && records.Slots() == old(records.Slots()) && records.Contents() == old(records.Contents())
      ensures r == Ok(|tree.leaves|) && |Owned(tree)| == r.value + height
    {
      hide IsLeaf, IsInternal, IsHeader, RecordStore.Contents, HasUnpinned, TableOk, PoolSlots, LeavesStored,
           LeavesOrdered, BufferPool.Valid;
      ghost var m := records.Contents();
      NodeConservation(tree);
      hide WellFormed;
      var leaves := ValidateTree(records, headerId, Header(height, root, firstLeaf));
      if leaves.Err? {
        return Err(IndexCorruption);
      }
      StoredUnique(m, Tree(headerId, root, leaves.value), tree);
      r := Ok(|leaves.value|);
    }

    /** The leaf an entry is routed to, with the children of the root at height two. */
    method Locate(e: Entry) returns (children: seq<Child>, c: nat, targetId: RecordId, leaf: Leaf)
      requires Valid()
      modifies records.pool, records.pool.heap
      ensures Valid() && records.Slots() == old(records.Slots())
      ensures records.Contents() == old(records.Contents())
      ensures c == RouteLeaf(tree, e) && targetId == tree.leaves[c].id && leaf == LeafOf(tree.leaves, c)
      ensures |tree.leaves| > 1 ==> children == ChildrenOf(tree.leaves)
    {
      hide IsLeaf, IsInternal, IsHeader, RecordStore.Contents, HasUnpinned, TableOk, PoolSlots, RouteEntry,
           LeavesOrdered, BufferPool.Valid;
      ghost var m := records.Contents();
      children, c, targetId := [], 0, root;
      if height == 2 {
        var internal := LoadInternal(records, root);
        assert HoldsInternal(m, tree.root, ChildrenOf(tree.leaves));
        InternalUnique(m[root], internal.value, ChildrenOf(tree.leaves));
        children := internal.value;
        c := RouteEntry(children, e);
        targetId := children[c].id;
      }
      var loaded := LoadLeaf(records, targetId);
      assert HoldsLeaf(m, tree.leaves[c].id, LeafOf(tree.leaves, c));
      LeafUnique(m[targetId], loaded.value, LeafOf(tree.leaves, c));
      leaf := loaded.value;
    }

    /**
     Adds an entry. The result says whether the set changed; the only failure is a full root over a
     full leaf, and then nothing has been written.
     */
    method Insert(key: int64, value: RecordId) returns (r: Result<bool>)
      requires Valid() && IdFits(value) && |records.Slots()| + 2 <= MAX_PAGES
      modifies this, records, records.pool, records.pool.heap
      ensures Valid() && |records.Slots()| <= |old(records.Slots())| + 2
      ensures OutsideKept(old(records.Contents()), old(tree), records.Contents(), tree)
      ensures r == Ok(false) <==> Entry(key, value) in EntrySet(old(tree))
      ensures r.Err? <==> Rejects(old(tree), Entry(key, value))
      ensures r.Err? ==> r.error == PageFull
      ensures r == Ok(true) ==> EntrySet(tree) == EntrySet(old(tree)) + {Entry(key, value)}
      ensures r == Ok(true) ==> InsertedBy(old(tree), Entry(key, value), tree)
      ensures r != Ok(true) ==> tree == old(tree) && records.Contents() == old(records.Contents())
    {
      hide IsLeaf, IsInternal, IsHeader, RecordStore.Contents, HasUnpinned, TableOk, PoolSlots, WellFormed, RouteLeaf,
           Stored, EntrySet, LowerBound, OutsideKept, InsertedBy, BufferPool.Valid;
      var e := Entry(key, value);
      ghost var t := tree;
      var children, c, targetId, leaf := Locate(e);
      OutsideRefl(records.Contents(), t);
      RoutedMembership(t, e);
      LeafOrdered(t, c);
      LowerBoundFinds(leaf.entries, e);
      LeafSize(t, c);
      var p := LowerBound(leaf.entries, e);
      if p < |leaf.entries| && leaf.entries[p] == e {
        return Ok(false);
      }
      var entries := leaf.entries[..p] + [e] + leaf.entries[p..];
      if |entries| <= LEAF_CAPACITY {
        InPlaceCase(t, e);
        WriteInPlace(c, targetId, leaf, entries, children, InPlaceTree(t, c, entries));
        return Ok(true);
      }
      if height == 2 && |children| == INTERNAL_CAPACITY {
        return Err(PageFull);
      }
      WriteSplit(e, c, targetId, leaf, entries, children);
      r := Ok(true);
    }

    /** Writes leaf c and, at height two, its separator. */
    method WriteInPlace(c: nat, targetId: RecordId, leaf: Leaf, es: seq<Entry>, children: seq<Child>, ghost t': Tree)
      requires Valid() && c < |tree.leaves| && (|tree.leaves| > 1 ==> children == ChildrenOf(tree.leaves) && es != [])
      requires targetId == tree.leaves[c].id && leaf == LeafOf(tree.leaves, c)
      requires t' == InPlaceTree(tree, c, es) && WellFormed(t')
      modifies this`tree, records.pool, records.pool.heap
      ensures Valid() && |records.Slots()| == |old(records.Slots())| && tree == t'
      ensures OutsideKept(old(records.Contents()), old(tree), records.Contents(), tree)
    {
      hide IsLeaf, IsInternal, IsHeader, RecordStore.Contents, HasUnpinned, TableOk, PoolSlots, WellFormed,
           OutsideKept, Stored, ChildrenOf, SeparatorsOrdered, ChildrenFit, DistinctChildren, InPlaceTree, ValidLeaf,
           BufferPool.Valid;
      ghost var t, m := tree, records.Contents();
      InPlaceFacts(m, t, c, es);
      WriteLeaf(records, targetId, Leaf(leaf.next, es), leaf);
      ghost var m1 := records.Contents();
      if height == 2 {
        var updated := children[c := Child(es[|es| - 1], targetId)];
        WriteInternal(records, root, updated, children);
        SameTrans(m, m1, records.Contents(), {targetId}, {root});
      }
      StoredInPlace(m, records.Contents(), t, t', c, es);
      tree := t';
    }

    /** Moves the upper half of an overfull leaf to a new leaf and tells the parent. */
    method WriteSplit(e: Entry, c: nat, targetId: RecordId, leaf: Leaf, es: seq<Entry>, children: seq<Child>)
      requires Valid() && IdFits(e.value) && |records.Slots()| + 2 <= MAX_PAGES
      requires c == RouteLeaf(tree, e) && Splits(tree, e) && es == WithEntry(tree.leaves[c].entries, e)
      requires targetId == tree.leaves[c].id && leaf == LeafOf(tree.leaves, c)
      requires |tree.leaves| > 1 ==> children == ChildrenOf(tree.leaves)
      modifies this, records, records.pool, records.pool.heap
      ensures Valid() && |records.Slots()| <= |old(records.Slots())| + 2
      ensures OutsideKept(old(records.Contents()), old(tree), records.Contents(), tree)
      ensures EntrySet(tree) == EntrySet(old(tree)) + {e} && InsertedBy(old(tree), e, tree)
    {
      hide IsLeaf, IsInternal, IsHeader, RecordStore.Contents, HasUnpinned, TableOk, PoolSlots, WellFormed, RouteLeaf,
           Stored, EntrySet, LowerBound, OutsideKept, InsertedBy, AfterHalves, SplitTree, BufferPool.Valid;
      ghost var t, m := tree, records.Contents();
      SplitEntriesFit(t, e, es);
      var rightId := WriteHalves(c, targetId, leaf, es);
      if height == 1 {
        var rootId := PromoteRoot(e, targetId, es, rightId, m);
        SplitCase(t, e, rightId, rootId);
      } else {
        ExtendRoot(e, c, targetId, es, children, rightId, m);
        SplitCase(t, e, rightId, t.root);
      }
    }

    method WriteHalves(c: nat, targetId: RecordId, leaf: Leaf, es: seq<Entry>) returns (rightId: RecordId)
      requires Valid() && |records.Slots()| < MAX_PAGES && c < |tree.leaves|
      requires targetId == tree.leaves[c].id && leaf == LeafOf(tree.leaves, c)
      requires ValidLeaf(Leaf(leaf.next, es[..|es| / 2])) && ValidLeaf(Leaf(leaf.next, es[|es| / 2..]))
      modifies records, records.pool, records.pool.heap
      ensures records.Ready() && Matches() && |records.Slots()| <= |old(records.Slots())| + 1
      ensures AfterHalves(old(records.Contents()), records.Contents(), tree, c, es, rightId)
    {
      hide IsLeaf, IsInternal, IsHeader, RecordStore.Contents, HasUnpinned, TableOk, PoolSlots, WellFormed,
           BufferPool.Valid;
      ghost var m := records.Contents();
      assert HoldsLeaf(m, targetId, leaf);
      rightId := AddLeaf(records, Leaf(leaf.next, es[|es| / 2..]));
      ghost var m1 := records.Contents();
      WriteLeaf(records, targetId, Leaf(Some(rightId), es[..|es| / 2]), leaf);
      SameTrans(m, m1, records.Contents(), {rightId}, {targetId});
    }

    /** Gives a split root leaf a new internal root. */
    method PromoteRoot(ghost e: Entry, targetId: RecordId, es: seq<Entry>, rightId: RecordId, ghost m: Store)
      returns (rootId: RecordId)
      requires records.Ready() && Matches() && |tree.leaves| == 1 && |records.Slots()| < MAX_PAGES && IdFits(e.value)
      requires Splits(tree, e) && es == WithEntry(tree.leaves[0].entries, e) && targetId == tree.leaves[0].id
      requires AfterHalves(m, records.Contents(), tree, 0, es, rightId)
      modifies this, records, records.pool, records.pool.heap
      ensures Valid() && |records.Slots()| <= |old(records.Slots())| + 1
      ensures FreshIds(old(tree), rightId, rootId) && tree == SplitTree(old(tree), 0, es, rightId, rootId)
      ensures OutsideKept(m, old(tree), records.Contents(), tree)
    {
      hide IsLeaf, IsInternal, IsHeader, RecordStore.Contents, HasUnpinned, TableOk, PoolSlots, WellFormed,
           LowerBound, OutsideKept, Ordered, EntrySet, InsertedBy, WithEntry, Stored, ChildrenOf, SplitTree,
           SeparatorsOrdered, ChildrenFit, DistinctChildren, Unowned, SameExcept, BufferPool.Valid, AfterHalves,
           AddedOnly, HoldsHeader, HoldsLeaf, HoldsInternal;
      ghost var t, m2 := tree, records.Contents();
      HalvesAreFresh(m, m2, t, es, rightId);
      FreshOfStore(m, t, rightId);
      PromoteFacts(m, m2, t, e, es, rightId);
      var left, right := es[..|es| / 2], es[|es| / 2..];
      var children := [Child(left[|left| - 1], targetId), Child(right[|right| - 1], rightId)];
      rootId := AddInternal(records, children);
      ghost var m3 := records.Contents();
      RootAdded(m, m2, m3, t, es, rightId, rootId, HeaderOf(t));
      WriteHeader(records, headerId, Header(2, rootId, firstLeaf), HeaderOf(t));
      PromotedNodes(m, m3, records.Contents(), t, es, rightId, rootId, children);
      FreshOfStore(m, t, rootId);
      SplitCase(t, e, rightId, rootId);
      PromotedTree(t, es, rightId, rootId);
      StoredPromoted(m, records.Contents(), t, es, rightId, rootId);
      root, height, tree := rootId, 2, SplitTree(t, 0, es, rightId, rootId);
    }

    /** Adds the new leaf to the internal root, after the leaf it was split from. */
    method ExtendRoot(ghost e: Entry, c: nat, targetId: RecordId, es: seq<Entry>, children: seq<Child>,
                      rightId: RecordId, ghost m: Store)
      requires records.Ready() && Matches() && |tree.leaves| > 1 && IdFits(e.value)
      requires c == RouteLeaf(tree, e) && Splits(tree, e) && es == WithEntry(tree.leaves[c].entries, e)
      requires targetId == tree.leaves[c].id && children == ChildrenOf(tree.leaves)
      requires AfterHalves(m, records.Contents(), tree, c, es, rightId)
      modifies this`tree, records.pool, records.pool.heap
      ensures Valid() && |records.Slots()| == |old(records.Slots())|
      ensures FreshIds(old(tree), rightId, old(tree).root)
      ensures tree == SplitTree(old(tree), c, es, rightId, old(tree).root)
      ensures OutsideKept(m, old(tree), records.Contents(), tree)
    {
      hide IsLeaf, IsInternal, IsHeader, RecordStore.Contents, HasUnpinned, TableOk, PoolSlots, WellFormed,
           LowerBound, OutsideKept, Ordered, EntrySet, InsertedBy, WithEntry, RouteLeaf, Stored, ChildrenOf,
           SplitTree, SeparatorsOrdered, ChildrenFit, DistinctChildren, Unowned, BufferPool.Valid;
      ghost var t, m2 := tree, records.Contents();
      ghost var t' := SplitTree(t, c, es, rightId, t.root);
      ExtendFacts(m, m2, t, e, c, es, rightId);
      var left, right := es[..|es| / 2], es[|es| / 2..];
      var updated := children[..c] + [Child(left[|left| - 1], targetId), Child(right[|right| - 1], rightId)] + children[c + 1..];
      WriteInternal(records, root, updated, children);
      SameTrans(m, m2, records.Contents(), {rightId, targetId}, {root});
      StoredExtended(m, records.Contents(), t, c, es, rightId);
      tree := t';
    }

    /**
     Removes an entry. A leaf that becomes empty is unlinked and dropped; when one leaf is left it
     becomes the root again. The consistency checks on the way cannot fail.
     */
    method Erase(key: int64, value: RecordId) returns (r: Result<bool>)
      requires Valid()
      modifies this, records.pool, records.pool.heap
      ensures Valid() && |records.Slots()| == |old(records.Slots())|
      ensures OutsideKept(old(records.Contents()), old(tree), records.Contents(), tree)
      ensures r == Ok(Entry(key, value) in EntrySet(old(tree)))
      ensures r == Ok(true) ==> && EraseFrom(old(tree), Entry(key, value)) == Some(tree)
                                && EntrySet(tree) == EntrySet(old(tree)) - {Entry(key, value)}
      ensures r == Ok(false) ==> tree == old(tree) && records.Contents() == old(records.Contents())
    {
      hide IsLeaf, IsInternal, IsHeader, RecordStore.Contents, HasUnpinned, TableOk, PoolSlots, WellFormed, RouteLeaf,
           Stored, EntrySet, LowerBound, OutsideKept, Ordered, BufferPool.Valid;
      var e := Entry(key, value);
      ghost var t := tree;
      var children, c, targetId, leaf := Locate(e);
      OutsideRefl(records.Contents(), t);
      RoutedMembership(t, e);
      LeafOrdered(t, c);
      LowerBoundFinds(leaf.entries, e);
      LeafSize(t, c);
      var p := LowerBound(leaf.entries, e);
      if p == |leaf.entries| || leaf.entries[p] != e {
        return Ok(false);
      }
      var entries := leaf.entries[..p] + leaf.entries[p + 1..];
      EraseRefinesSet(t, e);
      assert entries == WithoutEntry(leaf.entries, e);
      if height == 1 || entries != [] {
        WriteInPlace(c, targetId, leaf, entries, children, InPlaceTree(t, c, entries));
        return Ok(true);
      }
      r := Unlink(c, targetId, leaf, children);
    }

    /** Takes an emptied leaf out of the chain and tells the parent. */
    method Unlink(c: nat, targetId: RecordId, leaf: Leaf, children: seq<Child>) returns (r: Result<bool>)
      requires Valid() && |tree.leaves| > 1 && c < |tree.leaves| && children == ChildrenOf(tree.leaves)
      requires targetId == tree.leaves[c].id && leaf == LeafOf(tree.leaves, c)
      requires WellFormed(UnlinkedTree(tree, c))
      modifies this, records.pool, records.pool.heap
      ensures Valid() && |records.Slots()| == |old(records.Slots())|
      ensures OutsideKept(old(records.Contents()), old(tree), records.Contents(), tree)
      ensures r == Ok(true) && tree == UnlinkedTree(old(tree), c)
    {
      hide IsLeaf, IsInternal, IsHeader, RecordStore.Contents, HasUnpinned, TableOk, PoolSlots, WellFormed, Stored,
           OutsideKept, UnlinkedTree, ValidLeaf, BufferPool.Valid;
      ghost var t, m := tree, records.Contents();
      var expectedNext := if c + 1 < |children| then Some(children[c + 1].id) else None;
      if leaf.next != expectedNext {
        return Err(IndexCorruption);
      }
      if c != 0 {
        var predecessorId := children[c - 1].id;
        var predecessor := LoadLeaf(records, predecessorId);
        PredecessorFacts(m, t, c);
        LeafUnique(m[predecessorId], predecessor.value, LeafOf(t.leaves, c - 1));
        if predecessor.value.next != Some(targetId) {
          return Err(IndexCorruption);
        }
        WriteLeaf(records, predecessorId, Leaf(leaf.next, predecessor.value.entries), predecessor.value);
      }
      if |children| == 2 {
        r := Collapse(c, targetId, children, m);
      } else {
        r := Shrink(c, targetId, leaf, children, m);
      }
    }

    /** With one leaf left, it becomes the root and the internal node goes. */
    method Collapse(c: nat, targetId: RecordId, children: seq<Child>, ghost m: Store) returns (r: Result<bool>)
      requires records.Ready() && AfterUnlink(m, records.Contents(), tree, c) && Matches()
      requires |tree.leaves| == 2 && children == ChildrenOf(tree.leaves) && targetId == tree.leaves[c].id
      requires WellFormed(UnlinkedTree(tree, c))
      modifies this, records.pool, records.pool.heap
      ensures Valid() && |records.Slots()| == |old(records.Slots())|
      ensures OutsideKept(m, old(tree), records.Contents(), tree)
      ensures r == Ok(true) && tree == UnlinkedTree(old(tree), c)
    {
      hide IsLeaf, IsInternal, IsHeader, RecordStore.Contents, HasUnpinned, TableOk, PoolSlots, WellFormed, Stored,
           OutsideKept, UnlinkedTree, BufferPool.Valid, ChildrenOf, Kept;
      ghost var t, m1 := tree, records.Contents();
      UnlinkFacts(m, m1, t, c);
      var remainingId := children[if c == 0 then 1 else 0].id;
      var newFirst := if c == 0 then remainingId else firstLeaf;
      WriteHeader(records, headerId, Header(1, remainingId, newFirst), HeaderOf(t));
      ghost var m2 := records.Contents();
      var rootGone := records.Erase(root);
      var leafGone := records.Erase(targetId);
      if !rootGone || !leafGone {
        return Err(IndexCorruption);
      }
      StoredCollapsed(m, m1, m2, records.Contents(), t, c);
      root, firstLeaf, height, tree := remainingId, newFirst, 1, UnlinkedTree(t, c);
      r := Ok(true);
    }

    /** The internal root loses the child; the header follows if the first leaf went. */
    method Shrink(c: nat, targetId: RecordId, leaf: Leaf, children: seq<Child>,
                  ghost m: Store) returns (r: Result<bool>)
      requires records.Ready() && AfterUnlink(m, records.Contents(), tree, c) && Matches()
      requires |tree.leaves| > 2 && children == ChildrenOf(tree.leaves) && targetId == tree.leaves[c].id
      requires leaf == LeafOf(tree.leaves, c) && WellFormed(UnlinkedTree(tree, c))
      modifies this, records.pool, records.pool.heap
      ensures Valid() && |records.Slots()| == |old(records.Slots())|
      ensures OutsideKept(m, old(tree), records.Contents(), tree)
      ensures r == Ok(true) && tree == UnlinkedTree(old(tree), c)
    {
      hide IsLeaf, IsInternal, IsHeader, RecordStore.Contents, HasUnpinned, TableOk, PoolSlots, WellFormed, Stored,
           OutsideKept, UnlinkedTree, ChildrenOf, SeparatorsOrdered, ChildrenFit, DistinctChildren, BufferPool.Valid;
      ghost var t, m1 := tree, records.Contents();
      UnlinkFacts(m, m1, t, c);
      ShrunkChildren(t, c);
      WriteInternal(records, root, children[..c] + children[c + 1..], children);
      ghost var m2 := records.Contents();
      if c == 0 {
        firstLeaf := leaf.next.value;
        WriteHeader(records, headerId, Header(2, root, firstLeaf), HeaderOf(t));
      }
      ghost var m3 := records.Contents();
      var leafGone := records.Erase(targetId);
      if !leafGone {
        return Err(IndexCorruption);
      }
      StoredShrunk(m, m1, m2, m3, records.Contents(), t, c);
      tree := UnlinkedTree(t, c);
      r := Ok(true);
    }

    /** The leaf a search for `key` starts in; at height one that is the root. */
    method StartFor(key: int64) returns (start: RecordId, ghost i: nat)
      requires Valid()
      modifies records.pool, records.pool.heap
      ensures Valid() && records.Slots() == old(records.Slots()) && records.Contents() == old(records.Contents())
      ensures i < |tree.leaves| && start == tree.leaves[i].id
      ensures forall e :: e in Flatten(tree.leaves[..i]) ==> e.key < key
    {
      hide IsLeaf, IsInternal, IsHeader, RecordStore.Contents, HasUnpinned, TableOk, PoolSlots, LeavesOrdered,
           Flatten, BufferPool.Valid;
      ghost var m := records.Contents();
      start, i := root, 0;
      if height == 2 {
        var internal := LoadInternal(records, root);
        assert HoldsInternal(m, tree.root, ChildrenOf(tree.leaves));
        InternalUnique(m[root], internal.value, ChildrenOf(tree.leaves));
        RouteKeySkips(tree, key);
        i := RouteKey(internal.value, key);
        start := internal.value[RouteKey(internal.value, key)].id;
      } else {
        FlattenNone();
      }
    }

    /** The row ids stored under a key, in order, up to the limit. */
    method Find(key: int64, limit: Option<nat>) returns (r: Result<seq<RecordId>>)
      requires Valid()
      modifies records.pool, records.pool.heap
      ensures Valid() && records.Slots() == old(records.Slots()) && records.Contents() == old(records.Contents())
      ensures r == Ok(Take(WithKey(Flatten(tree.leaves), key), limit))
    {
      hide IsLeaf, IsInternal, IsHeader, RecordStore.Contents, HasUnpinned, TableOk, PoolSlots, WellFormed, Stored,
           Flatten, WithKey, WalkAt, BufferPool.Valid;
      if limit == Some(0) {
        return Ok([]);
      }
      ghost var m, all := records.Contents(), WithKey(Flatten(tree.leaves), key);
      var start;
      ghost var i;
      start, i := StartFor(key);
      SearchStart(tree, i, key);
      WalkStart(tree, i);
      var current, visited, result := Some(start), {}, [];
      while current.Some?
        invariant Valid() && records.Contents() == m && records.Slots() == old(records.Slots())
        invariant WalkAt(tree, current, visited, i) && i <= |tree.leaves|
        invariant all == result + WithKey(Flatten(tree.leaves[i..]), key)
        invariant limit.Some? ==> |result| < limit.value
        decreases |tree.leaves| - i
      {
        WalkHere(tree, current, visited, i);
        if current.value in visited {
          return Err(IndexCorruption);
        }
        WalkOn(m, tree, current, visited, i);
        visited := visited + {current.value};
        var loaded := LoadLeaf(records, current.value);
        LeafUnique(m[current.value], loaded.value, LeafOf(tree.leaves, i));
        var leaf := loaded.value;
        FlattenFrom(tree.leaves, i);
        WithKeyConcat(leaf.entries, Flatten(tree.leaves[i + 1..]), key);
        ghost var before := result;
        var full;
        result, full := CollectKey(leaf.entries, key, limit, result);
        if full {
          PrefixTaken(result, before, WithKey(leaf.entries, key), WithKey(Flatten(tree.leaves[i + 1..]), key));
          return Ok(result);
        }
        if leaf.entries != [] && leaf.entries[|leaf.entries| - 1].key > key {
          BehindHasNoKey(tree, i, key);
          assert all == result + [] == result;
          return Ok(result);
        }
        current, i := leaf.next, i + 1;
      }
      WalkDone(tree, current, visited, i);
      assert tree.leaves[i..] == [];
      NothingLeft(key);
      assert all == result + [] == result;
      r := Ok(result);
    }

    /** The entries within inclusive bounds, in order, up to the limit. */
    method Range(lower: Option<int64>, upper: Option<int64>, limit: Option<nat>) returns (r: Result<seq<Entry>>)
      requires Valid()
      modifies records.pool, records.pool.heap
      ensures Valid() && records.Slots() == old(records.Slots()) && records.Contents() == old(records.Contents())
      ensures r == if lower.Some? && upper.Some? && lower.value > upper.value then Err(InvalidArgument)
                   else Ok(Take(Between(Flatten(tree.leaves), lower, upper), limit))
    {
      hide IsLeaf, IsInternal, IsHeader, RecordStore.Contents, HasUnpinned, TableOk, PoolSlots, WellFormed, Stored,
           Flatten, Between, WalkAt, BufferPool.Valid;
      if lower.Some? && upper.Some? && lower.value > upper.value {
        return Err(InvalidArgument);
      }
      if limit == Some(0) {
        return Ok([]);
      }
      ghost var m, all := records.Contents(), Between(Flatten(tree.leaves), lower, upper);
      var start := firstLeaf;
      ghost var i := 0;
      if lower.Some? && height == 2 {
        start, i := StartFor(lower.value);
        RangeStart(tree, i, lower, upper);
      }
      FirstLeafExists(tree);
      WalkStart(tree, i);
      var current, visited, result := Some(start), {}, [];
      while current.Some?
        invariant Valid() && records.Contents() == m && records.Slots() == old(records.Slots())
        invariant WalkAt(tree, current, visited, i) && i <= |tree.leaves|
        invariant all == result + Between(Flatten(tree.leaves[i..]), lower, upper)
        invariant limit.Some? ==> |result| < limit.value
        decreases |tree.leaves| - i
      {
        WalkHere(tree, current, visited, i);
        if current.value in visited {
          return Err(IndexCorruption);
        }
        WalkOn(m, tree, current, visited, i);
        visited := visited + {current.value};
        var loaded := LoadLeaf(records, current.value);
        LeafUnique(m[current.value], loaded.value, LeafOf(tree.leaves, i));
        var leaf := loaded.value;
        ghost var before := result;
        var stop;
        result, stop := CollectRange(leaf.entries, lower, upper, limit, result);
        if stop {
          RangeStopped(tree, i, lower, upper, limit, before, result);
          return Ok(result);
        }
        RangeMoved(tree, i, lower, upper, before);
        current, i := leaf.next, i + 1;
      }
      WalkDone(tree, current, visited, i);
      assert tree.leaves[i..] == [];
      NothingLeft(0);
      assert all == result + [] == result;
      r := Ok(result);
    }
  }

  /** What has been found so far, and where the walk stands. */
  ghost predicate WalkAt(t: Tree, current: Option<RecordId>, visited: set<RecordId>, i: nat) {
    && i <= |t.leaves|
    && current == (if i < |t.leaves| then Some(t.leaves[i].id) else None)
    && forall j :: i <= j < |t.leaves| ==> t.leaves[j].id !in visited
  }

  lemma FirstLeafExists(t: Tree)
    requires WellFormed(t)
    ensures |t.leaves| > 0 && t.leaves[0..] == t.leaves
  {
  }

  lemma WalkStart(t: Tree, i: nat)
    requires i < |t.leaves|
    ensures WalkAt(t, Some(t.leaves[i].id), {}, i)
  {
  }

  lemma WalkHere(t: Tree, current: Option<RecordId>, visited: set<RecordId>, i: nat)
    requires WalkAt(t, current, visited, i) && current.Some?
    ensures i < |t.leaves| && current.value == t.leaves[i].id && current.value !in visited
  {
  }

  lemma WalkDone(t: Tree, current: Option<RecordId>, visited: set<RecordId>, i: nat)
    requires WalkAt(t, current, visited, i) && current == None
    ensures i == |t.leaves|
  {
  }

  /** Starting at leaf i, nothing with the key has been skipped. */
  lemma SearchStart(t: Tree, i: nat, key: int64)
    requires i < |t.leaves| && forall e :: e in Flatten(t.leaves[..i]) ==> e.key < key
    ensures WithKey(Flatten(t.leaves), key) == WithKey(Flatten(t.leaves[i..]), key)
  {
    FlattenSplit(t.leaves, i);
    WithKeyConcat(Flatten(t.leaves[..i]), Flatten(t.leaves[i..]), key);
    WithKeyNone(Flatten(t.leaves[..i]), key);
  }

  lemma RangeStart(t: Tree, i: nat, lower: Option<int64>, upper: Option<int64>)
    requires i < |t.leaves| && lower.Some? && forall e :: e in Flatten(t.leaves[..i]) ==> e.key < lower.value
    ensures Between(Flatten(t.leaves), lower, upper) == Between(Flatten(t.leaves[i..]), lower, upper)
  {
    FlattenSplit(t.leaves, i);
    BetweenConcat(Flatten(t.leaves[..i]), Flatten(t.leaves[i..]), lower, upper);
    BetweenNone(Flatten(t.leaves[..i]), lower, upper);
  }

  /** A result that has reached the limit is the cut of the whole answer. */
  lemma PrefixTaken<T>(r: seq<T>, a: seq<T>, b: seq<T>, c: seq<T>)
    requires r <= a + b
    ensures Take(a + (b + c), Some(|r|)) == r
  {
    assert a + (b + c) == (a + b) + c;
  }

  /** Moving on to the next leaf, the entries of this one count as found. */
  lemma RangeMoved(t: Tree, i: nat, lower: Option<int64>, upper: Option<int64>, found: seq<Entry>)
    requires i < |t.leaves|
    ensures found + Between(Flatten(t.leaves[i..]), lower, upper)
         == found + Between(t.leaves[i].entries, lower, upper) + Between(Flatten(t.leaves[i + 1..]), lower, upper)
  {
    hide Flatten, Between;
    FlattenFrom(t.leaves, i);
    BetweenConcat(t.leaves[i].entries, Flatten(t.leaves[i + 1..]), lower, upper);
  }

  /** Stopping in a leaf, at the limit or above the upper bound, leaves nothing out. */
  lemma RangeStopped(t: Tree, i: nat, lower: Option<int64>, upper: Option<int64>, limit: Option<nat>,
                     before: seq<Entry>, result: seq<Entry>)
    requires WellFormed(t) && i < |t.leaves|
    requires var es := t.leaves[i].entries;
      && result <= before + Between(es, lower, upper) && (limit.Some? ==> |result| <= limit.value)
      && (|| limit == Some(|result|)
          || (es != [] && upper.Some? && es[|es| - 1].key > upper.value && result == before + Between(es, lower, upper)))
    ensures Take(before + Between(Flatten(t.leaves[i..]), lower, upper), limit) == result
  {
    hide Flatten, Between, WellFormed;
    RangeMoved(t, i, lower, upper, before);
    if limit == Some(|result|) {
      PrefixTaken(result, before, Between(t.leaves[i].entries, lower, upper), Between(Flatten(t.leaves[i + 1..]), lower, upper));
    } else {
      BehindIsAbove(t, i, lower, upper);
      assert result + [] == result;
    }
  }

  lemma NothingLeft(key: int64)
    ensures WithKey(Flatten([]), key) == []
    ensures forall lower, upper :: Between(Flatten([]), lower, upper) == []
  {
  }

  lemma WalkOn(m: Store, t: Tree, current: Option<RecordId>, visited: set<RecordId>, i: nat)
    requires WellFormed(t) && Stored(m, t) && WalkAt(t, current, visited, i) && i < |t.leaves|
    ensures WalkAt(t, NextOf(t.leaves, i), visited + {t.leaves[i].id}, i + 1)
    ensures HoldsLeaf(m, t.leaves[i].id, LeafOf(t.leaves, i)) && Ordered(t.leaves[i].entries)
  {
  }

  /** The tree without its emptied leaf c. */
  function UnlinkedTree(t: Tree, c: nat): Tree
    requires c < |t.leaves| && |t.leaves| > 1
  {
    var rest := ReplaceLeaf(t.leaves, c, []);
    Tree(t.header, if |rest| == 1 then rest[0].id else t.root, rest)
  }

  /** The state after the predecessor's link skips leaf c. */
  ghost predicate AfterUnlink(m: Store, m': Store, t: Tree, c: nat) {
    && WellFormed(t) && Stored(m, t) && c < |t.leaves| && |t.leaves| > 1
    && SameExcept(m, m', if c > 0 then {t.leaves[c - 1].id} else {})
    && (c > 0 ==> HoldsLeaf(m', t.leaves[c - 1].id, Leaf(NextOf(t.leaves, c), t.leaves[c - 1].entries)))
  }

  lemma PredecessorFacts(m: Store, t: Tree, c: nat)
    requires WellFormed(t) && Stored(m, t) && 0 < c < |t.leaves|
    ensures HoldsLeaf(m, t.leaves[c - 1].id, LeafOf(t.leaves, c - 1))
    ensures ValidLeaf(Leaf(NextOf(t.leaves, c), t.leaves[c - 1].entries))
  {
    LeafFits(t, c - 1);
    LeafFits(t, c);
  }

  lemma UnlinkFacts(m: Store, m1: Store, t: Tree, c: nat)
    requires AfterUnlink(m, m1, t, c) && WellFormed(UnlinkedTree(t, c))
    ensures HoldsHeader(m1, t.header, HeaderOf(t)) && HoldsInternal(m1, t.root, ChildrenOf(t.leaves))
    ensures forall i :: 0 <= i < |t.leaves| ==> IdFits(t.leaves[i].id) && t.leaves[i].id in m1
    ensures IdFits(t.root) && t.header != t.root && t.header != t.leaves[c].id && t.root != t.leaves[c].id
    ensures var t' := UnlinkedTree(t, c);
      && t'.header == t.header && |t'.leaves| == |t.leaves| - 1
      && t'.leaves[0].id == (if c == 0 then t.leaves[1].id else t.leaves[0].id)
      && t'.root == if |t.leaves| == 2 then t.leaves[1 - c].id else t.root
  {
    hide IsLeaf, IsInternal, IsHeader, LeavesOrdered;
    IdsDistinct(t, c);
    forall i | 0 <= i < |t.leaves|
      ensures t.leaves[i].id in m1
    {
      assert HoldsLeaf(m, t.leaves[i].id, LeafOf(t.leaves, i));
    }
  }

  lemma ShrunkChildren(t: Tree, c: nat)
    requires WellFormed(t) && c < |t.leaves| && |t.leaves| > 2 && WellFormed(UnlinkedTree(t, c))
    ensures var t', cs := UnlinkedTree(t, c), ChildrenOf(t.leaves)[..c] + ChildrenOf(t.leaves)[c + 1..];
      && (forall i :: 0 <= i < |t'.leaves| ==> t'.leaves[i].entries != [])
      && ChildrenOf(t'.leaves) == cs && SeparatorsOrdered(cs) && ChildrenFit(cs) && DistinctChildren(cs)
      && |cs| <= INTERNAL_CAPACITY
  {
    hide LeavesOrdered, DistinctIds, SeparatorsOrdered, ChildrenFit, DistinctChildren;
    ChildrenEncodable(UnlinkedTree(t, c));
    ChildrenEncodable(t);
  }

  lemma StoredCollapsed(m: Store, m1: Store, m2: Store, m': Store, t: Tree, c: nat)
    requires AfterUnlink(m, m1, t, c) && |t.leaves| == 2 && WellFormed(UnlinkedTree(t, c))
    requires SameExcept(m1, m2, {t.header}) && HoldsHeader(m2, t.header, HeaderOf(UnlinkedTree(t, c)))
    requires m' == m2 - {t.root} - {t.leaves[c].id}
    ensures Stored(m', UnlinkedTree(t, c)) && OutsideKept(m, t, m', UnlinkedTree(t, c))
  {
    hide LeavesOrdered, IsLeaf, IsHeader, IsInternal, NodeOk, OutsideKept;
    var t' := UnlinkedTree(t, c);
    IdsDistinct(t, c);
    IdsDistinct(t, 1 - c);
    assert HoldsLeaf(m, t.leaves[1 - c].id, LeafOf(t.leaves, 1 - c));
    StoredUnlinked(m, m', t, t', c);
  }

  lemma StoredShrunk(m: Store, m1: Store, m2: Store, m3: Store, m': Store, t: Tree, c: nat)
    requires AfterUnlink(m, m1, t, c) && |t.leaves| > 2 && WellFormed(UnlinkedTree(t, c))
    requires SameExcept(m1, m2, {t.root})
    requires forall i :: 0 <= i < |UnlinkedTree(t, c).leaves| ==> UnlinkedTree(t, c).leaves[i].entries != []
    requires HoldsInternal(m2, t.root, ChildrenOf(UnlinkedTree(t, c).leaves))
    requires if c == 0 then SameExcept(m2, m3, {t.header}) && HoldsHeader(m3, t.header, HeaderOf(UnlinkedTree(t, c)))
             else m3 == m2
    requires m' == m3 - {t.leaves[c].id}
    ensures Stored(m', UnlinkedTree(t, c)) && OutsideKept(m, t, m', UnlinkedTree(t, c))
  {
    hide IsLeaf, IsHeader, IsInternal, WellFormed, HoldsInternal, HoldsHeader, ChildrenOf, OutsideKept, LeavesStored,
         HeaderOf;
    var t' := UnlinkedTree(t, c);
    IdsDistinct(t, c);
    if c > 0 {
      IdsDistinct(t, c - 1);
    }
    WellFormedHeight(t);
    WellFormedHeight(t');
    ShrunkLeaves(m, m1, m2, m3, m', t, c);
    ShrunkHeader(m, m1, m2, m3, m', t, c);
    InternalKept(m2, m3, m', t.root, ChildrenOf(t'.leaves));
    StoredUnlinked(m, m', t, t', c);
  }

  lemma ShrunkLeaves(m: Store, m1: Store, m2: Store, m3: Store, m': Store, t: Tree, c: nat)
    requires AfterUnlink(m, m1, t, c) && |t.leaves| > 2 && SameExcept(m1, m2, {t.root})
    requires if c == 0 then SameExcept(m2, m3, {t.header}) else m3 == m2
    requires m' == m3 - {t.leaves[c].id}
    ensures forall i :: 0 <= i < |t.leaves| && i != c && i + 1 != c ==>
      t.leaves[i].id in m && t.leaves[i].id in m' && m'[t.leaves[i].id] == m[t.leaves[i].id]
  {
    hide IsLeaf, IsHeader, IsInternal, WellFormed, HoldsInternal, HoldsHeader, ChildrenOf;
    IdsDistinct(t, c);
    forall i | 0 <= i < |t.leaves| && i != c && i + 1 != c
      ensures t.leaves[i].id in m && t.leaves[i].id in m' && m'[t.leaves[i].id] == m[t.leaves[i].id]
    {
      IdsDistinct(t, i);
      assert HoldsLeaf(m, t.leaves[i].id, LeafOf(t.leaves, i));
    }
  }

  lemma InternalKept(m2: Store, m3: Store, m': Store, id: RecordId, cs: seq<Child>)
    requires HoldsInternal(m2, id, cs)
    requires id in m2 ==> id in m3 && id in m' && m3[id] == m2[id] && m'[id] == m3[id]
    ensures HoldsInternal(m', id, cs)
  {
    hide IsInternal;
  }

  /** The header record is right after shrinking, rewritten or not. */
  lemma ShrunkHeader(m: Store, m1: Store, m2: Store, m3: Store, m': Store, t: Tree, c: nat)
    requires AfterUnlink(m, m1, t, c) && |t.leaves| > 2 && SameExcept(m1, m2, {t.root})
    requires if c == 0 then SameExcept(m2, m3, {t.header}) && HoldsHeader(m3, t.header, HeaderOf(UnlinkedTree(t, c)))
             else m3 == m2
    requires m' == m3 - {t.leaves[c].id}
    ensures HoldsHeader(m', t.header, HeaderOf(UnlinkedTree(t, c)))
  {
    hide IsLeaf, IsHeader, IsInternal, WellFormed, ChildrenOf, LeavesStored;
    IdsDistinct(t, c);
    WellFormedHeight(t);
    if c > 0 {
      IdsDistinct(t, c - 1);
    }
  }

  /** Before the parent is told of a split at height two. */
  lemma ExtendFacts(m: Store, m2: Store, t: Tree, e: Entry, c: nat, es: seq<Entry>, rightId: RecordId)
    requires AfterHalves(m, m2, t, c, es, rightId) && |t.leaves| > 1 && Splits(t, e) && IdFits(e.value)
    requires c == RouteLeaf(t, e) && es == WithEntry(t.leaves[c].entries, e)
    ensures |es| == LEAF_CAPACITY + 1 && FreshIds(t, rightId, t.root)
    ensures forall i :: 0 <= i < |t.leaves| ==> t.leaves[i].entries != []
    ensures HoldsInternal(m2, t.root, ChildrenOf(t.leaves)) && t.root != t.leaves[c].id && t.root != rightId
    ensures var t' := SplitTree(t, c, es, rightId, t.root);
      && WellFormed(t') && t'.root == t.root && t'.header == t.header && t'.leaves[0].id == t.leaves[0].id
      && Height(t') == 2 && |t'.leaves| <= INTERNAL_CAPACITY
      && (forall i :: 0 <= i < |t'.leaves| ==> t'.leaves[i].entries != [])
      && var left, right := es[..|es| / 2], es[|es| / 2..];
      && var cs := ChildrenOf(t.leaves)[..c] + [Child(left[|left| - 1], t.leaves[c].id), Child(right[|right| - 1], rightId)]
                   + ChildrenOf(t.leaves)[c + 1..];
      && ChildrenOf(t'.leaves) == cs && SeparatorsOrdered(cs) && ChildrenFit(cs) && DistinctChildren(cs)
  {
    hide LowerBound, LeavesOrdered, WithEntry, IsLeaf, IsHeader, IsInternal, Ordered, RouteLeaf, EntrySet, InsertedBy,
         DistinctIds, SeparatorsOrdered, ChildrenFit, DistinctChildren;
    var t' := SplitTree(t, c, es, rightId, t.root);
    FreshOfStore(m, t, rightId);
    IdsDistinct(t, c);
    SplitEntriesFit(t, e, es);
    SplitCase(t, e, rightId, t.root);
    ChildrenEncodable(t');
    SplitChildren(t, t', c, es, rightId);
  }

  lemma HalvesAreFresh(m: Store, m2: Store, t: Tree, es: seq<Entry>, rightId: RecordId)
    requires AfterHalves(m, m2, t, 0, es, rightId)
    ensures WellFormed(t) && Stored(m, t) && rightId !in m && LinkFits(rightId)
  {
  }

  /** After the halves of a single leaf, the new root has been written. */
  lemma RootAdded(m: Store, m2: Store, m3: Store, t: Tree, es: seq<Entry>, rightId: RecordId, rootId: RecordId, h: Header)
    requires AfterHalves(m, m2, t, 0, es, rightId) && AddedOnly(m2, m3, rootId) && HoldsHeader(m2, t.header, h)
    ensures HoldsHeader(m3, t.header, h)
    ensures rootId !in m && rootId != rightId && rootId != t.header && LinkFits(rootId)
    ensures SameExcept(m, m3, {rightId, t.leaves[0].id, rootId})
    ensures HoldsLeaf(m3, t.leaves[0].id, Leaf(Some(rightId), es[..|es| / 2]))
    ensures HoldsLeaf(m3, rightId, Leaf(NextOf(t.leaves, 0), es[|es| / 2..]))
  {
    hide IsLeaf, IsHeader, WellFormed, Stored;
    SameTrans(m, m2, m3, {rightId, t.leaves[0].id}, {rootId});
    assert {rightId, t.leaves[0].id} + {rootId} == {rightId, t.leaves[0].id, rootId};
  }

  /** Then the header has been rewritten. */
  lemma PromotedNodes(m: Store, m3: Store, m': Store, t: Tree, es: seq<Entry>, rightId: RecordId, rootId: RecordId,
                      cs: seq<Child>)
    requires t.leaves != [] && SameExcept(m, m3, {rightId, t.leaves[0].id, rootId}) && SameExcept(m3, m', {t.header})
    requires HoldsLeaf(m3, t.leaves[0].id, Leaf(Some(rightId), es[..|es| / 2]))
    requires HoldsLeaf(m3, rightId, Leaf(NextOf(t.leaves, 0), es[|es| / 2..])) && HoldsInternal(m3, rootId, cs)
    requires t.header != rightId && t.header != rootId && t.header != t.leaves[0].id
    ensures SameExcept(m, m', {rightId, t.leaves[0].id, rootId} + {t.header})
    ensures HoldsLeaf(m', t.leaves[0].id, Leaf(Some(rightId), es[..|es| / 2]))
    ensures HoldsLeaf(m', rightId, Leaf(NextOf(t.leaves, 0), es[|es| / 2..])) && HoldsInternal(m', rootId, cs)
  {
    hide IsLeaf, IsInternal;
    SameTrans(m, m3, m', {rightId, t.leaves[0].id, rootId}, {t.header});
  }

  lemma StoredPromoted(m: Store, m': Store, t: Tree, es: seq<Entry>, rightId: RecordId, rootId: RecordId)
    requires WellFormed(t) && Stored(m, t) && |t.leaves| == 1 && Unowned(t, rightId)
    requires var t' := SplitTree(t, 0, es, rightId, rootId);
      WellFormed(t') && |t'.leaves| > 1 && HoldsInternal(m', rootId, ChildrenOf(t'.leaves)) && HoldsHeader(m', t.header, HeaderOf(t'))
    requires rightId !in m && rootId !in m
    requires SameExcept(m, m', {rightId, t.leaves[0].id, rootId} + {t.header})
    requires HoldsLeaf(m', t.leaves[0].id, Leaf(Some(rightId), es[..|es| / 2]))
    requires HoldsLeaf(m', rightId, Leaf(NextOf(t.leaves, 0), es[|es| / 2..]))
    ensures var t' := SplitTree(t, 0, es, rightId, rootId);
      Stored(m', t') && OutsideKept(m, t, m', t')
  {
    hide LeavesOrdered, IsLeaf, IsHeader, IsInternal, NodeOk, OutsideKept;
    StoredSplit(m, m', t, SplitTree(t, 0, es, rightId, rootId), 0, es[..|es| / 2], es[|es| / 2..], rightId);
  }

  lemma StoredExtended(m: Store, m': Store, t: Tree, c: nat, es: seq<Entry>, rightId: RecordId)
    requires WellFormed(t) && Stored(m, t) && c < |t.leaves| && |t.leaves| > 1 && Unowned(t, rightId)
    requires var t' := SplitTree(t, c, es, rightId, t.root);
      WellFormed(t') && |t'.leaves| > 1 && HoldsInternal(m', t.root, ChildrenOf(t'.leaves))
    requires rightId !in m && SameExcept(m, m', {rightId, t.leaves[c].id} + {t.root})
    requires HoldsLeaf(m', t.leaves[c].id, Leaf(Some(rightId), es[..|es| / 2]))
    requires HoldsLeaf(m', rightId, Leaf(NextOf(t.leaves, c), es[|es| / 2..]))
    ensures var t' := SplitTree(t, c, es, rightId, t.root);
      Stored(m', t') && OutsideKept(m, t, m', t')
  {
    hide IsLeaf, IsHeader, IsInternal, WellFormed, ChildrenOf, OutsideKept;
    WellFormedHeight(t);
    IdsDistinct(t, c);
    forall i | 0 <= i < |t.leaves| && i != c
      ensures t.leaves[i].id in m && t.leaves[i].id in m' && m'[t.leaves[i].id] == m[t.leaves[i].id]
    {
      assert HoldsLeaf(m, t.leaves[i].id, LeafOf(t.leaves, i));
    }
    StoredSplit(m, m', t, SplitTree(t, c, es, rightId, t.root), c, es[..|es| / 2], es[|es| / 2..], rightId);
  }

  function SplitTree(t: Tree, c: nat, es: seq<Entry>, rightId: RecordId, rootId: RecordId): Tree
    requires c < |t.leaves|
  {
    var half := |es| / 2;
    var parts := [Node(t.leaves[c].id, es[..half]), Node(rightId, es[half..])];
    Tree(t.header, if |t.leaves| == 1 then rootId else t.root, ReplaceLeaf(t.leaves, c, parts))
  }

  lemma SplitCase(t: Tree, e: Entry, rightId: RecordId, rootId: RecordId)
    requires WellFormed(t) && IdFits(e.value) && Splits(t, e) && FreshIds(t, rightId, rootId)
    ensures var c := RouteLeaf(t, e);
      var t' := SplitTree(t, c, WithEntry(t.leaves[c].entries, e), rightId, rootId);
      WellFormed(t') && EntrySet(t') == EntrySet(t) + {e} && InsertedBy(t, e, t')
  {
    hide RouteLeaf, LowerBound, EntrySet, WellFormed, FreshIds;
    var c := RouteLeaf(t, e);
    LeafOrdered(t, c);
    LowerBoundFinds(t.leaves[c].entries, e);
    WithEntrySize(t.leaves[c].entries, e);
    InsertRefinesSet(t, e, rightId, rootId);
    assert InsertedByIds(t, e, rightId, rootId, SplitTree(t, c, WithEntry(t.leaves[c].entries, e), rightId, rootId));
  }

  /** Both halves of an overfull leaf are valid leaves. */
  lemma SplitEntriesFit(t: Tree, e: Entry, es: seq<Entry>)
    requires WellFormed(t) && IdFits(e.value) && Splits(t, e)
    requires es == WithEntry(t.leaves[RouteLeaf(t, e)].entries, e)
    ensures |es| == LEAF_CAPACITY + 1 && Ordered(es)
    ensures var next := NextOf(t.leaves, RouteLeaf(t, e));
      ValidLeaf(Leaf(next, es[..|es| / 2])) && ValidLeaf(Leaf(next, es[|es| / 2..]))
  {
    hide RouteLeaf, LowerBound, LeavesOrdered, DistinctIds;
    var c := RouteLeaf(t, e);
    LeafOrdered(t, c);
    WithEntryOrdered(t.leaves[c].entries, e);
    WithEntrySize(t.leaves[c].entries, e);
    EntriesFit(t.leaves[c], e, es);
  }

  /** The state between writing the two halves and telling the parent. */
  ghost predicate AfterHalves(m: Store, m': Store, t: Tree, c: nat, es: seq<Entry>, rightId: RecordId) {
    && WellFormed(t) && Stored(m, t) && c < |t.leaves|
    && rightId !in m && LinkFits(rightId) && SameExcept(m, m', {rightId, t.leaves[c].id})
    && HoldsLeaf(m', t.leaves[c].id, Leaf(Some(rightId), es[..|es| / 2]))
    && HoldsLeaf(m', rightId, Leaf(NextOf(t.leaves, c), es[|es| / 2..]))
  }

  lemma FreshOfStore(m: Store, t: Tree, id: RecordId)
    requires WellFormed(t) && Stored(m, t) && id !in m
    ensures Unowned(t, id)
  {
    OwnedLive(m, t);
    OwnedMeans(t);
  }

  lemma PromoteFacts(m: Store, m2: Store, t: Tree, e: Entry, es: seq<Entry>, rightId: RecordId)
    requires AfterHalves(m, m2, t, 0, es, rightId) && |t.leaves| == 1 && Splits(t, e) && IdFits(e.value)
    requires es == WithEntry(t.leaves[0].entries, e)
    ensures |es| == LEAF_CAPACITY + 1 && IdFits(t.leaves[0].id) && t.root == t.leaves[0].id
    ensures HoldsHeader(m2, t.header, HeaderOf(t)) && t.header != t.leaves[0].id
    ensures var left, right := es[..|es| / 2], es[|es| / 2..];
      var cs := [Child(left[|left| - 1], t.leaves[0].id), Child(right[|right| - 1], rightId)];
      SeparatorsOrdered(cs) && ChildrenFit(cs) && DistinctChildren(cs)
  {
    hide LowerBound, LeavesOrdered, WithEntry, IsLeaf, IsHeader, Ordered, SeparatorsOrdered, DistinctChildren;
    FreshOfStore(m, t, rightId);
    IdsDistinct(t, 0);
    PromotedChildren(t, e, es, rightId);
  }

  /** The two children of a promoted root can be encoded. */
  lemma PromotedChildren(t: Tree, e: Entry, es: seq<Entry>, rightId: RecordId)
    requires WellFormed(t) && IdFits(e.value) && Splits(t, e) && |t.leaves| == 1
    requires es == WithEntry(t.leaves[0].entries, e) && LinkFits(rightId) && Unowned(t, rightId)
    ensures |es| == LEAF_CAPACITY + 1
    ensures var left, right := es[..|es| / 2], es[|es| / 2..];
      var cs := [Child(left[|left| - 1], t.leaves[0].id), Child(right[|right| - 1], rightId)];
      SeparatorsOrdered(cs) && ChildrenFit(cs) && DistinctChildren(cs)
  {
    hide LowerBound, LeavesOrdered, DistinctIds, WithEntry;
    SplitEntriesFit(t, e, es);
  }

  lemma PromotedTree(t: Tree, es: seq<Entry>, rightId: RecordId, rootId: RecordId)
    requires |t.leaves| == 1 && |es| >= 2
    ensures var t', left, right := SplitTree(t, 0, es, rightId, rootId), es[..|es| / 2], es[|es| / 2..];
      && t'.header == t.header && t'.root == rootId
      && t'.leaves == [Node(t.leaves[0].id, left), Node(rightId, right)]
      && t'.leaves == ReplaceLeaf(t.leaves, 0, [Node(t.leaves[0].id, left), Node(rightId, right)])
      && ChildrenOf(t'.leaves) == [Child(left[|left| - 1], t.leaves[0].id), Child(right[|right| - 1], rightId)]
  {
    hide ReplaceLeaf, ChildrenOf;
    var left, right := es[..|es| / 2], es[|es| / 2..];
    ReplaceOnly(t.leaves, [Node(t.leaves[0].id, left), Node(rightId, right)]);
    ChildrenOfTwo(Node(t.leaves[0].id, left), Node(rightId, right));
  }

  lemma ReplaceOnly(leaves: seq<Node>, nodes: seq<Node>)
    requires |leaves| == 1
    ensures ReplaceLeaf(leaves, 0, nodes) == nodes
  {
  }

  lemma ChildrenOfTwo(m: Node, n: Node)
    requires m.entries != [] && n.entries != []
    ensures ChildrenOf([m, n]) == [Child(High(m), m.id), Child(High(n), n.id)]
  {
  }

  lemma SplitChildren(t: Tree, t': Tree, c: nat, es: seq<Entry>, rightId: RecordId)
    requires c < |t.leaves| && |es| >= 2
    requires t'.leaves == ReplaceLeaf(t.leaves, c, [Node(t.leaves[c].id, es[..|es| / 2]), Node(rightId, es[|es| / 2..])])
    requires forall i :: 0 <= i < |t.leaves| ==> t.leaves[i].entries != []
    requires forall i :: 0 <= i < |t'.leaves| ==> t'.leaves[i].entries != []
    ensures var cs, left, right := ChildrenOf(t.leaves), es[..|es| / 2], es[|es| / 2..];
      ChildrenOf(t'.leaves) == cs[..c] + [Child(left[|left| - 1], t.leaves[c].id), Child(right[|right| - 1], rightId)] + cs[c + 1..]
  {
  }

  predicate InsertedByIds(t: Tree, e: Entry, rightId: RecordId, rootId: RecordId, t': Tree)
    requires WellFormed(t)
  {
    (Splits(t, e) ==> FreshIds(t, rightId, rootId)) && InsertInto(t, e, rightId, rootId) == Inserted(t')
  }

  /** t' is what inserting e makes of t, for some ids of new records. */
  ghost predicate InsertedBy(t: Tree, e: Entry, t': Tree)
    requires WellFormed(t)
  {
    exists rightId, rootId :: InsertedByIds(t, e, rightId, rootId, t')
  }

  function InPlaceTree(t: Tree, c: nat, es: seq<Entry>): Tree
    requires c < |t.leaves|
  {
    t.(leaves := ReplaceLeaf(t.leaves, c, [Node(t.leaves[c].id, es)]))
  }

  /** Before rewriting leaf c: what is stored, and that what will be written can be encoded. */
  lemma InPlaceFacts(m: Store, t: Tree, c: nat, es: seq<Entry>)
    requires WellFormed(t) && Stored(m, t) && c < |t.leaves| && (|t.leaves| > 1 ==> es != [])
    requires WellFormed(InPlaceTree(t, c, es))
    ensures HoldsLeaf(m, t.leaves[c].id, LeafOf(t.leaves, c)) && ValidLeaf(Leaf(NextOf(t.leaves, c), es))
    ensures |t.leaves| == 1 ==> t.root == t.leaves[0].id
    ensures var t' := InPlaceTree(t, c, es);
      && t'.header == t.header && t'.root == t.root && |t'.leaves| == |t.leaves| && t'.leaves[0].id == t.leaves[0].id
      && t' == t.(leaves := ReplaceLeaf(t.leaves, c, [Node(t.leaves[c].id, es)]))
    ensures |t.leaves| > 1 ==>
      && (forall i :: 0 <= i < |t.leaves| ==> t.leaves[i].entries != [] && InPlaceTree(t, c, es).leaves[i].entries != [])
      && t.root != t.leaves[c].id && HoldsInternal(m, t.root, ChildrenOf(t.leaves))
      && var cs := ChildrenOf(InPlaceTree(t, c, es).leaves);
      && cs == ChildrenOf(t.leaves)[c := Child(es[|es| - 1], t.leaves[c].id)] && |cs| <= INTERNAL_CAPACITY
      && SeparatorsOrdered(cs) && ChildrenFit(cs) && DistinctChildren(cs)
  {
    hide IsLeaf, IsInternal, IsHeader, WellFormed, ValidLeaf, ChildrenOf, SeparatorsOrdered, ChildrenFit,
         DistinctChildren, HoldsLeaf, HoldsInternal, Stored;
    StoredAround(m, t, c);
    InPlaceShape(t, c, es);
    if |t.leaves| > 1 {
      InPlaceChildren(t, InPlaceTree(t, c, es), c, es);
      ChildrenEncodable(InPlaceTree(t, c, es));
    }
  }

  lemma StoredAround(m: Store, t: Tree, c: nat)
    requires WellFormed(t) && Stored(m, t) && c < |t.leaves|
    ensures HoldsLeaf(m, t.leaves[c].id, LeafOf(t.leaves, c))
    ensures |t.leaves| == 1 ==> t.root == t.leaves[0].id
    ensures |t.leaves| > 1 ==>
      && (forall i :: 0 <= i < |t.leaves| ==> t.leaves[i].entries != [])
      && t.root != t.leaves[c].id && HoldsInternal(m, t.root, ChildrenOf(t.leaves))
  {
    hide IsLeaf, IsInternal, IsHeader, LeavesOrdered, NodeOk;
  }

  lemma InPlaceShape(t: Tree, c: nat, es: seq<Entry>)
    requires c < |t.leaves| && WellFormed(InPlaceTree(t, c, es))
    ensures ValidLeaf(Leaf(NextOf(t.leaves, c), es)) && |t.leaves| <= INTERNAL_CAPACITY
    ensures InPlaceTree(t, c, es).leaves == t.leaves[c := Node(t.leaves[c].id, es)]
  {
    hide WellFormed, ValidLeaf;
    var t' := InPlaceTree(t, c, es);
    assert t'.leaves == t.leaves[c := Node(t.leaves[c].id, es)];
    LeafFits(t', c);
    LeafSize(t', c);
  }

  lemma InPlaceChildren(t: Tree, t': Tree, c: nat, es: seq<Entry>)
    requires c < |t.leaves| && es != [] && t'.leaves == t.leaves[c := Node(t.leaves[c].id, es)]
    requires forall i :: 0 <= i < |t.leaves| ==> t.leaves[i].entries != []
    ensures forall i :: 0 <= i < |t'.leaves| ==> t'.leaves[i].entries != []
    ensures ChildrenOf(t'.leaves) == ChildrenOf(t.leaves)[c := Child(es[|es| - 1], t.leaves[c].id)]
  {
  }

  lemma InPlaceCase(t: Tree, e: Entry)
    requires WellFormed(t) && IdFits(e.value)
    requires e !in t.leaves[RouteLeaf(t, e)].entries && |t.leaves[RouteLeaf(t, e)].entries| < LEAF_CAPACITY
    ensures var c := RouteLeaf(t, e);
      var t' := InPlaceTree(t, c, WithEntry(t.leaves[c].entries, e));
      WellFormed(t') && EntrySet(t') == EntrySet(t) + {e} && InsertedBy(t, e, t')
  {
    hide RouteLeaf, LowerBound, EntrySet, WellFormed;
    var c := RouteLeaf(t, e);
    LeafOrdered(t, c);
    LowerBoundFinds(t.leaves[c].entries, e);
    WithEntrySize(t.leaves[c].entries, e);
    InsertRefinesSet(t, e, t.header, t.header);
    assert InsertedByIds(t, e, t.header, t.header, InPlaceTree(t, c, WithEntry(t.leaves[c].entries, e)));
  }

  lemma LeafSize(t: Tree, c: nat)
    requires WellFormed(t) && c < |t.leaves|
    ensures |t.leaves[c].entries| <= LEAF_CAPACITY && |t.leaves| <= INTERNAL_CAPACITY
  {
  }

  lemma OutsideRefl(m: Store, t: Tree)
    ensures OutsideKept(m, t, m, t)
  {
  }

  lemma LeafFits(t: Tree, c: nat)
    requires WellFormed(t) && c < |t.leaves|
    ensures ValidLeaf(LeafOf(t.leaves, c))
  {
  }

  /** The separators of a tree can be encoded. */
  lemma ChildrenEncodable(t: Tree)
    requires WellFormed(t) && |t.leaves| > 1
    ensures forall i :: 0 <= i < |t.leaves| ==> t.leaves[i].entries != []
    ensures var cs := ChildrenOf(t.leaves); SeparatorsOrdered(cs) && ChildrenFit(cs) && DistinctChildren(cs)
  {
    var cs := ChildrenOf(t.leaves);
    forall i, j | 0 <= i < j < |cs|
      ensures EntryLess(cs[i].high, cs[j].high)
    {
      assert AllBefore(t.leaves[i].entries, t.leaves[j].entries);
      assert High(t.leaves[i]) in t.leaves[i].entries && High(t.leaves[j]) in t.leaves[j].entries;
    }
  }
}
