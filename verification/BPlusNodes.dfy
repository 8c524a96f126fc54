/** The three record formats of a B+ tree: header, leaf and internal root. */
module BPlusNodes {
  import opened Wrappers
  import opened Bytes
  import opened Stores

  type int64 = x: int | -0x8000_0000_0000_0000 <= x < 0x8000_0000_0000_0000

  const LEAF_CAPACITY := 128
  const INTERNAL_CAPACITY := 128
  const FORMAT_VERSION := 2
  const HEADER_BYTES := 24
  const NODE_HEADER_BYTES := 16
  const LEAF_ENTRY_BYTES := 14
  const CHILD_BYTES := 20
  const LEAF_BYTES := NODE_HEADER_BYTES + LEAF_CAPACITY * LEAF_ENTRY_BYTES
  const INTERNAL_BYTES := NODE_HEADER_BYTES + INTERNAL_CAPACITY * CHILD_BYTES
  const NO_PAGE := 0xFFFF_FFFF
  const NO_SLOT := 0xFFFF

  // "PFIH", "PFIN", "PFIL"
  const HEADER_MAGIC: seq<byte> := [0x50, 0x46, 0x49, 0x48]
  const INTERNAL_MAGIC: seq<byte> := [0x50, 0x46, 0x49, 0x4E]
  const LEAF_MAGIC: seq<byte> := [0x50, 0x46, 0x49, 0x4C]

  datatype Entry = Entry(key: int64, value: RecordId)

  datatype Leaf = Leaf(next: Option<RecordId>, entries: seq<Entry>)

  datatype Child = Child(high: Entry, id: RecordId)

  datatype Header = Header(height: nat, root: RecordId, firstLeaf: RecordId)

  predicate EntryLess(a: Entry, b: Entry) {
    if a.key != b.key then a.key < b.key
    else if a.value.page != b.value.page then a.value.page < b.value.page
    else a.value.slot < b.value.slot
  }

  predicate Ordered(es: seq<Entry>) {
    forall i, j :: 0 <= i < j < |es| ==> EntryLess(es[i], es[j])
  }

  /** Checking neighbours, as the codecs do, is checking all pairs. */
  lemma {:induction false} NeighboursOrdered(es: seq<Entry>)
    requires forall i :: 1 <= i < |es| ==> EntryLess(es[i - 1], es[i])
    ensures Ordered(es)
  {
    if |es| > 1 {
      var n := |es| - 1;
      NeighboursOrdered(es[..n]);
      forall i | 0 <= i < n
        ensures EntryLess(es[i], es[n])
      {
        assert es[..n][i] == es[i] && es[..n][n - 1] == es[n - 1];
        assert i < n - 1 ==> EntryLess(es[..n][i], es[..n][n - 1]);
        assert EntryLess(es[n - 1], es[n]);
      }
      forall i, j | 0 <= i < j < |es|
        ensures EntryLess(es[i], es[j])
      {
        if j < n {
          assert EntryLess(es[..n][i], es[..n][j]);
        }
      }
    }
  }

  // ---------------------------------------------------------------- widths

  predicate IdFits(id: RecordId) { id.page <= NO_PAGE && id.slot <= NO_SLOT }

  /** An id that a link field can hold: the largest page and slot numbers mean "none". */
  predicate LinkFits(id: RecordId) { id.page < NO_PAGE && id.slot < NO_SLOT }

  /** Two's complement. */
  function ToUnsigned(k: int64): (u: nat)
    ensures u < 0x1_0000_0000_0000_0000 && (u - k) % 0x1_0000_0000_0000_0000 == 0
  {
    if k < 0 then k + 0x1_0000_0000_0000_0000 else k
  }

  function ToSigned(u: nat): (k: int64)
    requires u < 0x1_0000_0000_0000_0000
    ensures ToUnsigned(k) == u
  {
    if u >= 0x8000_0000_0000_0000 then u - 0x1_0000_0000_0000_0000 else u
  }

  predicate ZeroFrom(b: seq<byte>, at: nat) {
    forall k :: at <= k < |b| ==> b[k] == 0
  }

  // ---------------------------------------------------------------- fields

  predicate IdAt(b: seq<byte>, at: nat, id: RecordId)
    requires at + 6 <= |b|
  {
    Get(b, at, 4) == id.page && Get(b, at + 4, 2) == id.slot
  }

  predicate EntryAt(b: seq<byte>, at: nat, e: Entry)
    requires at + LEAF_ENTRY_BYTES <= |b|
  {
    Get(b, at, 8) == ToUnsigned(e.key) && IdAt(b, at + 8, e.value)
  }

  predicate ChildAt(b: seq<byte>, at: nat, c: Child)
    requires at + CHILD_BYTES <= |b|
  {
    EntryAt(b, at, c.high) && IdAt(b, at + LEAF_ENTRY_BYTES, c.id)
  }

  function IdBytes(id: RecordId): (r: seq<byte>)
    ensures |r| == 6
  {
    LE(4, id.page) + LE(2, id.slot)
  }

  function EntryBytes(e: Entry): (r: seq<byte>)
    ensures |r| == LEAF_ENTRY_BYTES
  {
    LE(8, ToUnsigned(e.key)) + IdBytes(e.value)
  }

  function ChildBytes(c: Child): (r: seq<byte>)
    ensures |r| == CHILD_BYTES
  {
    EntryBytes(c.high) + IdBytes(c.id)
  }

  lemma FieldWritten(b: seq<byte>, at: nat, width: nat, value: nat)
    requires at + width <= |b| && b[at..at + width] == LE(width, value) && value < Pow256(width)
    ensures Get(b, at, width) == value
  {
    LERoundTrip(width, value);
  }

  lemma IdWritten(b: seq<byte>, at: nat, id: RecordId)
    requires at + 6 <= |b| && b[at..at + 6] == IdBytes(id) && IdFits(id)
    ensures IdAt(b, at, id)
  {
    Pow256Values();
    assert b[at..at + 4] == b[at..at + 6][..4] == LE(4, id.page);
    assert b[at + 4..at + 6] == b[at..at + 6][4..] == LE(2, id.slot);
    FieldWritten(b, at, 4, id.page);
    FieldWritten(b, at + 4, 2, id.slot);
  }

  lemma EntryWritten(b: seq<byte>, at: nat, e: Entry)
    requires at + LEAF_ENTRY_BYTES <= |b| && b[at..at + LEAF_ENTRY_BYTES] == EntryBytes(e) && IdFits(e.value)
    ensures EntryAt(b, at, e)
  {
    hide IdBytes, LE;
    Pow256Values();
    var s := b[at..at + LEAF_ENTRY_BYTES];
    assert b[at..at + 8] == s[..8] == LE(8, ToUnsigned(e.key));
    assert b[at + 8..at + 14] == s[8..] == IdBytes(e.value);
    FieldWritten(b, at, 8, ToUnsigned(e.key));
    IdWritten(b, at + 8, e.value);
  }

  lemma ChildWritten(b: seq<byte>, at: nat, c: Child)
    requires at + CHILD_BYTES <= |b| && b[at..at + CHILD_BYTES] == ChildBytes(c)
    requires IdFits(c.high.value) && IdFits(c.id)
    ensures ChildAt(b, at, c)
  {
    hide IdBytes, EntryBytes;
    var s := b[at..at + CHILD_BYTES];
    assert b[at..at + 14] == s[..14] == EntryBytes(c.high);
    assert b[at + 14..at + 20] == s[14..] == IdBytes(c.id);
    EntryWritten(b, at, c.high);
    IdWritten(b, at + 14, c.id);
  }

  method ReadId(b: seq<byte>, at: nat) returns (id: RecordId)
    requires at + 6 <= |b|
    ensures IdAt(b, at, id) && IdFits(id)
  {
    Pow256Values();
    GetBound(b, at, 4);
    GetBound(b, at + 4, 2);
    var page := ReadLE(b, at, 4);
    var slot := ReadLE(b, at + 4, 2);
    id := RecordId(page, slot);
  }

  method ReadEntry(b: seq<byte>, at: nat) returns (e: Entry)
    requires at + LEAF_ENTRY_BYTES <= |b|
    ensures EntryAt(b, at, e) && IdFits(e.value)
  {
    Pow256Values();
    GetBound(b, at, 8);
    var key := ReadLE(b, at, 8);
    var id := ReadId(b, at + 8);
    e := Entry(ToSigned(key), id);
  }

  lemma EntryUnique(b: seq<byte>, at: nat, e: Entry, f: Entry)
    requires at + LEAF_ENTRY_BYTES <= |b| && EntryAt(b, at, e) && EntryAt(b, at, f)
    ensures e == f
  {
  }

  // ---------------------------------------------------------------- header

  predicate IsHeader(b: seq<byte>, h: Header) {
    && |b| == HEADER_BYTES && b[..4] == HEADER_MAGIC
    && (h.height == 1 || h.height == 2)
    && Get(b, 4, 2) == FORMAT_VERSION && Get(b, 6, 2) == h.height
    && IdAt(b, 8, h.root) && Get(b, 14, 2) == 0
    && IdAt(b, 16, h.firstLeaf) && Get(b, 22, 2) == 0
  }

  method EncodeHeader(h: Header) returns (r: Result<seq<byte>>)
    requires IdFits(h.root) && IdFits(h.firstLeaf)
    ensures r.Ok? <==> h.height == 1 || h.height == 2
    ensures r.Ok? ==> IsHeader(r.value, h)
    ensures r.Err? ==> r.error == InvalidArgument
  {
    if h.height != 1 && h.height != 2 {
      return Err(InvalidArgument);
    }
    var output := new byte[HEADER_BYTES](_ => 0);
    WriteHeaderFields(output, h);
    r := Ok(output[..]);
  }

  method WriteHeaderFields(output: array<byte>, h: Header)
    requires output.Length == HEADER_BYTES && (h.height == 1 || h.height == 2) && IdFits(h.root) && IdFits(h.firstLeaf)
    requires forall k :: 0 <= k < HEADER_BYTES ==> output[k] == 0
    modifies output
    ensures IsHeader(output[..], h)
  {
    hide IdBytes, LE, Pow256, FromLE, IdAt, IsHeader, Splice;
    assert output[..] == [] + Zeros(HEADER_BYTES);
    CopyInto(output, 0, HEADER_MAGIC);
    SpliceFront([], HEADER_MAGIC, HEADER_BYTES);
    CopyInto(output, 4, LE(2, FORMAT_VERSION));
    SpliceFront([] + HEADER_MAGIC, LE(2, FORMAT_VERSION), 20);
    CopyInto(output, 6, LE(2, h.height));
    ghost var head := [] + HEADER_MAGIC + LE(2, FORMAT_VERSION);
    SpliceFront(head, LE(2, h.height), 18);
    CopyInto(output, 8, IdBytes(h.root));
    ghost var named := head + LE(2, h.height);
    SpliceFront(named, IdBytes(h.root), 16);
    CopyInto(output, 16, IdBytes(h.firstLeaf));
    ghost var rooted := named + IdBytes(h.root) + Zeros(2);
    assert named + IdBytes(h.root) + Zeros(10) == rooted + Zeros(8);
    SpliceFront(rooted, IdBytes(h.firstLeaf), 8);
    HeaderAssembled(output[..], h);
  }

  lemma SpliceFront(front: seq<byte>, data: seq<byte>, room: nat)
    requires |data| <= room
    ensures Splice(front + Zeros(room), |front|, data) == front + data + Zeros(room - |data|)
  {
  }

  lemma HeaderAssembled(b: seq<byte>, h: Header)
    requires (h.height == 1 || h.height == 2) && IdFits(h.root) && IdFits(h.firstLeaf)
    requires b == [] + HEADER_MAGIC + LE(2, FORMAT_VERSION) + LE(2, h.height) + IdBytes(h.root) + Zeros(2)
                  + IdBytes(h.firstLeaf) + Zeros(2)
    ensures IsHeader(b, h)
  {
    hide IdBytes, LE, IsHeader;
    HeaderWritten(b, h);
  }

  lemma HeaderWritten(b: seq<byte>, h: Header)
    requires |b| == HEADER_BYTES && (h.height == 1 || h.height == 2) && IdFits(h.root) && IdFits(h.firstLeaf)
    requires b[..4] == HEADER_MAGIC && b[4..6] == LE(2, FORMAT_VERSION) && b[6..8] == LE(2, h.height)
    requires b[8..14] == IdBytes(h.root) && b[16..22] == IdBytes(h.firstLeaf)
    requires b[14] == 0 && b[15] == 0 && b[22] == 0 && b[23] == 0
    ensures IsHeader(b, h)
  {
    hide IdBytes, LE, Pow256, FromLE, IdAt;
    Pow256Values();
    ZeroField(b, 14, 2);
    ZeroField(b, 22, 2);
    FieldWritten(b, 4, 2, FORMAT_VERSION);
    FieldWritten(b, 6, 2, h.height);
    IdWritten(b, 8, h.root);
    IdWritten(b, 16, h.firstLeaf);
  }

  lemma {:induction false} ZeroValue(s: seq<byte>)
    requires forall k :: 0 <= k < |s| ==> s[k] == 0
    ensures FromLE(s) == 0
  {
    if s != [] {
      ZeroValue(s[1..]);
    }
  }

  lemma ZeroField(b: seq<byte>, at: nat, width: nat)
    requires at + width <= |b| && forall k :: at <= k < at + width ==> b[k] == 0
    ensures Get(b, at, width) == 0
  {
    ZeroValue(b[at..at + width]);
  }

  /** Accepts exactly the encodings of headers. */
  method DecodeHeader(b: seq<byte>) returns (r: Result<Header>)
    ensures r.Ok? ==> IsHeader(b, r.value) && IdFits(r.value.root) && IdFits(r.value.firstLeaf)
    ensures r.Err? ==> r.error == IndexCorruption && forall h :: !IsHeader(b, h)
  {
    if |b| != HEADER_BYTES || b[..4] != HEADER_MAGIC {
      return Err(IndexCorruption);
    }
    var version := ReadLE(b, 4, 2);
    var height := ReadLE(b, 6, 2);
    if version != FORMAT_VERSION || (height != 1 && height != 2) {
      return Err(IndexCorruption);
    }
    var reserved := ReadLE(b, 14, 2);
    var reserved' := ReadLE(b, 22, 2);
    if reserved != 0 || reserved' != 0 {
      return Err(IndexCorruption);
    }
    var root := ReadId(b, 8);
    var firstLeaf := ReadId(b, 16);
    r := Ok(Header(height, root, firstLeaf));
  }

  // ---------------------------------------------------------------- leaf

  function EntryOffset(i: nat): nat { NODE_HEADER_BYTES + i * LEAF_ENTRY_BYTES }

  predicate ValidLeaf(leaf: Leaf) {
    && |leaf.entries| <= LEAF_CAPACITY
    && Ordered(leaf.entries)
    && (forall i :: 0 <= i < |leaf.entries| ==> IdFits(leaf.entries[i].value))
    && (leaf.next.Some? ==> LinkFits(leaf.next.value))
  }

  function LinkId(next: Option<RecordId>): RecordId {
    if next.Some? then next.value else RecordId(NO_PAGE, NO_SLOT)
  }

  predicate LeafHead(b: seq<byte>, leaf: Leaf)
    requires |b| == LEAF_BYTES
  {
    && b[..4] == LEAF_MAGIC
    && Get(b, 4, 2) == FORMAT_VERSION && Get(b, 6, 2) == 0
    && IdAt(b, 8, LinkId(leaf.next)) && Get(b, 14, 2) == |leaf.entries|
  }

  /** The bytes b are the encoding of the leaf. */
  predicate IsLeaf(b: seq<byte>, leaf: Leaf) {
    && |b| == LEAF_BYTES && ValidLeaf(leaf) && LeafHead(b, leaf)
    && (forall i :: 0 <= i < |leaf.entries| ==> EntryAt(b, EntryOffset(i), leaf.entries[i]))
    && ZeroFrom(b, EntryOffset(|leaf.entries|))
  }

  method CheckOrder(es: seq<Entry>) returns (ok: bool)
    ensures ok <==> Ordered(es)
  {
    var index := 1;
    while index < |es|
      invariant 1 <= index
      invariant forall i :: 1 <= i < |es| && i < index ==> EntryLess(es[i - 1], es[i])
    {
      if !EntryLess(es[index - 1], es[index]) {
        return false;
      }
      index := index + 1;
    }
    NeighboursOrdered(es);
    ok := true;
  }

  method EncodeLeaf(leaf: Leaf) returns (r: Result<seq<byte>>)
    requires leaf.next.Some? ==> LinkFits(leaf.next.value)
    requires forall i :: 0 <= i < |leaf.entries| ==> IdFits(leaf.entries[i].value)
    ensures r.Ok? <==> |leaf.entries| <= LEAF_CAPACITY && Ordered(leaf.entries)
    ensures r.Ok? ==> IsLeaf(r.value, leaf)
    ensures r.Err? ==> r.error == InvalidArgument
  {
    if |leaf.entries| > LEAF_CAPACITY {
      return Err(InvalidArgument);
    }
    var ordered := CheckOrder(leaf.entries);
    if !ordered {
      return Err(InvalidArgument);
    }
    var output := new byte[LEAF_BYTES](_ => 0);
    WriteLeafHead(output, leaf);
    ghost var head := output[..];
    hide EntryBytes, EntryAt, LeafHead, Get, Ordered;
    for index := 0 to |leaf.entries|
      invariant output[..NODE_HEADER_BYTES] == head[..NODE_HEADER_BYTES]
      invariant forall i :: 0 <= i < index ==> EntryAt(output[..], EntryOffset(i), leaf.entries[i])
      invariant ZeroFrom(output[..], EntryOffset(index))
    {
      ghost var before := output[..];
      CopyInto(output, EntryOffset(index), EntryBytes(leaf.entries[index]));
      EntryWritten(output[..], EntryOffset(index), leaf.entries[index]);
      EntriesKept(before, output[..], leaf.entries, index);
    }
    LeafHeadKept(head, output[..], leaf);
    r := Ok(output[..]);
  }

  /** The first n entries stay as written when only later bytes change. */
  lemma EntriesKept(b: seq<byte>, c: seq<byte>, es: seq<Entry>, n: nat)
    requires n <= |es| && EntryOffset(n) <= |b| == |c|
    requires forall i :: 0 <= i < n ==> EntryAt(b, EntryOffset(i), es[i])
    requires forall k :: 0 <= k < EntryOffset(n) ==> b[k] == c[k]
    ensures forall i :: 0 <= i < n ==> EntryAt(c, EntryOffset(i), es[i])
  {
    hide EntryAt;
    forall i | 0 <= i < n
      ensures EntryAt(c, EntryOffset(i), es[i])
    {
      EntryKept(b, c, EntryOffset(i), es[i]);
    }
  }

  lemma EntryKept(b: seq<byte>, c: seq<byte>, at: nat, e: Entry)
    requires at + LEAF_ENTRY_BYTES <= |b| == |c| && EntryAt(b, at, e)
    requires forall k :: at <= k < at + LEAF_ENTRY_BYTES ==> b[k] == c[k]
    ensures EntryAt(c, at, e)
  {
    assert b[at..at + 8] == c[at..at + 8];
    assert b[at + 8..at + 12] == c[at + 8..at + 12];
    assert b[at + 12..at + 14] == c[at + 12..at + 14];
  }

  lemma LeafHeadKept(b: seq<byte>, c: seq<byte>, leaf: Leaf)
    requires |b| == |c| == LEAF_BYTES && LeafHead(b, leaf)
    requires b[..NODE_HEADER_BYTES] == c[..NODE_HEADER_BYTES]
    ensures LeafHead(c, leaf)
  {
    hide FromLE;
    var h := b[..NODE_HEADER_BYTES];
    assert b[..4] == h[..4] == c[..4];
    assert b[4..6] == h[4..6] == c[4..6] && b[6..8] == h[6..8] == c[6..8];
    assert b[8..12] == h[8..12] == c[8..12] && b[12..14] == h[12..14] == c[12..14];
    assert b[14..16] == h[14..16] == c[14..16];
  }

  method WriteLeafHead(output: array<byte>, leaf: Leaf)
    requires output.Length == LEAF_BYTES && |leaf.entries| <= LEAF_CAPACITY
    requires forall k :: 0 <= k < LEAF_BYTES ==> output[k] == 0
    requires leaf.next.Some? ==> LinkFits(leaf.next.value)
    modifies output
    ensures LeafHead(output[..], leaf) && ZeroFrom(output[..], NODE_HEADER_BYTES)
  {
    hide IdBytes, LE, Pow256, FromLE, IdAt;
    Pow256Values();
    CopyInto(output, 0, LEAF_MAGIC);
    CopyInto(output, 4, LE(2, FORMAT_VERSION));
    CopyInto(output, 8, IdBytes(LinkId(leaf.next)));
    CopyInto(output, 14, LE(2, |leaf.entries|));
    ghost var b := output[..];
    ZeroField(b, 6, 2);
    assert b[4..6] == LE(2, FORMAT_VERSION) && b[14..16] == LE(2, |leaf.entries|);
    assert b[8..14] == IdBytes(LinkId(leaf.next));
    FieldWritten(b, 4, 2, FORMAT_VERSION);
    FieldWritten(b, 14, 2, |leaf.entries|);
    IdWritten(b, 8, LinkId(leaf.next));
  }

  /** Accepts exactly the encodings of leaves. */
  method DecodeLeaf(b: seq<byte>) returns (r: Result<Leaf>)
    ensures r.Ok? ==> IsLeaf(b, r.value)
    ensures r.Err? ==> r.error == IndexCorruption && forall leaf :: !IsLeaf(b, leaf)
  {
    hide EntryAt, Ordered, Get;
    if |b| != LEAF_BYTES || b[..4] != LEAF_MAGIC {
      return Err(IndexCorruption);
    }
    var version := ReadLE(b, 4, 2);
    var flags := ReadLE(b, 6, 2);
    var count := ReadLE(b, 14, 2);
    if version != FORMAT_VERSION || flags != 0 || count > LEAF_CAPACITY {
      return Err(IndexCorruption);
    }
    var link := ReadId(b, 8);
    if (link.page == NO_PAGE) != (link.slot == NO_SLOT) {
      return Err(IndexCorruption);
    }
    var next := if link.page != NO_PAGE then Some(link) else None;
    var entries := ReadEntries(b, count);
    var ordered := CheckOrder(entries);
    LeafEntriesAre(b, entries);
    if !ordered {
      return Err(IndexCorruption);
    }
    var padded := CheckZero(b, EntryOffset(count));
    if !padded {
      return Err(IndexCorruption);
    }
    r := Ok(Leaf(next, entries));
  }

  method ReadEntries(b: seq<byte>, count: nat) returns (entries: seq<Entry>)
    requires |b| == LEAF_BYTES && count <= LEAF_CAPACITY
    ensures |entries| == count
    ensures forall i :: 0 <= i < count ==>
      EntryAt(b, EntryOffset(i), entries[i]) && IdFits(entries[i].value)
  {
    hide EntryAt;
    entries := [];
    for index := 0 to count
      invariant |entries| == index
      invariant forall i :: 0 <= i < index ==>
        EntryAt(b, EntryOffset(i), entries[i]) && IdFits(entries[i].value)
    {
      var entry := ReadEntry(b, EntryOffset(index));
      entries := entries + [entry];
    }
  }

  method CheckZero(b: seq<byte>, from: nat) returns (ok: bool)
    requires from <= |b|
    ensures ok <==> ZeroFrom(b, from)
  {
    for offset := from to |b|
      invariant forall k :: from <= k < offset ==> b[k] == 0
    {
      if b[offset] != 0 {
        return false;
      }
    }
    ok := true;
  }

  /** Entries read from the bytes are those of every leaf the bytes encode. */
  lemma LeafEntriesAre(b: seq<byte>, entries: seq<Entry>)
    requires |b| == LEAF_BYTES && |entries| == Get(b, 14, 2) <= LEAF_CAPACITY
    requires forall i :: 0 <= i < |entries| ==> EntryAt(b, EntryOffset(i), entries[i])
    ensures forall leaf :: IsLeaf(b, leaf) ==> leaf.entries == entries
  {
    hide EntryAt, Get;
    forall leaf | IsLeaf(b, leaf)
      ensures leaf.entries == entries
    {
      forall i | 0 <= i < |entries|
        ensures leaf.entries[i] == entries[i]
      {
        EntryUnique(b, EntryOffset(i), leaf.entries[i], entries[i]);
      }
    }
  }

  /** A record encodes one leaf at most. */
  lemma LeafUnique(b: seq<byte>, l1: Leaf, l2: Leaf)
    requires IsLeaf(b, l1) && IsLeaf(b, l2)
    ensures l1 == l2
  {
    LeafEntriesAre(b, l1.entries);
  }

  // ---------------------------------------------------------------- internal root

  function ChildOffset(i: nat): nat { NODE_HEADER_BYTES + i * CHILD_BYTES }

  predicate SeparatorsOrdered(cs: seq<Child>) {
    forall i, j :: 0 <= i < j < |cs| ==> EntryLess(cs[i].high, cs[j].high)
  }

  predicate DistinctChildren(cs: seq<Child>) {
    forall i, j :: 0 <= i < j < |cs| ==> cs[i].id != cs[j].id
  }

  predicate ChildrenFit(cs: seq<Child>) {
    forall i :: 0 <= i < |cs| ==> IdFits(cs[i].high.value) && IdFits(cs[i].id)
  }

  predicate InternalHead(b: seq<byte>, count: nat)
    requires |b| == INTERNAL_BYTES
  {
    && b[..4] == INTERNAL_MAGIC
    && Get(b, 4, 2) == FORMAT_VERSION && Get(b, 6, 2) == 0
    && Get(b, 8, 2) == count && Get(b, 10, 2) == 0 && Get(b, 12, 4) == 0
  }

  /** The bytes b list these children. */
  predicate ListsChildren(b: seq<byte>, cs: seq<Child>) {
    && |b| == INTERNAL_BYTES && 2 <= |cs| <= INTERNAL_CAPACITY
    && SeparatorsOrdered(cs) && ChildrenFit(cs)
    && InternalHead(b, |cs|)
    && (forall i :: 0 <= i < |cs| ==> ChildAt(b, ChildOffset(i), cs[i]))
    && ZeroFrom(b, ChildOffset(|cs|))
  }

  /** The bytes b are an internal node with these children, each of them once. */
  predicate IsInternal(b: seq<byte>, cs: seq<Child>) {
    ListsChildren(b, cs) && DistinctChildren(cs)
  }

  function Highs(cs: seq<Child>): (r: seq<Entry>)
    ensures |r| == |cs| && forall i :: 0 <= i < |r| ==> r[i] == cs[i].high
  {
    seq(|cs|, i requires 0 <= i < |cs| => cs[i].high)
  }

  lemma HighsOrdered(cs: seq<Child>)
    ensures Ordered(Highs(cs)) <==> SeparatorsOrdered(cs)
  {
    if Ordered(Highs(cs)) {
      forall i, j | 0 <= i < j < |cs|
        ensures EntryLess(cs[i].high, cs[j].high)
      {
        assert EntryLess(Highs(cs)[i], Highs(cs)[j]);
      }
    }
  }

  /** Shared children are not noticed here: what is written then does not decode. */
  method EncodeInternal(cs: seq<Child>) returns (r: Result<seq<byte>>)
    requires ChildrenFit(cs)
    ensures r.Ok? <==> 2 <= |cs| <= INTERNAL_CAPACITY && SeparatorsOrdered(cs)
    ensures r.Ok? ==> ListsChildren(r.value, cs) && (IsInternal(r.value, cs) <==> DistinctChildren(cs))
    ensures r.Err? ==> r.error == InvalidArgument
  {
    hide ChildBytes, ChildAt, InternalHead, Get, SeparatorsOrdered, Ordered, DistinctChildren;
    if |cs| < 2 || |cs| > INTERNAL_CAPACITY {
      return Err(InvalidArgument);
    }
    var ordered := CheckOrder(Highs(cs));
    HighsOrdered(cs);
    if !ordered {
      return Err(InvalidArgument);
    }
    var output := new byte[INTERNAL_BYTES](_ => 0);
    WriteInternalHead(output, |cs|);
    ghost var head := output[..];
    for index := 0 to |cs|
      invariant output[..NODE_HEADER_BYTES] == head[..NODE_HEADER_BYTES]
      invariant forall i :: 0 <= i < index ==> ChildAt(output[..], ChildOffset(i), cs[i])
      invariant ZeroFrom(output[..], ChildOffset(index))
    {
      ghost var before := output[..];
      CopyInto(output, ChildOffset(index), ChildBytes(cs[index]));
      ChildWritten(output[..], ChildOffset(index), cs[index]);
      ChildrenKept(before, output[..], cs, index);
    }
    InternalHeadKept(head, output[..], |cs|);
    r := Ok(output[..]);
  }

  /** The first n children stay as written when only later bytes change. */
  lemma ChildrenKept(b: seq<byte>, c: seq<byte>, cs: seq<Child>, n: nat)
    requires n <= |cs| && ChildOffset(n) <= |b| == |c|
    requires forall i :: 0 <= i < n ==> ChildAt(b, ChildOffset(i), cs[i])
    requires forall k :: 0 <= k < ChildOffset(n) ==> b[k] == c[k]
    ensures forall i :: 0 <= i < n ==> ChildAt(c, ChildOffset(i), cs[i])
  {
    hide ChildAt;
    forall i | 0 <= i < n
      ensures ChildAt(c, ChildOffset(i), cs[i])
    {
      ChildKept(b, c, ChildOffset(i), cs[i]);
    }
  }

  lemma ChildKept(b: seq<byte>, c: seq<byte>, at: nat, child: Child)
    requires at + CHILD_BYTES <= |b| == |c| && ChildAt(b, at, child)
    requires forall k :: at <= k < at + CHILD_BYTES ==> b[k] == c[k]
    ensures ChildAt(c, at, child)
  {
    EntryKept(b, c, at, child.high);
    assert b[at + 14..at + 18] == c[at + 14..at + 18];
    assert b[at + 18..at + 20] == c[at + 18..at + 20];
  }

  lemma InternalHeadKept(b: seq<byte>, c: seq<byte>, count: nat)
    requires |b| == |c| == INTERNAL_BYTES && InternalHead(b, count)
    requires b[..NODE_HEADER_BYTES] == c[..NODE_HEADER_BYTES]
    ensures InternalHead(c, count)
  {
    hide FromLE;
    var h := b[..NODE_HEADER_BYTES];
    assert b[..4] == h[..4] == c[..4];
    assert b[4..6] == h[4..6] == c[4..6] && b[6..8] == h[6..8] == c[6..8];
    assert b[8..10] == h[8..10] == c[8..10] && b[10..12] == h[10..12] == c[10..12];
    assert b[12..16] == h[12..16] == c[12..16];
  }

  method WriteInternalHead(output: array<byte>, count: nat)
    requires output.Length == INTERNAL_BYTES && count <= INTERNAL_CAPACITY
    requires forall k :: 0 <= k < INTERNAL_BYTES ==> output[k] == 0
    modifies output
    ensures InternalHead(output[..], count) && ZeroFrom(output[..], NODE_HEADER_BYTES)
  {
    hide LE, Pow256, FromLE;
    Pow256Values();
    CopyInto(output, 0, INTERNAL_MAGIC);
    CopyInto(output, 4, LE(2, FORMAT_VERSION));
    CopyInto(output, 8, LE(2, count));
    ghost var b := output[..];
    ZeroField(b, 6, 2);
    ZeroField(b, 10, 2);
    ZeroField(b, 12, 4);
    assert b[4..6] == LE(2, FORMAT_VERSION) && b[8..10] == LE(2, count);
    FieldWritten(b, 4, 2, FORMAT_VERSION);
    FieldWritten(b, 8, 2, count);
  }

  /** Accepts exactly the encodings of internal nodes. */
  method DecodeInternal(b: seq<byte>) returns (r: Result<seq<Child>>)
    ensures r.Ok? ==> IsInternal(b, r.value)
    ensures r.Err? ==> r.error == IndexCorruption && forall cs :: !IsInternal(b, cs)
  {
    hide ChildAt, SeparatorsOrdered, Get, Ordered;
    if |b| != INTERNAL_BYTES || b[..4] != INTERNAL_MAGIC {
      return Err(IndexCorruption);
    }
    var version := ReadLE(b, 4, 2);
    var flags := ReadLE(b, 6, 2);
    var count := ReadLE(b, 8, 2);
    var reserved := ReadLE(b, 10, 2);
    var reserved' := ReadLE(b, 12, 4);
    if version != FORMAT_VERSION || flags != 0 || reserved != 0 || reserved' != 0 {
      return Err(IndexCorruption);
    }
    if count < 2 || count > INTERNAL_CAPACITY {
      return Err(IndexCorruption);
    }
    var children, distinct := ReadChildren(b, count);
    InternalChildrenAre(b, children);
    var ordered := CheckOrder(Highs(children));
    HighsOrdered(children);
    if !distinct || !ordered {
      return Err(IndexCorruption);
    }
    var padded := CheckZero(b, ChildOffset(count));
    if !padded {
      return Err(IndexCorruption);
    }
    r := Ok(children);
  }

  /** Reads the child table, remembering the ids seen to find duplicates. */
  method ReadChildren(b: seq<byte>, count: nat) returns (cs: seq<Child>, distinct: bool)
    requires |b| == INTERNAL_BYTES && count <= INTERNAL_CAPACITY
    ensures |cs| == count && ChildrenFit(cs)
    ensures forall i :: 0 <= i < count ==> ChildAt(b, ChildOffset(i), cs[i])
    ensures distinct <==> DistinctChildren(cs)
  {
    hide EntryAt, IdAt;
    cs, distinct := [], true;
    var seen: set<RecordId> := {};
    for index := 0 to count
      invariant |cs| == index && ChildrenFit(cs)
      invariant forall i :: 0 <= i < index ==> ChildAt(b, ChildOffset(i), cs[i])
      invariant forall id :: id in seen <==> exists i :: 0 <= i < index && cs[i].id == id
      invariant distinct <==> DistinctChildren(cs)
    {
      var high := ReadEntry(b, ChildOffset(index));
      var id := ReadId(b, ChildOffset(index) + LEAF_ENTRY_BYTES);
      ghost var before := cs;
      distinct := distinct && id !in seen;
      seen := seen + {id};
      cs := cs + [Child(high, id)];
      assert forall i :: 0 <= i < index ==> cs[i] == before[i];
    }
  }

  lemma InternalChildrenAre(b: seq<byte>, children: seq<Child>)
    requires |b| == INTERNAL_BYTES && |children| == Get(b, 8, 2) <= INTERNAL_CAPACITY
    requires forall i :: 0 <= i < |children| ==> ChildAt(b, ChildOffset(i), children[i])
    ensures forall cs :: IsInternal(b, cs) ==> cs == children
  {
    hide EntryAt, Get;
    forall cs: seq<Child> | IsInternal(b, cs)
      ensures cs == children
    {
      forall i | 0 <= i < |children|
        ensures cs[i] == children[i]
      {
        assert ChildAt(b, ChildOffset(i), cs[i]) && ChildAt(b, ChildOffset(i), children[i]);
        EntryUnique(b, ChildOffset(i), cs[i].high, children[i].high);
      }
    }
  }

  lemma InternalUnique(b: seq<byte>, cs: seq<Child>, ds: seq<Child>)
    requires IsInternal(b, cs) && IsInternal(b, ds)
    ensures cs == ds
  {
    InternalChildrenAre(b, cs);
  }

  /** The three kinds of records cannot be mistaken for one another. */
  lemma KindsDisjoint(b: seq<byte>)
    ensures forall h, l :: IsHeader(b, h) ==> !IsLeaf(b, l)
    ensures forall h, cs :: IsHeader(b, h) ==> !IsInternal(b, cs)
    ensures forall l, cs :: IsLeaf(b, l) ==> !IsInternal(b, cs)
  {
  }
}
