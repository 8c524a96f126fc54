/** The on-disk formats, byte by byte: where each field lies, and which byte of it comes first. */
module Layouts {
  import opened Bytes
  import opened PageFormat
  import opened Stores
  import opened BPlusNodes
  import opened Tuples
  import opened Catalogs
  import opened TableRows

  // ---------------------------------------------------------------- numbers

  function U16(b: seq<byte>, at: nat): int
    requires at + 2 <= |b|
  {
    var x: int, y: int := b[at], b[at + 1];
    x + 0x100 * y
  }

  function U32(b: seq<byte>, at: nat): int
    requires at + 4 <= |b|
  {
    U16(b, at) + 0x1_0000 * U16(b, at + 2)
  }

  lemma GetTwo(b: seq<byte>, at: nat)
    requires at + 2 <= |b|
    ensures Get(b, at, 2) == U16(b, at)
  {
    FieldValues(b[at..at + 2]);
  }

  lemma GetFour(b: seq<byte>, at: nat)
    requires at + 4 <= |b|
    ensures Get(b, at, 4) == U32(b, at)
  {
    FieldValues(b[at..at + 4]);
  }

  lemma GetEight(b: seq<byte>, at: nat)
    requires at + 8 <= |b|
    ensures Get(b, at, 8) == U32(b, at) + 0x1_0000_0000 * U32(b, at + 4)
  {
    var s := b[at..at + 8];
    FieldValues(s);
    assert s[..4] == b[at..at + 4] && s[4..] == b[at + 4..at + 8];
    GetFour(b, at);
    GetFour(b, at + 4);
  }

  /** A 64-bit key in two's complement. */
  predicate KeyIn(b: seq<byte>, at: nat, key: int64)
    requires at + 8 <= |b|
  {
    var u := U32(b, at) + 0x1_0000_0000 * U32(b, at + 4);
    u == if key < 0 then key + 0x1_0000_0000_0000_0000 else key
  }

  predicate IdIn(b: seq<byte>, at: nat, page: int, slot: int)
    requires at + 6 <= |b|
  {
    U32(b, at) == page && U16(b, at + 4) == slot
  }

  lemma IdLayout(b: seq<byte>, at: nat, id: RecordId)
    requires at + 6 <= |b|
    ensures IdAt(b, at, id) <==> IdIn(b, at, id.page, id.slot)
  {
    GetFour(b, at);
    GetTwo(b, at + 4);
  }

  lemma EntryLayout(b: seq<byte>, at: nat, e: Entry)
    requires at + 14 <= |b|
    ensures EntryAt(b, at, e) <==> KeyIn(b, at, e.key) && IdIn(b, at + 8, e.value.page, e.value.slot)
  {
    hide U32, Get;
    GetEight(b, at);
    IdLayout(b, at + 8, e.value);
  }

  // ---------------------------------------------------------------- tree nodes

  lemma HeaderLayout(b: seq<byte>, h: Header)
    ensures IsHeader(b, h) <==>
      && |b| == 24 && b[..4] == [0x50, 0x46, 0x49, 0x48] && U16(b, 4) == 2
      && (h.height == 1 || h.height == 2) && U16(b, 6) == h.height
      && IdIn(b, 8, h.root.page, h.root.slot) && U16(b, 14) == 0
      && IdIn(b, 16, h.firstLeaf.page, h.firstLeaf.slot) && U16(b, 22) == 0
  {
    hide U16, IdIn, Get, IdAt;
    if |b| == 24 {
      GetTwo(b, 4);
      GetTwo(b, 6);
      GetTwo(b, 14);
      GetTwo(b, 22);
      IdLayout(b, 8, h.root);
      IdLayout(b, 16, h.firstLeaf);
    }
  }

  lemma LeafLayout(b: seq<byte>, leaf: Leaf)
    ensures IsLeaf(b, leaf) <==>
      && |b| == 1808 && ValidLeaf(leaf) && b[..4] == [0x50, 0x46, 0x49, 0x4C] && U16(b, 4) == 2 && U16(b, 6) == 0
      && (if leaf.next.Some? then IdIn(b, 8, leaf.next.value.page, leaf.next.value.slot) else IdIn(b, 8, 0xFFFF_FFFF, 0xFFFF))
      && U16(b, 14) == |leaf.entries|
      && (forall i :: 0 <= i < |leaf.entries| ==>
            var e := leaf.entries[i];
            KeyIn(b, 16 + 14 * i, e.key) && IdIn(b, 24 + 14 * i, e.value.page, e.value.slot))
      && (forall k :: 16 + 14 * |leaf.entries| <= k < |b| ==> b[k] == 0)
  {
    hide U16, IdIn, KeyIn, Get, IdAt, EntryAt, Ordered;
    if |b| == 1808 && ValidLeaf(leaf) {
      GetTwo(b, 4);
      GetTwo(b, 6);
      GetTwo(b, 14);
      IdLayout(b, 8, LinkId(leaf.next));
      forall i | 0 <= i < |leaf.entries|
        ensures EntryAt(b, EntryOffset(i), leaf.entries[i]) <==>
          var e := leaf.entries[i];
          KeyIn(b, 16 + 14 * i, e.key) && IdIn(b, 24 + 14 * i, e.value.page, e.value.slot)
      {
        EntryLayout(b, EntryOffset(i), leaf.entries[i]);
      }
    }
  }

  lemma InternalLayout(b: seq<byte>, cs: seq<Child>)
    ensures ListsChildren(b, cs) <==>
      && |b| == 2576 && 2 <= |cs| <= 128 && SeparatorsOrdered(cs) && ChildrenFit(cs)
      && b[..4] == [0x50, 0x46, 0x49, 0x4E] && U16(b, 4) == 2 && U16(b, 6) == 0
      && U16(b, 8) == |cs| && U16(b, 10) == 0 && U32(b, 12) == 0
      && (forall i :: 0 <= i < |cs| ==>
            var c := cs[i];
            && KeyIn(b, 16 + 20 * i, c.high.key) && IdIn(b, 24 + 20 * i, c.high.value.page, c.high.value.slot)
            && IdIn(b, 30 + 20 * i, c.id.page, c.id.slot))
      && (forall k :: 16 + 20 * |cs| <= k < |b| ==> b[k] == 0)
  {
    hide U16, U32, IdIn, KeyIn, Get, IdAt, EntryAt, SeparatorsOrdered, ChildrenFit;
    if |b| == 2576 && 2 <= |cs| <= 128 {
      GetTwo(b, 4);
      GetTwo(b, 6);
      GetTwo(b, 8);
      GetTwo(b, 10);
      GetFour(b, 12);
      forall i | 0 <= i < |cs|
        ensures ChildAt(b, ChildOffset(i), cs[i]) <==>
          var c := cs[i];
          && KeyIn(b, 16 + 20 * i, c.high.key) && IdIn(b, 24 + 20 * i, c.high.value.page, c.high.value.slot)
          && IdIn(b, 30 + 20 * i, c.id.page, c.id.slot)
      {
        EntryLayout(b, ChildOffset(i), cs[i].high);
        IdLayout(b, ChildOffset(i) + 14, cs[i].id);
      }
    }
  }

  // ---------------------------------------------------------------- pages

  /** The header of a page and the entries of its slot directory. */
  lemma PageLayout(b: Image)
    ensures PageId(b) == U32(b, 8) && SlotCount(b) == U16(b, 12)
    ensures HeaderOk(b) <==>
      && b[..4] == [0x50, 0x47, 0x46, 0x52] && U16(b, 4) == 1 && U16(b, 6) == 0 && U16(b, 18) == 0
      && U16(b, 14) == 24 + 6 * U16(b, 12) && U16(b, 14) <= U16(b, 16) <= 4096
    ensures forall i: nat :: 24 + 6 * (i + 1) <= 4096 ==>
      SlotAt(b, i) == Slot(U16(b, 24 + 6 * i), U16(b, 26 + 6 * i), U16(b, 28 + 6 * i))
    ensures ValidImage(b) <==> Formed(b) && U32(b, 20) == Checksum(b)
  {
    hide Get, Checksum, Formed;
    GetFour(b, 8);
    GetTwo(b, 12);
    GetFour(b, 20);
    GetFour(b, 0);
    assert b[..4] == [b[0], b[1], b[2], b[3]];
    GetTwo(b, 4);
    GetTwo(b, 6);
    GetTwo(b, 14);
    GetTwo(b, 16);
    GetTwo(b, 18);
    forall i: nat | 24 + 6 * (i + 1) <= 4096
      ensures SlotAt(b, i) == Slot(U16(b, 24 + 6 * i), U16(b, 26 + 6 * i), U16(b, 28 + 6 * i))
    {
      GetTwo(b, 24 + 6 * i);
      GetTwo(b, 26 + 6 * i);
      GetTwo(b, 28 + 6 * i);
    }
  }

  // ---------------------------------------------------------------- catalog records and rows

  lemma TwoBytes(b: seq<byte>, at: nat, value: nat)
    requires at + 2 <= |b| && b[at..at + 2] == LE(2, value) && value < 0x1_0000
    ensures U16(b, at) == value
  {
    Pow256Values();
    LERoundTrip(2, value);
    GetTwo(b, at);
  }

  lemma FourBytes(b: seq<byte>, at: nat, value: nat)
    requires at + 4 <= |b| && b[at..at + 4] == LE(4, value) && value < 0x1_0000_0000
    ensures U32(b, at) == value
  {
    Pow256Values();
    LERoundTrip(4, value);
    GetFour(b, at);
  }

  /** A text: two bytes for its length, and its bytes. */
  predicate TextIn(b: seq<byte>, at: nat, t: Text) {
    at + 2 + |t| <= |b| && U16(b, at) == |t| && b[at + 2..at + 2 + |t|] == t
  }

  lemma TextWritten(b: seq<byte>, at: nat, t: Text)
    requires at + 2 + |t| <= |b| && b[at..at + 2 + |t|] == TextField(t) && |t| < 0x1_0000
    ensures TextIn(b, at, t)
  {
    hide LE;
    var s := b[at..at + 2 + |t|];
    assert b[at..at + 2] == s[..2] == LE(2, |t|);
    assert b[at + 2..at + 2 + |t|] == s[2..] == t;
    TwoBytes(b, at, |t|);
  }

  /** One column of a table record: its name, the number of its type, and whether it may be null. */
  lemma ColumnLayout(c: Column)
    requires |c.name| < 0x1_0000
    ensures var b := ColumnField(c);
      && |b| == 4 + |c.name| && TextIn(b, 0, c.name)
      && b[2 + |c.name|] == (match c.dataType case Integer => 1 case Text => 2 case Boolean => 3)
      && b[3 + |c.name|] == (if c.nullable then 1 else 0)
  {
    hide LE, TextField;
    var b := ColumnField(c);
    assert b[0..2 + |c.name|] == TextField(c.name);
    TextWritten(b, 0, c.name);
  }

  /** A table record: its head, and the columns from first to last. */
  lemma TableLayout(t: TableDefinition)
    requires ValidTable(t)
    ensures var b, at := TableRecord(t), 12 + |t.name|;
      && |b| >= at + 2 && b[..4] == [0x50, 0x46, 0x43, 0x31] && U16(b, 4) == 1 && U32(b, 6) == t.version
      && TextIn(b, 10, t.name) && U16(b, at) == |t.schema| && b[at + 2..] == ColumnFields(t.schema)
    ensures ColumnFields([]) == []
    ensures forall front: Schema, c: Column {:trigger ColumnFields(front + [c])} ::
      ColumnFields(front + [c]) == ColumnFields(front) + ColumnField(c)
  {
    hide LE, TextField, U16, U32, DistinctColumns;
    var b, at := TableRecord(t), 12 + |t.name|;
    assert b[4..6] == LE(2, 1) && b[6..10] == LE(4, t.version);
    assert b[10..at] == TextField(t.name) && b[at..at + 2] == LE(2, |t.schema|);
    TwoBytes(b, 4, 1);
    FourBytes(b, 6, t.version);
    TextWritten(b, 10, t.name);
    TwoBytes(b, at, |t.schema|);
    forall front: Schema, c: Column
      ensures ColumnFields(front + [c]) == ColumnFields(front) + ColumnField(c)
    {
      assert (front + [c])[..|front|] == front;
    }
  }

  /** An index record names the index, its table and its column. */
  lemma IndexLayout(i: IndexDefinition)
    requires NameOk(i.name) && NameOk(i.table) && NameOk(i.column) && IdFits(i.headerId)
    ensures var b, at := IndexRecord(i), 18 + |i.name|;
      && |b| == 22 + |i.name| + |i.table| + |i.column| && b[..4] == [0x50, 0x46, 0x58, 0x31]
      && U16(b, 4) == 1 && U16(b, 6) == 0 && IdIn(b, 8, i.headerId.page, i.headerId.slot) && U16(b, 14) == 0
      && TextIn(b, 16, i.name) && TextIn(b, at, i.table) && TextIn(b, at + 2 + |i.table|, i.column)
  {
    hide LE, TextField, U16, U32;
    var b, at := IndexRecord(i), 18 + |i.name|;
    assert b[4..6] == LE(2, 1) && b[6..8] == LE(2, 0) && b[8..12] == LE(4, i.headerId.page);
    assert b[12..14] == LE(2, i.headerId.slot) && b[14..16] == LE(2, 0);
    TwoBytes(b, 4, 1);
    TwoBytes(b, 6, 0);
    FourBytes(b, 8, i.headerId.page);
    TwoBytes(b, 12, i.headerId.slot);
    TwoBytes(b, 14, 0);
    IndexNames(i);
  }

  lemma IndexNames(i: IndexDefinition)
    requires NameOk(i.name) && NameOk(i.table) && NameOk(i.column)
    ensures var b, at := IndexRecord(i), 18 + |i.name|;
      TextIn(b, 16, i.name) && TextIn(b, at, i.table) && TextIn(b, at + 2 + |i.table|, i.column)
  {
    hide LE, TextField, TextIn;
    var b, at := IndexRecord(i), 18 + |i.name|;
    assert b[16..at] == TextField(i.name) && b[at..at + 2 + |i.table|] == TextField(i.table);
    assert b[at + 2 + |i.table|..] == TextField(i.column);
    TextWritten(b, 16, i.name);
    TextWritten(b, at, i.table);
    TextWritten(b, at + 2 + |i.table|, i.column);
  }

  /** The envelope of a row: schema version and table name before the bytes of the tuple. */
  lemma EnvelopeLayout(name: Text, version: nat, payload: seq<byte>)
    requires NameOk(name) && 0 < version <= MAX_VERSION
    ensures var b := WrapBytes(name, version, payload);
      && b[..4] == [0x50, 0x46, 0x52, 0x31] && |b| == 12 + |name| + |payload|
      && U16(b, 4) == 1 && U32(b, 6) == version && TextIn(b, 10, name) && b[12 + |name|..] == payload
  {
    hide LE, U32;
    var b := WrapBytes(name, version, payload);
    WrapFields(name, version, payload);
    TwoBytes(b, 4, 1);
    FourBytes(b, 6, version);
    TwoBytes(b, 10, |name|);
  }
}
