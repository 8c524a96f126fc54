/**
 The 4096-byte slotted page as a value: header fields, slot directory, checksum, the validity
 that SlottedPage::validate checks, and the abstract contents (one optional record per slot).
 */
module PageFormat {
  import opened Wrappers
  import opened Bytes

  const PAGE_SIZE := 4096
  const HEADER_SIZE := 24
  const SLOT_SIZE := 6
  const MAGIC := 0x52464750
  const VERSION := 1
  const LIVE := 1
  const MAX_RECORD := 0xFFFF

  const VERSION_AT := 4
  const FLAGS_AT := 6
  const PAGE_ID_AT := 8
  const COUNT_AT := 12
  const FREE_START_AT := 14
  const FREE_END_AT := 16
  const RESERVED_AT := 18
  const CHECKSUM_AT := 20

  type Image = b: seq<byte> | |b| == PAGE_SIZE witness Zeros(PAGE_SIZE)

  // ---------------------------------------------------------------- header and directory

  datatype Slot = Slot(offset: nat, length: nat, flags: nat)

  const TOMBSTONE := Slot(0, 0, 0)

  function PageId(b: Image): nat { Get(b, PAGE_ID_AT, 4) }
  function SlotCount(b: Image): nat { Get(b, COUNT_AT, 2) }
  function FreeStart(b: Image): nat { Get(b, FREE_START_AT, 2) }
  function FreeEnd(b: Image): nat { Get(b, FREE_END_AT, 2) }

  function DirectoryEnd(slots: nat): nat { HEADER_SIZE + slots * SLOT_SIZE }

  function SlotAt(b: Image, i: nat): Slot
    requires DirectoryEnd(i + 1) <= PAGE_SIZE
  {
    var at := DirectoryEnd(i);
    Slot(Get(b, at, 2), Get(b, at + 2, 2), Get(b, at + 4, 2))
  }

  function SlotBytes(s: Slot): (r: seq<byte>)
    ensures |r| == SLOT_SIZE
  {
    LE(2, s.offset) + LE(2, s.length) + LE(2, s.flags)
  }

  predicate SlotOk(s: Slot, freeEnd: nat) {
    || s == TOMBSTONE
    || (s.flags == LIVE && s.length > 0 && s.offset >= freeEnd && s.offset + s.length <= PAGE_SIZE)
  }

  predicate Apart(s: Slot, t: Slot) {
    s.flags == 0 || t.flags == 0 || s.offset + s.length <= t.offset || t.offset + t.length <= s.offset
  }

  predicate HeaderOk(b: Image) {
    && Get(b, 0, 4) == MAGIC
    && Get(b, VERSION_AT, 2) == VERSION
    && Get(b, FLAGS_AT, 2) == 0
    && Get(b, RESERVED_AT, 2) == 0
    && FreeStart(b) == DirectoryEnd(SlotCount(b))
    && FreeStart(b) <= FreeEnd(b) <= PAGE_SIZE
  }

  /** Everything that validation checks except the checksum. */
  predicate Formed(b: Image) {
    HeaderOk(b) && SlotsOk(b, SlotCount(b), FreeEnd(b))
  }

  /** The first n slots are live or canonical tombstones, and their payloads do not overlap. */
  predicate SlotsOk(b: Image, n: nat, freeEnd: nat)
    requires DirectoryEnd(n) <= PAGE_SIZE
  {
    && (forall i :: 0 <= i < n ==> SlotOk(SlotAt(b, i), freeEnd))
    && (forall i, j :: 0 <= i < j < n ==> Apart(SlotAt(b, i), SlotAt(b, j)))
  }

  predicate ValidImage(b: Image) {
    Formed(b) && Get(b, CHECKSUM_AT, 4) == Checksum(b)
  }

  // ---------------------------------------------------------------- abstract contents

  /** One entry per slot: the live record in it, or None for a tombstone. */
  type Records = seq<Option<seq<byte>>>

  function RecordAt(b: Image, i: nat): Option<seq<byte>>
    requires Formed(b) && i < SlotCount(b)
  {
    var s := SlotAt(b, i);
    if s.flags == 0 then None else Some(b[s.offset..s.offset + s.length])
  }

  function RecordsOf(b: Image): (r: Records)
    requires Formed(b)
    ensures |r| == SlotCount(b)
    ensures forall i :: 0 <= i < |r| ==> r[i] == RecordAt(b, i)
  {
    seq(SlotCount(b), i requires 0 <= i < SlotCount(b) => RecordAt(b, i))
  }

  /** The records of a stored page; an invalid image has none. */
  function PageRecords(b: Image): Records {
    if ValidImage(b) then RecordsOf(b) else []
  }

  function Size(r: Option<seq<byte>>): nat {
    if r.Some? then |r.value| else 0
  }

  function Total(rs: Records): nat {
    if rs == [] then 0 else Total(rs[..|rs| - 1]) + Size(rs[|rs| - 1])
  }

  /** The first tombstone, or the slot after the last one. */
  function FirstFree(rs: Records): (i: nat)
    ensures i <= |rs|
    ensures i < |rs| ==> rs[i] == None
    ensures forall k :: 0 <= k < i ==> rs[k].Some?
  {
    if rs == [] then 0 else if rs[0] == None then 0 else 1 + FirstFree(rs[1..])
  }

  /** The bytes left once payloads are packed; negative if the records could not be stored. */
  function Reclaimable(rs: Records): int {
    PAGE_SIZE - DirectoryEnd(|rs|) - Total(rs)
  }

  /** What an insertion of n bytes takes: a fresh slot costs six bytes of directory. */
  function Need(rs: Records, n: nat): nat {
    n + if FirstFree(rs) < |rs| then 0 else SLOT_SIZE
  }

  predicate Fits(rs: Records, n: nat) { n <= MAX_RECORD && Need(rs, n) <= Reclaimable(rs) }

  function WithRecord(rs: Records, i: nat, record: seq<byte>): Records
    requires i <= |rs|
  {
    if i < |rs| then rs[i := Some(record)] else rs + [Some(record)]
  }

  // ---------------------------------------------------------------- sizes

  lemma EmptyTotal(rs: Records)
    requires rs == []
    ensures Total(rs) == 0
  {
  }

  lemma {:induction false} TotalUpdate(rs: Records, i: nat, r: Option<seq<byte>>)
    requires i < |rs|
    ensures Total(rs[i := r]) == Total(rs) - Size(rs[i]) + Size(r)
  {
    var n := |rs| - 1;
    if i == n {
      assert rs[i := r][..n] == rs[..n];
    } else {
      TotalUpdate(rs[..n], i, r);
      assert rs[i := r][..n] == rs[..n][i := r];
    }
  }

  lemma {:induction false} TotalMonotone(rs: Records, i: nat, j: nat)
    requires i <= j <= |rs|
    ensures Total(rs[..i]) <= Total(rs[..j])
    decreases j
  {
    if i < j {
      TotalMonotone(rs, i, j - 1);
      assert rs[..j][..j - 1] == rs[..j - 1];
    }
  }

  lemma TotalStep(rs: Records, i: nat)
    requires i < |rs|
    ensures Total(rs[..i + 1]) == Total(rs[..i]) + Size(rs[i])
  {
    assert rs[..i + 1][..i] == rs[..i];
  }

  function Interval(lo: int, hi: int): (r: set<int>)
    requires lo <= hi
    ensures |r| == hi - lo
    ensures forall k :: k in r <==> lo <= k < hi
    decreases hi - lo
  {
    if lo == hi then {} else Interval(lo, hi - 1) + {hi - 1}
  }

  /** The payload positions of the slots before n. */
  ghost function Occupied(b: Image, n: nat): set<int>
    requires DirectoryEnd(n) <= PAGE_SIZE
  {
    if n == 0 then {} else
    var s := SlotAt(b, n - 1);
    Occupied(b, n - 1) + if s.flags == 0 then {} else Interval(s.offset, s.offset + s.length)
  }

  lemma {:induction false} OccupiedApart(b: Image, n: nat, s: Slot)
    requires DirectoryEnd(n) <= PAGE_SIZE && s.flags != 0
    requires forall i :: 0 <= i < n ==> Apart(SlotAt(b, i), s)
    ensures Occupied(b, n) !! Interval(s.offset, s.offset + s.length)
  {
    hide Interval, SlotAt;
    if n > 0 {
      OccupiedApart(b, n - 1, s);
      assert Apart(SlotAt(b, n - 1), s);
    }
  }

  /** Conversely, a record clear of all occupied positions is apart from every earlier slot. */
  lemma {:induction false} ApartOccupied(b: Image, n: nat, s: Slot)
    requires DirectoryEnd(n) <= PAGE_SIZE && s.length > 0
    requires forall i :: 0 <= i < n && SlotAt(b, i).flags != 0 ==> SlotAt(b, i).length > 0
    requires Occupied(b, n) !! Interval(s.offset, s.offset + s.length)
    ensures forall i :: 0 <= i < n ==> Apart(SlotAt(b, i), s)
  {
    hide Interval, SlotAt;
    if n > 0 {
      ApartOccupied(b, n - 1, s);
      var t := SlotAt(b, n - 1);
      if t.flags != 0 {
        var inner := if t.offset <= s.offset then s.offset else t.offset;
        assert inner in Interval(t.offset, t.offset + t.length) || inner in Interval(s.offset, s.offset + s.length);
        assert !(inner in Interval(t.offset, t.offset + t.length) && inner in Interval(s.offset, s.offset + s.length));
      }
    }
  }

  /** What validation checks slot by slot is what the whole directory has to satisfy. */
  lemma SlotsOkStep(b: Image, n: nat, freeEnd: nat)
    requires DirectoryEnd(n + 1) <= PAGE_SIZE && SlotsOk(b, n, freeEnd)
    ensures var s := SlotAt(b, n);
      SlotsOk(b, n + 1, freeEnd) <==>
        SlotOk(s, freeEnd) && (s.flags == 0 || Occupied(b, n) !! Interval(s.offset, s.offset + s.length))
  {
    hide Interval, SlotAt;
    var s := SlotAt(b, n);
    if SlotOk(s, freeEnd) && s.flags != 0 {
      if Occupied(b, n) !! Interval(s.offset, s.offset + s.length) {
        ApartOccupied(b, n, s);
      }
      if SlotsOk(b, n + 1, freeEnd) {
        OccupiedApart(b, n, s);
      }
    }
  }

  lemma NoSlots(b: Image, freeEnd: nat)
    ensures SlotsOk(b, 0, freeEnd) && Occupied(b, 0) == {}
  {
  }

  lemma SlotsOkPrefix(b: Image, m: nat, n: nat, freeEnd: nat)
    requires m <= n && DirectoryEnd(n) <= PAGE_SIZE && SlotsOk(b, n, freeEnd)
    ensures SlotsOk(b, m, freeEnd)
  {
  }

  lemma OccupiedStep(b: Image, n: nat)
    requires DirectoryEnd(n + 1) <= PAGE_SIZE
    ensures var s := SlotAt(b, n);
      Occupied(b, n + 1) == Occupied(b, n) + if s.flags == 0 then {} else Interval(s.offset, s.offset + s.length)
  {
  }

  lemma OccupiedNone(b: Image)
    ensures Occupied(b, 0) == {}
  {
  }

  /** A slot of a well-formed page, and its record. */
  lemma FormedSlot(b: Image, i: nat)
    requires Formed(b) && i < SlotCount(b)
    ensures DirectoryEnd(i + 1) <= FreeEnd(b) <= PAGE_SIZE && SlotOk(SlotAt(b, i), FreeEnd(b))
    ensures Size(RecordsOf(b)[i]) == if SlotAt(b, i).flags == 0 then 0 else SlotAt(b, i).length
    ensures forall j :: 0 <= j < i ==> Apart(SlotAt(b, j), SlotAt(b, i))
  {
    hide SlotAt, Get;
  }

  lemma {:induction false} OccupiedSize(b: Image, n: nat)
    requires Formed(b) && n <= SlotCount(b)
    ensures |Occupied(b, n)| == Total(RecordsOf(b)[..n])
    ensures Occupied(b, n) <= Interval(FreeEnd(b), PAGE_SIZE)
  {
    hide Interval, SlotAt, RecordsOf, Total, Formed, FreeEnd, SlotCount, Apart, Occupied;
    if n == 0 {
      EmptyTotal(RecordsOf(b)[..0]);
      OccupiedNone(b);
    } else {
      OccupiedSize(b, n - 1);
      TotalStep(RecordsOf(b), n - 1);
      FormedSlot(b, n - 1);
      OccupiedStep(b, n - 1);
      var s := SlotAt(b, n - 1);
      if s.flags != 0 {
        OccupiedApart(b, n - 1, s);
      }
      SlotJoins(Occupied(b, n - 1), s, FreeEnd(b));
    }
  }

  /** A slot apart from the positions before it adds its payload. */
  lemma SlotJoins(o: set<int>, s: Slot, freeEnd: nat)
    requires SlotOk(s, freeEnd) && freeEnd <= PAGE_SIZE && o <= Interval(freeEnd, PAGE_SIZE)
    requires s.flags != 0 ==> o !! Interval(s.offset, s.offset + s.length)
    ensures var more := o + if s.flags == 0 then {} else Interval(s.offset, s.offset + s.length);
      && |more| == |o| + (if s.flags == 0 then 0 else s.length)
      && more <= Interval(freeEnd, PAGE_SIZE)
  {
    hide Interval;
  }

  lemma {:induction false} SubsetSize(a: set<int>, b: set<int>)
    requires a <= b
    ensures |a| <= |b|
  {
    assert b == a + (b - a);
  }

  /** Records that do not overlap cannot hold more bytes than the region they lie in. */
  lemma PayloadFits(b: Image)
    requires Formed(b)
    ensures Total(RecordsOf(b)) <= PAGE_SIZE - FreeEnd(b)
    ensures Reclaimable(RecordsOf(b)) >= FreeEnd(b) - FreeStart(b)
  {
    var n := SlotCount(b);
    OccupiedSize(b, n);
    assert RecordsOf(b)[..n] == RecordsOf(b);
    SubsetSize(Occupied(b, n), Interval(FreeEnd(b), PAGE_SIZE));
  }

  /** Replacing a record by one of the same length never runs out of space. */
  lemma SameSizeFits(b: Image, i: nat, record: seq<byte>)
    requires Formed(b) && i < SlotCount(b) && RecordAt(b, i).Some?
    requires |record| == |RecordAt(b, i).value|
    ensures Reclaimable(RecordsOf(b)[i := Some(record)]) == Reclaimable(RecordsOf(b)) >= 0
  {
    hide Total, SlotAt, Get;
    TotalUpdate(RecordsOf(b), i, Some(record));
    PayloadFits(b);
  }

  /** A record fits exactly if the page can hold the records that there are with it in the first free slot. */
  lemma FitsMeans(rs: Records, record: seq<byte>)
    ensures Fits(rs, |record|) <==>
      |record| <= 0xFFFF && Total(WithRecord(rs, FirstFree(rs), record)) + 24 + 6 * |WithRecord(rs, FirstFree(rs), record)| <= 4096
  {
    var i := FirstFree(rs);
    if i < |rs| {
      TotalUpdate(rs, i, Some(record));
    } else {
      var more := rs + [Some(record)];
      assert more[..|more| - 1] == rs;
    }
  }

  // ---------------------------------------------------------------- frames

  lemma SliceFrame(b: Image, c: Image, lo: nat, hi: nat)
    requires lo <= hi <= PAGE_SIZE
    requires forall k :: lo <= k < hi ==> b[k] == c[k]
    ensures b[lo..hi] == c[lo..hi]
  {
  }

  lemma GetFrame(b: Image, c: Image, offset: nat, width: nat)
    requires offset + width <= PAGE_SIZE
    requires forall k :: offset <= k < offset + width ==> b[k] == c[k]
    ensures Get(b, offset, width) == Get(c, offset, width)
  {
    assert b[offset..offset + width] == c[offset..offset + width];
  }

  lemma GetSeparates(b: Image, c: Image, offset: nat, width: nat, at: nat)
    requires offset <= at < offset + width <= PAGE_SIZE && b[at] != c[at]
    ensures Get(b, offset, width) != Get(c, offset, width)
  {
    hide LE, FromLE;
    var x, y := b[offset..offset + width], c[offset..offset + width];
    assert x[at - offset] != y[at - offset];
    FromLESeparates(x, y);
  }

  lemma GetSpliced(b: Image, offset: nat, width: nat, value: nat)
    requires offset + width <= PAGE_SIZE && value < Pow256(width)
    ensures Get(Splice(b, offset, LE(width, value)), offset, width) == value
  {
    LERoundTrip(width, value);
    assert Splice(b, offset, LE(width, value))[offset..offset + width] == LE(width, value);
  }

  lemma SlotFrame(b: Image, c: Image, i: nat)
    requires DirectoryEnd(i + 1) <= PAGE_SIZE
    requires forall k :: DirectoryEnd(i) <= k < DirectoryEnd(i + 1) ==> b[k] == c[k]
    ensures SlotAt(b, i) == SlotAt(c, i)
  {
    var at := DirectoryEnd(i);
    GetFrame(b, c, at, 2);
    GetFrame(b, c, at + 2, 2);
    GetFrame(b, c, at + 4, 2);
  }

  lemma SlotSpliced(b: Image, i: nat, s: Slot)
    requires DirectoryEnd(i + 1) <= PAGE_SIZE
    requires s.offset < 0x1_0000 && s.length < 0x1_0000 && s.flags < 0x1_0000
    ensures SlotAt(Splice(b, DirectoryEnd(i), SlotBytes(s)), i) == s
  {
    var at := DirectoryEnd(i);
    var c := Splice(b, at, SlotBytes(s));
    Pow256Values();
    LERoundTrip(2, s.offset);
    LERoundTrip(2, s.length);
    LERoundTrip(2, s.flags);
    assert c[at..at + 2] == LE(2, s.offset);
    assert c[at + 2..at + 4] == LE(2, s.length);
    assert c[at + 4..at + 6] == LE(2, s.flags);
  }

  /** The header fields other than counts and bounds are untouched. */
  predicate SameIdentity(b: Image, c: Image) {
    && (forall k :: 0 <= k < COUNT_AT ==> b[k] == c[k])
    && b[RESERVED_AT] == c[RESERVED_AT] && b[RESERVED_AT + 1] == c[RESERVED_AT + 1]
  }

  lemma IdentityFrame(b: Image, c: Image)
    requires SameIdentity(b, c)
    ensures PageId(b) == PageId(c)
    ensures Get(b, 0, 4) == Get(c, 0, 4)
    ensures Get(b, VERSION_AT, 2) == Get(c, VERSION_AT, 2)
    ensures Get(b, FLAGS_AT, 2) == Get(c, FLAGS_AT, 2)
    ensures Get(b, RESERVED_AT, 2) == Get(c, RESERVED_AT, 2)
  {
    GetFrame(b, c, 0, 4);
    GetFrame(b, c, VERSION_AT, 2);
    GetFrame(b, c, FLAGS_AT, 2);
    GetFrame(b, c, PAGE_ID_AT, 4);
    GetFrame(b, c, RESERVED_AT, 2);
  }

  // ---------------------------------------------------------------- checksum

  const FNV_OFFSET := 2166136261
  const FNV_PRIME := 16777619
  const FNV_INVERSE := 899433627
  const WORD := 0x1_0000_0000

  function Pow2(n: nat): (r: nat)
    ensures r >= 1
  {
    if n == 0 then 1 else 2 * Pow2(n - 1)
  }

  /** Bitwise exclusive or of the low `bits` bits. */
  function Xor(a: nat, b: nat, bits: nat): (r: nat)
    ensures r < Pow2(bits)
  {
    if bits == 0 then 0 else (a + b) % 2 + 2 * Xor(a / 2, b / 2, bits - 1)
  }

  lemma {:induction false} XorParts(a: nat, b: nat, bits: nat)
    requires bits > 0
    ensures Xor(a, b, bits) / 2 == Xor(a / 2, b / 2, bits - 1)
    ensures Xor(a, b, bits) % 2 == (a + b) % 2
  {
  }

  lemma ParityCancels(a: nat, b: nat, x: nat)
    requires x % 2 == (a + b) % 2
    ensures (x + b) % 2 == a % 2 && (a + x) % 2 == b % 2
  {
  }

  lemma SameHalves(u: nat, v: nat)
    requires u / 2 == v / 2 && u % 2 == v % 2
    ensures u == v
  {
  }

  lemma {:induction false} XorCancels(a: nat, b: nat, bits: nat)
    requires a < Pow2(bits)
    ensures Xor(Xor(a, b, bits), b, bits) == a
  {
    if bits > 0 {
      hide Xor;
      var x := Xor(a, b, bits);
      XorParts(a, b, bits);
      XorParts(x, b, bits);
      ParityCancels(a, b, x);
      XorCancels(a / 2, b / 2, bits - 1);
      SameHalves(Xor(x, b, bits), a);
    }
  }

  lemma {:induction false} XorCancelsLeft(a: nat, b: nat, bits: nat)
    requires b < Pow2(bits)
    ensures Xor(a, Xor(a, b, bits), bits) == b
  {
    if bits > 0 {
      hide Xor;
      var x := Xor(a, b, bits);
      XorParts(a, b, bits);
      XorParts(a, x, bits);
      ParityCancels(a, b, x);
      XorCancelsLeft(a / 2, b / 2, bits - 1);
      SameHalves(Xor(a, x, bits), b);
    }
  }

  lemma Pow2Word()
    ensures Pow2(32) == WORD
  {
    assert Pow2(8) == 256;
    assert Pow2(16) == 256 * Pow2(8) by { assert Pow2(12) == 16 * Pow2(8); }
    assert Pow2(24) == 256 * Pow2(16) by { assert Pow2(20) == 16 * Pow2(16); }
    assert Pow2(32) == 256 * Pow2(24) by { assert Pow2(28) == 16 * Pow2(24); }
  }

  /** One round of 32-bit FNV-1a. */
  function FnvStep(hash: nat, value: byte): (r: nat)
    ensures r < WORD
  {
    Xor(hash, value, 32) * FNV_PRIME % WORD
  }

  lemma {:induction false} XorZero(a: nat, bits: nat)
    requires a < Pow2(bits)
    ensures Xor(a, 0, bits) == a
  {
    if bits > 0 {
      XorZero(a / 2, bits - 1);
    }
  }

  lemma Pow2Five(n: nat)
    ensures Pow2(n + 5) == 32 * Pow2(n)
  {
    assert Pow2(n + 5) == 2 * Pow2(n + 4) && Pow2(n + 4) == 2 * Pow2(n + 3) && Pow2(n + 3) == 2 * Pow2(n + 2);
    assert Pow2(n + 2) == 2 * Pow2(n + 1) && Pow2(n + 1) == 2 * Pow2(n);
  }

  lemma XorStep(a: nat, b: nat, bits: nat)
    requires bits > 0
    ensures Xor(a, b, bits) == (a + b) % 2 + 2 * Xor(a / 2, b / 2, bits - 1)
  {
  }

  /** The checksum of an empty text, and that of "a", as published for 32-bit FNV-1a. */
  lemma FnvVectors()
    ensures FNV_OFFSET == 0x811C_9DC5 && FnvStep(FNV_OFFSET, 0x61) == 0xE40C_292C
  {
    XorVector();
    hide Xor;
  }

  lemma XorVector()
    ensures Xor(0x811C_9DC5, 0x61, 32) == 0x811C_9DA4
  {
    hide Xor, Pow2;
    assert Pow2(25) == 0x200_0000 by {
      Pow2Five(0);
      Pow2Five(5);
      Pow2Five(10);
      Pow2Five(15);
      Pow2Five(20);
      Pow2Zero();
    }
    XorZero(16922939, 25);
    XorStep(33845879, 1, 26);
    XorStep(67691758, 3, 27);
    XorStep(135383516, 6, 28);
    XorStep(270767032, 12, 29);
    XorStep(541534065, 24, 30);
    XorStep(1083068130, 48, 31);
    XorStep(2166136261, 97, 32);
  }

  lemma Pow2Zero()
    ensures Pow2(0) == 1
  {
  }

  /** The byte the checksum sees: its own four bytes read as zero. */
  function Masked(b: Image, k: nat): byte
    requires k < PAGE_SIZE
  {
    if CHECKSUM_AT <= k < CHECKSUM_AT + 4 then 0 else b[k]
  }

  function Fold(b: Image, n: nat): (r: nat)
    requires n <= PAGE_SIZE
    ensures r < WORD
  {
    if n == 0 then FNV_OFFSET else FnvStep(Fold(b, n - 1), Masked(b, n - 1))
  }

  function Checksum(b: Image): (r: nat)
    ensures r < WORD
  {
    Fold(b, PAGE_SIZE)
  }

  lemma {:induction false} FoldFrame(b: Image, c: Image, n: nat)
    requires n <= PAGE_SIZE
    requires forall k :: 0 <= k < n ==> Masked(b, k) == Masked(c, k)
    ensures Fold(b, n) == Fold(c, n)
  {
    if n > 0 {
      FoldFrame(b, c, n - 1);
    }
  }

  /** Multiplying by the prime is undone by multiplying by its inverse modulo 2^32. */
  lemma PrimeInvertible(x: nat)
    requires x < WORD
    ensures (x * FNV_PRIME % WORD) * FNV_INVERSE % WORD == x
  {
    var k, y := x * FNV_PRIME / WORD, x * FNV_PRIME % WORD;
    assert y * FNV_INVERSE == x + WORD * (3513497 * x - FNV_INVERSE * k) by {
      assert y == FNV_PRIME * x - WORD * k;
    }
    MultipleVanishes(x, 3513497 * x - FNV_INVERSE * k);
  }

  lemma MultipleVanishes(x: nat, t: int)
    requires x < WORD
    ensures (x + WORD * t) % WORD == x
  {
  }

  lemma FnvInjective(h: nat, g: nat, v: byte, w: byte)
    requires h < WORD && g < WORD
    requires FnvStep(h, v) == FnvStep(g, w)
    ensures h == g <==> v == w
  {
    Pow2Word();
    PrimeInvertible(Xor(h, v, 32));
    PrimeInvertible(Xor(g, w, 32));
    XorCancels(h, v, 32);
    XorCancels(g, w, 32);
    XorCancelsLeft(h, v, 32);
    XorCancelsLeft(g, w, 32);
  }

  lemma {:induction false} FoldSeparates(b: Image, c: Image, at: nat, n: nat)
    requires at < n <= PAGE_SIZE
    requires forall k :: 0 <= k < PAGE_SIZE ==> (Masked(b, k) != Masked(c, k) <==> k == at)
    ensures Fold(b, n) != Fold(c, n)
  {
    if n == at + 1 {
      FoldFrame(b, c, at);
    } else {
      FoldSeparates(b, c, at, n - 1);
    }
    if Fold(b, n) == Fold(c, n) {
      FnvInjective(Fold(b, n - 1), Fold(c, n - 1), Masked(b, n - 1), Masked(c, n - 1));
    }
  }

  /** A page damaged in exactly one byte never validates. */
  lemma OneByteDamageDetected(b: Image, c: Image, at: nat)
    requires at < PAGE_SIZE
    requires forall k :: 0 <= k < PAGE_SIZE ==> (b[k] != c[k] <==> k == at)
    ensures !(ValidImage(b) && ValidImage(c))
  {
    if CHECKSUM_AT <= at < CHECKSUM_AT + 4 {
      FoldFrame(b, c, PAGE_SIZE);
      GetSeparates(b, c, CHECKSUM_AT, 4, at);
    } else {
      FoldSeparates(b, c, at, PAGE_SIZE);
      GetFrame(b, c, CHECKSUM_AT, 4);
    }
  }

  /** SlottedPage::update_checksum. */
  function Sealed(b: Image): Image {
    Splice(b, CHECKSUM_AT, LE(4, Checksum(b)))
  }

  /** Storing the checksum makes a well-formed page valid and changes nothing else. */
  lemma SealedValid(b: Image)
    requires Formed(b)
    ensures ValidImage(Sealed(b)) && PageId(Sealed(b)) == PageId(b)
    ensures RecordsOf(Sealed(b)) == RecordsOf(b)
    ensures FreeEnd(Sealed(b)) == FreeEnd(b)
  {
    var c := Sealed(b);
    Pow256Values();
    FoldFrame(b, c, PAGE_SIZE);
    GetSpliced(b, CHECKSUM_AT, 4, Checksum(b));
    IdentityFrame(b, c);
    GetFrame(b, c, COUNT_AT, 2);
    GetFrame(b, c, FREE_START_AT, 2);
    GetFrame(b, c, FREE_END_AT, 2);
    forall i | 0 <= i < SlotCount(b)
      ensures SlotAt(b, i) == SlotAt(c, i)
    {
      SlotFrame(b, c, i);
    }
    RecordsFrame(b, c);
  }

  /** Two well-formed pages with equal directories and equal payload bytes hold the same records. */
  lemma RecordsFrame(b: Image, c: Image)
    requires Formed(b) && Formed(c) && SlotCount(b) == SlotCount(c)
    requires forall i :: 0 <= i < SlotCount(b) ==> SlotAt(b, i) == SlotAt(c, i)
    requires forall k :: FreeEnd(b) <= k < PAGE_SIZE ==> b[k] == c[k]
    ensures RecordsOf(b) == RecordsOf(c)
  {
    forall i | 0 <= i < SlotCount(b)
      ensures RecordAt(b, i) == RecordAt(c, i)
    {
      var s := SlotAt(b, i);
      if s.flags != 0 {
        SliceFrame(b, c, s.offset, s.offset + s.length);
      }
    }
  }

  // ---------------------------------------------------------------- a new page

  function Blank(pageId: nat): Image {
    var b := Splice(Zeros(PAGE_SIZE), 0, LE(4, MAGIC));
    var c := Splice(b, VERSION_AT, LE(2, VERSION));
    var d := Splice(c, PAGE_ID_AT, LE(4, pageId));
    var e := Splice(d, COUNT_AT, LE(2, 0));
    var f := Splice(e, FREE_START_AT, LE(2, HEADER_SIZE));
    Splice(f, FREE_END_AT, LE(2, PAGE_SIZE))
  }

  lemma FieldIs(b: Image, offset: nat, width: nat, value: nat)
    requires offset + width <= PAGE_SIZE && value < Pow256(width)
    requires b[offset..offset + width] == LE(width, value)
    ensures Get(b, offset, width) == value
  {
    LERoundTrip(width, value);
  }

  lemma BlankFormed(pageId: nat)
    requires pageId < 0x1_0000_0000
    ensures Formed(Blank(pageId)) && PageId(Blank(pageId)) == pageId && RecordsOf(Blank(pageId)) == []
  {
    hide Get, LE, SlotAt, Pow256;
    Pow256Values();
    var b := Blank(pageId);
    assert LE(2, 0) == Zeros(2) by { LECanonical(Zeros(2)); }
    FieldIs(b, 0, 4, MAGIC);
    FieldIs(b, VERSION_AT, 2, VERSION);
    FieldIs(b, FLAGS_AT, 2, 0);
    FieldIs(b, PAGE_ID_AT, 4, pageId);
    FieldIs(b, COUNT_AT, 2, 0);
    FieldIs(b, FREE_START_AT, 2, HEADER_SIZE);
    FieldIs(b, FREE_END_AT, 2, PAGE_SIZE);
    FieldIs(b, RESERVED_AT, 2, 0);
  }

  // ---------------------------------------------------------------- insertion

  /** The page after writing `record` at the low end of the payload region, before sealing. */
  function Inserted(b: Image, record: seq<byte>): Image
    requires Formed(b)
    requires Need(RecordsOf(b), |record|) <= FreeEnd(b) - FreeStart(b)
  {
    var count, t, end := SlotCount(b), FirstFree(RecordsOf(b)), FreeEnd(b) - |record|;
    var c := Splice(b, end, record);
    var d := Splice(c, DirectoryEnd(t), SlotBytes(Slot(end, |record|, LIVE)));
    Recounted(d, count, end, t == count)
  }

  /** The header updates of an insertion; a new slot also moves the directory end. */
  function Recounted(d: Image, count: nat, end: nat, grows: bool): Image {
    var e := Splice(d, FREE_END_AT, LE(2, end));
    if !grows then e else
    Splice(Splice(e, COUNT_AT, LE(2, count + 1)), FREE_START_AT, LE(2, DirectoryEnd(count + 1)))
  }

  lemma RecountedHeader(b: Image, d: Image, end: nat, grows: bool)
    requires HeaderOk(b) && forall k :: 0 <= k < HEADER_SIZE ==> b[k] == d[k]
    requires FreeStart(b) + (if grows then SLOT_SIZE else 0) <= end <= PAGE_SIZE
    ensures var c := Recounted(d, SlotCount(b), end, grows);
      && HeaderOk(c) && PageId(c) == PageId(b)
      && SlotCount(c) == (if grows then SlotCount(b) + 1 else SlotCount(b))
      && FreeEnd(c) == end
  {
    hide Get, LE, Pow256;
    Pow256Values();
    var count := SlotCount(b);
    var e := Splice(d, FREE_END_AT, LE(2, end));
    var c := Recounted(d, count, end, grows);
    IdentityFrame(b, c);
    GetSpliced(d, FREE_END_AT, 2, end);
    GetFrame(e, c, FREE_END_AT, 2);
    if !grows {
      GetFrame(b, c, COUNT_AT, 2);
      GetFrame(b, c, FREE_START_AT, 2);
    } else {
      var f := Splice(e, COUNT_AT, LE(2, count + 1));
      GetSpliced(e, COUNT_AT, 2, count + 1);
      GetFrame(f, c, COUNT_AT, 2);
      GetSpliced(f, FREE_START_AT, 2, DirectoryEnd(count + 1));
    }
  }

  lemma InsertedHeader(b: Image, record: seq<byte>)
    requires Formed(b) && Need(RecordsOf(b), |record|) <= FreeEnd(b) - FreeStart(b)
    ensures var c, t, end := Inserted(b, record), FirstFree(RecordsOf(b)), FreeEnd(b) - |record|;
      && HeaderOk(c) && PageId(c) == PageId(b)
      && SlotCount(c) == (if t < SlotCount(b) then SlotCount(b) else SlotCount(b) + 1)
      && FreeEnd(c) == end
  {
    hide FirstFree, Get, SlotsOk, RecordsOf, Recounted, SlotBytes;
    var t, end := FirstFree(RecordsOf(b)), FreeEnd(b) - |record|;
    var d := Splice(Splice(b, end, record), DirectoryEnd(t), SlotBytes(Slot(end, |record|, LIVE)));
    RecountedHeader(b, d, end, t == SlotCount(b));
  }

  /** The page with payload and slot written differs from the old one in these two places only. */
  lemma WrittenBytes(b: Image, end: nat, record: seq<byte>, at: nat, slot: seq<byte>)
    requires at + |slot| <= end && end + |record| <= PAGE_SIZE
    ensures var d := Splice(Splice(b, end, record), at, slot);
      && d[end..end + |record|] == record
      && forall k :: 0 <= k < PAGE_SIZE && !(end <= k < end + |record|) && !(at <= k < at + |slot|) ==> d[k] == b[k]
  {
  }

  /** Behind the header, updating it changes nothing. */
  lemma RecountedBytes(d: Image, count: nat, end: nat, grows: bool)
    ensures forall k :: HEADER_SIZE <= k < PAGE_SIZE ==> Recounted(d, count, end, grows)[k] == d[k]
  {
    hide LE;
  }

  lemma InsertedSlots(b: Image, record: seq<byte>)
    requires Formed(b) && Need(RecordsOf(b), |record|) <= FreeEnd(b) - FreeStart(b)
    ensures var c, t, end := Inserted(b, record), FirstFree(RecordsOf(b)), FreeEnd(b) - |record|;
      && DirectoryEnd(t + 1) <= PAGE_SIZE
      && SlotAt(c, t) == Slot(end, |record|, LIVE)
      && c[end..end + |record|] == record
      && (forall i :: 0 <= i < SlotCount(b) && i != t ==> SlotAt(c, i) == SlotAt(b, i))
      && (forall k :: FreeEnd(b) <= k < PAGE_SIZE ==> c[k] == b[k])
  {
    hide FirstFree, Total, SlotAt, SlotBytes, Recounted, Splice, Get, SlotsOk, RecordsOf;
    var t, end := FirstFree(RecordsOf(b)), FreeEnd(b) - |record|;
    var slot := SlotBytes(Slot(end, |record|, LIVE));
    var c := Splice(b, end, record);
    var d := Splice(c, DirectoryEnd(t), slot);
    var r := Inserted(b, record);
    SlotSpliced(c, t, Slot(end, |record|, LIVE));
    WrittenBytes(b, end, record, DirectoryEnd(t), slot);
    RecountedBytes(d, SlotCount(b), end, t == SlotCount(b));
    SlotFrame(d, r, t);
    SliceFrame(d, r, end, end + |record|);
    forall i | 0 <= i < SlotCount(b) && i != t
      ensures SlotAt(r, i) == SlotAt(b, i)
    {
      SlotFrame(b, r, i);
    }
  }

  /** Insertion into enough contiguous space stores the record in the first free slot. */
  lemma InsertedContents(b: Image, record: seq<byte>)
    requires Formed(b) && record != []
    requires Need(RecordsOf(b), |record|) <= FreeEnd(b) - FreeStart(b)
    ensures var c := Inserted(b, record);
      && Formed(c) && PageId(c) == PageId(b)
      && RecordsOf(c) == WithRecord(RecordsOf(b), FirstFree(RecordsOf(b)), record)
  {
    hide FirstFree, Total, SlotAt, Inserted, Get;
    var c, t := Inserted(b, record), FirstFree(RecordsOf(b));
    InsertedHeader(b, record);
    InsertedSlots(b, record);
    forall i | 0 <= i < SlotCount(c)
      ensures RecordAt(c, i) == WithRecord(RecordsOf(b), t, record)[i]
    {
      var s := SlotAt(c, i);
      if i != t && s.flags != 0 {
        assert SlotOk(s, FreeEnd(b));
        SliceFrame(b, c, s.offset, s.offset + s.length);
      }
    }
  }

  // ---------------------------------------------------------------- erasure

  function Erased(b: Image, i: nat): Image
    requires Formed(b) && i < SlotCount(b)
  {
    Splice(b, DirectoryEnd(i), SlotBytes(TOMBSTONE))
  }

  lemma ErasedContents(b: Image, i: nat)
    requires Formed(b) && i < SlotCount(b)
    ensures var c := Erased(b, i);
      Formed(c) && PageId(c) == PageId(b) && RecordsOf(c) == RecordsOf(b)[i := None]
  {
    hide SlotAt, SlotBytes, Get;
    var c := Erased(b, i);
    IdentityFrame(b, c);
    GetFrame(b, c, COUNT_AT, 2);
    GetFrame(b, c, FREE_START_AT, 2);
    GetFrame(b, c, FREE_END_AT, 2);
    SlotSpliced(b, i, TOMBSTONE);
    forall j | 0 <= j < SlotCount(b) && j != i
      ensures SlotAt(c, j) == SlotAt(b, j)
    {
      SlotFrame(b, c, j);
    }
    forall j | 0 <= j < SlotCount(b)
      ensures RecordAt(c, j) == RecordsOf(b)[i := None][j]
    {
      var s := SlotAt(c, j);
      if j != i && s.flags != 0 {
        SliceFrame(b, c, s.offset, s.offset + s.length);
      }
    }
  }

  // ---------------------------------------------------------------- rebuilding

  /** Where rebuilding puts the record of slot i: records are packed downwards from the page end. */
  function PackedSlot(rs: Records, i: nat): Slot
    requires i < |rs| && Total(rs[..i + 1]) <= PAGE_SIZE
  {
    if rs[i] == None then TOMBSTONE
    else Slot(PAGE_SIZE - Total(rs[..i + 1]), |rs[i].value|, LIVE)
  }

  /** Slot i is where rebuilding puts it, and so is its payload. */
  predicate PackedHere(c: Image, rs: Records, i: nat)
    requires i < |rs|
  {
    && Total(rs[..i + 1]) <= PAGE_SIZE - DirectoryEnd(|rs|)
    && SlotAt(c, i) == PackedSlot(rs, i)
    && (rs[i].Some? ==>
          Total(rs[..i + 1]) == Total(rs[..i]) + |rs[i].value| &&
          c[PAGE_SIZE - Total(rs[..i + 1])..PAGE_SIZE - Total(rs[..i])] == rs[i].value)
  }

  function PackStep(c: Image, rs: Records, i: nat): Image
    requires i < |rs| && Total(rs[..i + 1]) <= PAGE_SIZE - DirectoryEnd(|rs|)
    requires Size(rs[i]) <= Total(rs[..i + 1])
  {
    var end := PAGE_SIZE - Total(rs[..i + 1]);
    var d := if rs[i] == None then c else Splice(c, end, rs[i].value);
    Splice(d, DirectoryEnd(i), SlotBytes(PackedSlot(rs, i)))
  }

  lemma PackBounds(rs: Records, i: nat)
    requires i < |rs| && Reclaimable(rs) >= 0
    ensures Total(rs[..i + 1]) == Total(rs[..i]) + Size(rs[i]) <= PAGE_SIZE - DirectoryEnd(|rs|)
  {
    assert rs[..|rs|] == rs;
    TotalStep(rs, i);
    TotalMonotone(rs, i + 1, |rs|);
  }

  lemma PackStepKeeps(c: Image, rs: Records, i: nat, j: nat)
    requires j <= i < |rs| && Reclaimable(rs) >= 0
    requires Total(rs[..i + 1]) == Total(rs[..i]) + Size(rs[i]) <= PAGE_SIZE - DirectoryEnd(|rs|)
    requires j < i ==> PackedHere(c, rs, j)
    ensures PackedHere(PackStep(c, rs, i), rs, j)
    ensures forall k :: 0 <= k < HEADER_SIZE ==> PackStep(c, rs, i)[k] == c[k]
  {
    hide SlotAt, SlotBytes, Total;
    var d, r, s := if rs[i] == None then c else Splice(c, PAGE_SIZE - Total(rs[..i + 1]), rs[i].value),
        PackStep(c, rs, i), PackedSlot(rs, i);
    if j == i {
      SlotSpliced(d, i, s);
      if rs[i].Some? {
        assert r[s.offset..s.offset + s.length] == rs[i].value;
      }
    } else {
      TotalMonotone(rs, j + 1, i);
      SlotFrame(c, r, j);
      if rs[j].Some? {
        var lo, hi := PAGE_SIZE - Total(rs[..j + 1]), PAGE_SIZE - Total(rs[..j]);
        SliceFrame(c, r, lo, hi);
      }
    }
  }

  predicate NonemptyRecords(rs: Records) {
    forall i :: 0 <= i < |rs| && rs[i].Some? ==> rs[i].value != []
  }

  /** A page whose slots are all packed is well formed and holds exactly those records. */
  lemma PackedContents(c: Image, rs: Records)
    requires HeaderOk(c) && SlotCount(c) == |rs| && NonemptyRecords(rs)
    requires FreeEnd(c) == PAGE_SIZE - Total(rs)
    requires forall i :: 0 <= i < |rs| ==> PackedHere(c, rs, i)
    ensures Formed(c) && RecordsOf(c) == rs
  {
    hide SlotAt, Get, Total;
    assert rs[..|rs|] == rs;
    forall i | 0 <= i < |rs|
      ensures SlotOk(SlotAt(c, i), FreeEnd(c))
    {
      assert PackedHere(c, rs, i);
      TotalMonotone(rs, i + 1, |rs|);
    }
    forall i, j | 0 <= i < j < |rs|
      ensures Apart(SlotAt(c, i), SlotAt(c, j))
    {
      assert PackedHere(c, rs, i) && PackedHere(c, rs, j);
      TotalMonotone(rs, i + 1, j);
    }
    forall i | 0 <= i < |rs|
      ensures RecordAt(c, i) == rs[i]
    {
      assert PackedHere(c, rs, i);
    }
  }

  /** The free-space bounds that complete a rebuilt page. */
  function Bounded(c: Image, slots: nat, freeEnd: nat): Image {
    Splice(Splice(c, FREE_START_AT, LE(2, DirectoryEnd(slots))), FREE_END_AT, LE(2, freeEnd))
  }

  lemma BoundedContents(b: Image, c: Image, rs: Records)
    requires Formed(b) && SlotCount(b) == |rs| && NonemptyRecords(rs) && Reclaimable(rs) >= 0
    requires forall k :: 0 <= k < HEADER_SIZE ==> c[k] == b[k]
    requires forall i :: 0 <= i < |rs| ==> PackedHere(c, rs, i)
    ensures var d := Bounded(c, |rs|, PAGE_SIZE - Total(rs));
      && Formed(d) && PageId(d) == PageId(b) && RecordsOf(d) == rs
      && FreeEnd(d) == PAGE_SIZE - Total(rs)
  {
    hide Get, SlotAt, LE, Pow256, Total, Formed;
    Pow256Values();
    var free := PAGE_SIZE - Total(rs);
    var m := Splice(c, FREE_START_AT, LE(2, DirectoryEnd(|rs|)));
    var d := Bounded(c, |rs|, free);
    assert HeaderOk(b) by { FormedHeader(b); }
    IdentityFrame(b, d);
    GetFrame(b, d, COUNT_AT, 2);
    GetSpliced(c, FREE_START_AT, 2, DirectoryEnd(|rs|));
    GetFrame(m, d, FREE_START_AT, 2);
    GetSpliced(m, FREE_END_AT, 2, free);
    forall i | 0 <= i < |rs|
      ensures PackedHere(d, rs, i)
    {
      assert PackedHere(c, rs, i);
      SlotFrame(c, d, i);
      if rs[i].Some? {
        var lo, hi := PAGE_SIZE - Total(rs[..i + 1]), PAGE_SIZE - Total(rs[..i]);
        SliceFrame(c, d, lo, hi);
      }
    }
    PackedContents(d, rs);
  }

  lemma FormedHeader(b: Image)
    requires Formed(b)
    ensures HeaderOk(b) && NonemptyRecords(RecordsOf(b))
  {
    forall i | 0 <= i < SlotCount(b)
      ensures RecordAt(b, i).Some? ==> RecordAt(b, i).value != []
    {
      assert SlotOk(SlotAt(b, i), FreeEnd(b));
    }
  }
}
