/** The records of a whole file as a map, and the orders in which they are visited. */
module Stores {
  import opened Wrappers
  import opened Bytes
  import opened PageFormat

  datatype RecordId = RecordId(page: nat, slot: nat)

  datatype Record = Record(id: RecordId, bytes: seq<byte>)

  type Store = map<RecordId, seq<byte>>

  predicate IdLess(a: RecordId, b: RecordId) {
    a.page < b.page || (a.page == b.page && a.slot < b.slot)
  }

  predicate Live(ss: seq<Records>, id: RecordId) {
    id.page < |ss| && id.slot < |ss[id.page]| && ss[id.page][id.slot].Some?
  }

  function LiveIds(ss: seq<Records>): (ids: set<RecordId>)
    ensures forall id :: id in ids <==> Live(ss, id)
  {
    set p, s | 0 <= p < |ss| && 0 <= s < |ss[p]| && Live(ss, RecordId(p, s)) :: RecordId(p, s)
  }

  /** The slots of all pages, seen as one map from record id to bytes. */
  function StoreOf(ss: seq<Records>): (m: Store)
    ensures forall id :: id in m <==> Live(ss, id)
    ensures forall id :: id in m ==> Live(ss, id) && m[id] == ss[id.page][id.slot].value
  {
    map id | id in LiveIds(ss) :: ss[id.page][id.slot].value
  }

  lemma StoreWrite(ss: seq<Records>, p: nat, s: nat, record: seq<byte>)
    requires p < |ss| && s <= |ss[p]|
    ensures StoreOf(ss[p := WithRecord(ss[p], s, record)]) == StoreOf(ss)[RecordId(p, s) := record]
  {
    hide StoreOf, LiveIds;
  }

  lemma StoreErase(ss: seq<Records>, p: nat, s: nat)
    requires p < |ss| && s < |ss[p]|
    ensures StoreOf(ss[p := ss[p][s := None]]) == StoreOf(ss) - {RecordId(p, s)}
  {
    hide StoreOf, LiveIds;
  }

  lemma StoreGrow(ss: seq<Records>)
    ensures StoreOf(ss + [[]]) == StoreOf(ss)
  {
    hide StoreOf, LiveIds;
  }

  /** A new page holding one record. */
  lemma StoreNewPage(ss: seq<Records>, record: seq<byte>)
    ensures (ss + [[]])[|ss| := WithRecord([], 0, record)] == ss + [[Some(record)]]
    ensures RecordId(|ss|, 0) !in StoreOf(ss)
    ensures StoreOf(ss + [[Some(record)]]) == StoreOf(ss)[RecordId(|ss|, 0) := record]
  {
    assert WithRecord([], 0, record) == [Some(record)];
    StoreGrow(ss);
    StoreWrite(ss + [[]], |ss|, 0, record);
  }

  // ---------------------------------------------------------------- visiting order

  predicate Ascending(rs: seq<Record>) {
    forall i, j :: 0 <= i < j < |rs| ==> IdLess(rs[i].id, rs[j].id)
  }

  /** The records of m, each exactly once, by page and then slot. */
  predicate IsListing(m: Store, rs: seq<Record>) {
    && Ascending(rs)
    && (forall i :: 0 <= i < |rs| ==> rs[i].id in m && m[rs[i].id] == rs[i].bytes)
    && (forall id :: id in m ==> Record(id, m[id]) in rs)
  }

  lemma ListingHead(m: Store, a: seq<Record>, b: seq<Record>)
    requires IsListing(m, a) && IsListing(m, b) && a != []
    ensures b != [] && a[0] == b[0]
  {
    assert a[0].id in m;
    assert Record(a[0].id, m[a[0].id]) in b;
    assert Record(b[0].id, m[b[0].id]) in a;
  }

  lemma ListingTail(m: Store, a: seq<Record>)
    requires IsListing(m, a) && a != []
    ensures IsListing(m - {a[0].id}, a[1..])
  {
    var rest := m - {a[0].id};
    forall id | id in rest
      ensures Record(id, rest[id]) in a[1..]
    {
      assert Record(id, m[id]) in a;
    }
  }

  /** A store has one listing only. */
  lemma {:induction false} ListingUnique(m: Store, a: seq<Record>, b: seq<Record>)
    requires IsListing(m, a) && IsListing(m, b)
    ensures a == b
    decreases |a|
  {
    hide IsListing;
    if |a| > 0 {
      ListingHead(m, a, b);
      ListingTail(m, a);
      ListingTail(m, b);
      ListingUnique(m - {a[0].id}, a[1..], b[1..]);
      assert a == [a[0]] + a[1..] && b == [b[0]] + b[1..];
    } else if |b| > 0 {
      ListingHead(m, b, a);
    }
  }

  /** What a cursor standing at slot `slot` of page `page` has still to deliver. */
  function Rest(ss: seq<Records>, page: nat, slot: nat, end: nat): seq<Record>
    requires end <= |ss|
    decreases end - page, if page < end then |ss[page]| - slot else 0
  {
    if page >= end then []
    else if slot >= |ss[page]| then Rest(ss, page + 1, 0, end)
    else if ss[page][slot] == None then Rest(ss, page, slot + 1, end)
    else [Record(RecordId(page, slot), ss[page][slot].value)] + Rest(ss, page, slot + 1, end)
  }

  /** Record r is live, before page `end`, and not before the cursor. */
  predicate Due(ss: seq<Records>, r: Record, page: nat, slot: nat, end: nat) {
    && Live(ss, r.id) && ss[r.id.page][r.id.slot].value == r.bytes
    && r.id.page < end && !IdLess(r.id, RecordId(page, slot))
  }

  lemma {:induction false} RestSound(ss: seq<Records>, page: nat, slot: nat, end: nat)
    requires end <= |ss|
    ensures Ascending(Rest(ss, page, slot, end))
    ensures forall r :: r in Rest(ss, page, slot, end) <==> Due(ss, r, page, slot, end)
    decreases end - page, if page < end then |ss[page]| - slot else 0
  {
    hide Due, Live, Ascending;
    if page < end {
      if slot >= |ss[page]| {
        RestSound(ss, page + 1, 0, end);
        DueNextPage(ss, page, slot, end);
      } else {
        RestSound(ss, page, slot + 1, end);
        DueNextSlot(ss, page, slot, end);
        if ss[page][slot].Some? {
          AscendingCons(Record(RecordId(page, slot), ss[page][slot].value), Rest(ss, page, slot + 1, end));
        }
      }
    } else {
      NothingDue(ss, page, slot, end);
    }
  }

  lemma NothingDue(ss: seq<Records>, page: nat, slot: nat, end: nat)
    requires page >= end
    ensures Ascending([]) && forall r :: !Due(ss, r, page, slot, end)
  {
  }

  lemma DueNextPage(ss: seq<Records>, page: nat, slot: nat, end: nat)
    requires page < end <= |ss| && slot >= |ss[page]|
    ensures forall r :: Due(ss, r, page, slot, end) <==> Due(ss, r, page + 1, 0, end)
  {
  }

  lemma DueNextSlot(ss: seq<Records>, page: nat, slot: nat, end: nat)
    requires page < end <= |ss| && slot < |ss[page]|
    ensures forall r :: Due(ss, r, page, slot, end) <==>
      || Due(ss, r, page, slot + 1, end)
      || (ss[page][slot].Some? && r == Record(RecordId(page, slot), ss[page][slot].value))
    ensures forall r :: Due(ss, r, page, slot + 1, end) ==> IdLess(RecordId(page, slot), r.id)
  {
  }

  lemma AscendingCons(first: Record, tail: seq<Record>)
    requires Ascending(tail) && forall r :: r in tail ==> IdLess(first.id, r.id)
    ensures Ascending([first] + tail)
  {
    assert forall i :: 0 <= i < |tail| ==> tail[i] in tail;
  }

  /** A full cursor run delivers the listing of the store. */
  lemma RestIsListing(ss: seq<Records>)
    ensures IsListing(StoreOf(ss), Rest(ss, 0, 0, |ss|))
  {
    hide Rest;
    RestSound(ss, 0, 0, |ss|);
    var rs := Rest(ss, 0, 0, |ss|);
    forall i | 0 <= i < |rs|
      ensures rs[i].id in StoreOf(ss) && StoreOf(ss)[rs[i].id] == rs[i].bytes
    {
      assert rs[i] in rs;
    }
  }

  // ---------------------------------------------------------------- placement

  /** The page probed `offset` steps after `start`, wrapping at the end of the file. */
  function Probe(start: nat, offset: nat, count: nat): (p: nat)
    requires start < count && offset < count
    ensures p < count
  {
    if start + offset < count then start + offset else start + offset - count
  }

  /** The first probe from `offset` on whose page can take n bytes, or the page count. */
  function FirstFit(ss: seq<Records>, start: nat, n: nat, offset: nat): (o: nat)
    requires ss == [] || start < |ss|
    requires offset <= |ss|
    ensures offset <= o <= |ss|
    ensures o < |ss| ==> Fits(ss[Probe(start, o, |ss|)], n)
    ensures forall k :: offset <= k < o ==> !Fits(ss[Probe(start, k, |ss|)], n)
    decreases |ss| - offset
  {
    if offset == |ss| || Fits(ss[Probe(start, offset, |ss|)], n) then offset
    else FirstFit(ss, start, n, offset + 1)
  }

  /** The page an insertion goes to: the first fitting one in probe order, else a new page. */
  function TargetPage(ss: seq<Records>, hint: nat, n: nat): (p: nat)
    ensures p <= |ss|
    ensures p < |ss| ==> Fits(ss[p], n)
  {
    var start := if hint < |ss| then hint else 0;
    var o := FirstFit(ss, start, n, 0);
    if o < |ss| then Probe(start, o, |ss|) else |ss|
  }

  /** The id that a record of n bytes gets: the first free slot of the target page. */
  function PlaceFor(ss: seq<Records>, hint: nat, n: nat): (id: RecordId)
    ensures id.page == TargetPage(ss, hint, n)
    ensures id.page < |ss| ==> id.slot == FirstFree(ss[id.page]) <= |ss[id.page]|
    ensures id.page == |ss| ==> id.slot == 0
    ensures id !in StoreOf(ss)
  {
    var p := TargetPage(ss, hint, n);
    RecordId(p, if p < |ss| then FirstFree(ss[p]) else 0)
  }

  /** The slots with a record put at the given place, on a page of its own if there is none of that number. */
  function WithPlaced(ss: seq<Records>, id: RecordId, record: seq<byte>): seq<Records>
    requires id.page < |ss| ==> id.slot <= |ss[id.page]|
  {
    if id.page < |ss| then ss[id.page := WithRecord(ss[id.page], id.slot, record)] else ss + [[Some(record)]]
  }

  /** Placing a record adds it to the store under its id, and nothing else changes. */
  lemma PlacedRecord(ss: seq<Records>, hint: nat, record: seq<byte>)
    ensures var id := PlaceFor(ss, hint, |record|);
      && StoreOf(WithPlaced(ss, id, record)) == StoreOf(ss)[id := record]
      && |WithPlaced(ss, id, record)| == if id.page < |ss| then |ss| else |ss| + 1
  {
    hide StoreOf, FirstFree, TargetPage, WithRecord;
    var id := PlaceFor(ss, hint, |record|);
    if id.page < |ss| {
      StoreWrite(ss, id.page, id.slot, record);
    } else {
      StoreNewPage(ss, record);
    }
  }

  /** A new page is used only when no existing page could hold the record. */
  lemma NewPageOnlyIfNoneFits(ss: seq<Records>, hint: nat, n: nat)
    ensures TargetPage(ss, hint, n) == |ss| <==> forall p :: 0 <= p < |ss| ==> !Fits(ss[p], n)
  {
    hide Fits;
    var start := if hint < |ss| then hint else 0;
    var o := FirstFit(ss, start, n, 0);
    if o == |ss| {
      forall p | 0 <= p < |ss|
        ensures !Fits(ss[p], n)
      {
        var k := if p >= start then p - start else p + |ss| - start;
        assert Probe(start, k, |ss|) == p;
      }
    }
  }

  /** Probing starts at the hint if there is such a page, goes to the end of the file, and then on from its beginning. */
  lemma ProbesFromHint(ss: seq<Records>, hint: nat, n: nat)
    ensures var p, h := TargetPage(ss, hint, n), if hint < |ss| then hint else 0;
      && (p < |ss| ==> Fits(ss[p], n))
      && (h <= p ==> forall q :: h <= q < p && q < |ss| ==> !Fits(ss[q], n))
      && (p < h || p == |ss| ==> forall q :: 0 <= q < |ss| && (h <= q || q < p) ==> !Fits(ss[q], n))
      && (h < |ss| && Fits(ss[h], n) ==> p == h)
  {
    hide Fits;
    var p, h := TargetPage(ss, hint, n), if hint < |ss| then hint else 0;
    var o := FirstFit(ss, h, n, 0);
    forall q | 0 <= q < |ss| && (if h <= p < |ss| then h <= q < p else h <= q || q < p)
      ensures !Fits(ss[q], n)
    {
      var k := if q >= h then q - h else q + |ss| - h;
      assert Probe(h, k, |ss|) == q && k < o;
    }
    if h < |ss| && Fits(ss[h], n) {
      assert Probe(h, 0, |ss|) == h;
    }
  }
}
