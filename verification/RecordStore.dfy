/** Records with stable ids over the buffer pool. */
module RecordStores {
  import opened Wrappers
  import opened Bytes
  import opened PageFormat
  import opened SlottedPages
  import opened HeapFiles
  import opened BufferPools
  import opened PageGuards
  import opened Stores

  const MAX_RECORD_BYTES := PAGE_SIZE - HEADER_SIZE - SLOT_SIZE

  class RecordStore {
    const pool: BufferPool
    var hint: nat

    ghost predicate Ready()
      reads this, pool, pool.heap
    {
      Usable(pool)
    }

    ghost function Slots(): (ss: seq<Records>)
      requires pool.Valid()
      reads this, pool, pool.heap
      ensures |ss| == |pool.heap.pages|
    {
      PoolSlots(pool)
    }

    /** The store as its users see it. */
    ghost function Contents(): Store
      requires pool.Valid()
      reads this, pool, pool.heap
    {
      StoreOf(Slots())
    }

    /** The store of whatever records the pages hold. */
    constructor (pool: BufferPool)
      requires pool.Valid()
      ensures this.pool == pool && Slots() == PoolSlots(pool) && Contents() == StoreOf(PoolSlots(pool))
      ensures HasUnpinned(pool.frames) ==> Ready()
      ensures hint == if |pool.heap.pages| != 0 then |pool.heap.pages| - 1 else 0
    {
      this.pool := pool;
      hint := if |pool.heap.pages| != 0 then |pool.heap.pages| - 1 else 0;
    }

    method TryInsert(pageId: nat, bytes: seq<byte>) returns (r: Result<nat>)
      requires Ready() && pageId < |Slots()| && bytes != []
      modifies pool, pool.heap
      ensures Ready() && Kept(old(pool.frames), pool.frames)
      ensures r.Ok? <==> Fits(old(Slots())[pageId], |bytes|)
      ensures r.Ok? ==> && r.value == FirstFree(old(Slots())[pageId])
                        && Slots() == old(Slots())[pageId := WithRecord(old(Slots())[pageId], r.value, bytes)]
      ensures r.Err? ==> Slots() == old(Slots())
    {
      hide ValidImage, RecordsOf, TableOk, Fits, FirstFree, WithRecord, Kept, Guarded, HoldsPage, SlotsOf;
      ghost var was := pool.frames;
      var i, page := FetchForWrite(pool, pageId);
      r := page.Insert(bytes);
      Release(pool, i, page, was);
    }

    method InsertOnNewPage(bytes: seq<byte>) returns (id: RecordId)
      requires Ready() && |Slots()| < MAX_PAGES && 0 < |bytes| <= MAX_RECORD_BYTES
      modifies pool, pool.heap
      ensures Ready() && Kept(old(pool.frames), pool.frames)
      ensures id == RecordId(|old(Slots())|, 0)
      ensures Slots() == old(Slots()) + [[Some(bytes)]]
    {
      hide ValidImage, RecordsOf, TableOk, Kept, Guarded, HoldsPage, PageId, FirstFree, Fits, SlotsOf;
      ghost var was, ss := pool.frames, Slots();
      var i, page := AllocateForWrite(pool);
      EmptyPageFits(|bytes|);
      var slot := page.Insert(bytes);
      StoreNewPage(ss, bytes);
      var pageId := page.PageNumber();
      Release(pool, i, page, was);
      id := RecordId(pageId, slot.value);
    }

    /**
     Stores a record under an id that was not in use. It goes to the first free slot of the first page
     with room, probing from the hint with wrap-around, and to a new page only if there is no such page.
     */
    method Insert(bytes: seq<byte>) returns (r: Result<RecordId>)
      requires Ready() && |Slots()| < MAX_PAGES
      modifies this, pool, pool.heap
      ensures Ready() && Kept(old(pool.frames), pool.frames)
      ensures r.Ok? <==> 0 < |bytes| <= MAX_RECORD_BYTES
      ensures r.Ok? ==> && r.value == PlaceFor(old(Slots()), old(hint), |bytes|) && hint == r.value.page
                        && Slots() == WithPlaced(old(Slots()), r.value, bytes)
                        && r.value !in old(Contents()) && Contents() == old(Contents())[r.value := bytes]
                        && |Slots()| == if hint < |old(Slots())| then |old(Slots())| else |old(Slots())| + 1
      ensures r.Ok? ==>
        var ss, p, n := old(Slots()), r.value.page, |bytes|;
        var h := if old(hint) < |ss| then old(hint) else 0;
        && (p < |ss| ==> Fits(ss[p], n))
        && (h <= p ==> forall q :: h <= q < p && q < |ss| ==> !Fits(ss[q], n))
        && (p < h || p == |ss| ==> forall q :: 0 <= q < |ss| && (h <= q || q < p) ==> !Fits(ss[q], n))
        && (h < |ss| && Fits(ss[h], n) ==> p == h)
      ensures r.Err? ==> && Slots() == old(Slots()) && Contents() == old(Contents()) && hint == old(hint)
                         && r.error == if bytes == [] then InvalidArgument else PageFull
    {
      hide ValidImage, RecordsOf, TableOk, Fits, FirstFree, Kept, StoreOf, PoolSlots, TargetPage, HasUnpinned,
           PlaceFor, WithPlaced;
      if bytes == [] {
        PinnedHasPage(pool);
        return Err(InvalidArgument);
      }
      if |bytes| > MAX_RECORD_BYTES {
        PinnedHasPage(pool);
        return Err(PageFull);
      }
      PlacedRecord(Slots(), hint, bytes);
      ProbesFromHint(Slots(), hint, |bytes|);
      var id := Place(bytes);
      r := Ok(id);
    }

    /** Puts a record on the page that takes it. */
    method Place(bytes: seq<byte>) returns (id: RecordId)
      requires Ready() && |Slots()| < MAX_PAGES && 0 < |bytes| <= MAX_RECORD_BYTES
      modifies this, pool, pool.heap
      ensures Ready() && Kept(old(pool.frames), pool.frames)
      ensures id == PlaceFor(old(Slots()), old(hint), |bytes|) && hint == id.page
      ensures Slots() == WithPlaced(old(Slots()), id, bytes)
    {
      hide ValidImage, RecordsOf, TableOk, Fits, FirstFree, Kept, StoreOf, PoolSlots, TargetPage, HasUnpinned,
           WithRecord;
      ghost var was := pool.frames;
      var found := PlaceOnExistingPage(bytes);
      if found.Some? {
        return found.value;
      }
      ghost var before := pool.frames;
      id := InsertOnNewPage(bytes);
      KeptTrans(was, before, pool.frames);
      hint := id.page;
    }

    /** The probing loop of an insertion. */
    method PlaceOnExistingPage(bytes: seq<byte>) returns (r: Option<RecordId>)
      requires Ready() && 0 < |bytes| <= MAX_RECORD_BYTES
      modifies this, pool, pool.heap
      ensures Ready() && Kept(old(pool.frames), pool.frames)
      ensures r == None <==> TargetPage(old(Slots()), old(hint), |bytes|) == |old(Slots())|
      ensures r == None ==> Slots() == old(Slots()) && hint == old(hint)
      ensures r.Some? ==> && r.value == PlaceFor(old(Slots()), old(hint), |bytes|) && hint == r.value.page
                          && Slots() == WithPlaced(old(Slots()), r.value, bytes)
    {
      hide ValidImage, RecordsOf, TableOk, Fits, Kept, StoreOf, SlotsOf, FirstFit, FirstFree, HasUnpinned, WithRecord;
      ghost var ss, was := Slots(), pool.frames;
      var count := |pool.heap.pages|;
      var start := if hint < count then hint else 0;
      PinnedHasPage(pool);
      for offset := 0 to count
        invariant Ready() && Slots() == ss && Kept(was, pool.frames) && hint == old(hint)
        invariant FirstFit(ss, start, |bytes|, 0) == FirstFit(ss, start, |bytes|, offset)
      {
        ProbeIsModulo(start, offset, count);
        FirstFitStep(ss, start, |bytes|, offset);
        var pageId := (start + offset) % count;
        ghost var before := pool.frames;
        var slot := TryInsert(pageId, bytes);
        KeptTrans(was, before, pool.frames);
        if slot.Ok? {
          hint := pageId;
          return Some(RecordId(pageId, slot.value));
        }
      }
      r := None;
    }

    method Read(id: RecordId) returns (r: Result<seq<byte>>)
      requires Ready()
      modifies pool, pool.heap
      ensures Ready() && Kept(old(pool.frames), pool.frames)
      ensures Slots() == old(Slots()) && Contents() == old(Contents())
      ensures r == if id in Contents() then Ok(Contents()[id]) else Err(OutOfRange)
    {
      hide ValidImage, RecordsOf, TableOk, Kept, Guarded, HoldsPage, SlotsOf, HasUnpinned;
      ghost var was := pool.frames;
      if id.page >= |pool.heap.pages| {
        FetchMissing(pool, id.page);
        return Err(OutOfRange);
      }
      var i, page := FetchForRead(pool, id.page);
      r := page.Read(id.slot);
      Drop(pool, i, id.page, was);
    }

    /** Gives a live record new bytes under the same id; fails, changing nothing, if they do not fit. */
    method Replace(id: RecordId, bytes: seq<byte>) returns (r: Result<()>)
      requires Ready()
      modifies pool, pool.heap
      ensures Ready() && Kept(old(pool.frames), pool.frames) && |Slots()| == |old(Slots())|
      ensures r.Ok? <==> && id in old(Contents()) && 0 < |bytes| <= MAX_RECORD
                         && Reclaimable(old(Slots())[id.page][id.slot := Some(bytes)]) >= 0
      ensures r.Ok? ==> Contents() == old(Contents())[id := bytes]
      ensures r.Err? ==> Slots() == old(Slots()) && Contents() == old(Contents())
      ensures id in old(Contents()) && 0 < |bytes| == |old(Contents())[id]| ==> r.Ok?
    {
      hide StoreOf, Kept, HasUnpinned, PoolSlots, TableOk, Reclaimable;
      ghost var ss := Slots();
      PinnedHasPage(pool);
      if id.page >= |pool.heap.pages| {
        return Err(OutOfRange);
      }
      r := ReplaceSlot(id, bytes);
      if r.Ok? {
        StoreWrite(ss, id.page, id.slot, bytes);
      }
    }

    method ReplaceSlot(id: RecordId, bytes: seq<byte>) returns (r: Result<()>)
      requires Ready() && id.page < |Slots()|
      modifies pool, pool.heap
      ensures Ready() && Kept(old(pool.frames), pool.frames)
      ensures var rs := old(Slots())[id.page];
        && (r.Ok? <==> && id.slot < |rs| && rs[id.slot].Some? && 0 < |bytes| <= MAX_RECORD
                       && Reclaimable(rs[id.slot := Some(bytes)]) >= 0)
        && (id.slot < |rs| && rs[id.slot].Some? && 0 < |bytes| == |rs[id.slot].value| ==> r.Ok?)
      ensures Slots() == if r.Ok? then old(Slots())[id.page := old(Slots())[id.page][id.slot := Some(bytes)]]
                         else old(Slots())
    {
      hide ValidImage, RecordsOf, TableOk, Kept, Guarded, HoldsPage, Reclaimable, SlotsOf, HasUnpinned, PageId;
      ghost var was, rs := pool.frames, Slots()[id.page];
      var i, page := FetchForWrite(pool, id.page);
      if id.slot < |rs| && rs[id.slot].Some? && 0 < |bytes| == |rs[id.slot].value| {
        SameSizeOnPage(page.bytes[..], id.slot, bytes);
      }
      r := page.Replace(id.slot, bytes);
      Release(pool, i, page, was);
    }

    method Erase(id: RecordId) returns (erased: bool)
      requires Ready()
      modifies pool, pool.heap
      ensures Ready() && Kept(old(pool.frames), pool.frames) && |Slots()| == |old(Slots())|
      ensures erased <==> id in old(Contents())
      ensures Contents() == old(Contents()) - {id}
      ensures !erased ==> Slots() == old(Slots())
    {
      hide StoreOf, Kept, HasUnpinned, PoolSlots, TableOk;
      ghost var ss := Slots();
      PinnedHasPage(pool);
      if id.page >= |pool.heap.pages| {
        return false;
      }
      erased := EraseSlot(id);
      if erased {
        StoreErase(ss, id.page, id.slot);
      }
    }

    method EraseSlot(id: RecordId) returns (erased: bool)
      requires Ready() && id.page < |Slots()|
      modifies pool, pool.heap
      ensures Ready() && Kept(old(pool.frames), pool.frames)
      ensures erased <==> Live(old(Slots()), id)
      ensures Slots() == if erased then old(Slots())[id.page := old(Slots())[id.page][id.slot := None]]
                         else old(Slots())
    {
      hide ValidImage, RecordsOf, TableOk, Kept, Guarded, HoldsPage, SlotsOf, HasUnpinned, PageId;
      ghost var was := pool.frames;
      var i, page := FetchForRead(pool, id.page);
      var live := page.Contains(id.slot);
      if !live {
        Drop(pool, i, id.page, was);
        return false;
      }
      page := Upgrade(pool, i, id.page, was);
      erased := page.Erase(id.slot);
      Release(pool, i, page, was);
    }

    /** All live records, each once, by page and then slot. */
    method Scan() returns (records: seq<Record>)
      requires Ready()
      modifies pool, pool.heap
      ensures Ready() && Kept(old(pool.frames), pool.frames)
      ensures Slots() == old(Slots()) && Contents() == old(Contents())
      ensures IsListing(Contents(), records)
    {
      hide Kept, Rest, IsListing, TableOk, SlotsOf, StoreOf;
      ghost var ss, was := Slots(), pool.frames;
      var reader := new RecordCursor(pool);
      records := [];
      RestIsListing(ss);
      PinnedHasPage(pool);
      while true
        invariant Ready() && Slots() == ss && Kept(was, pool.frames)
        invariant reader.pool == pool && reader.endPage == |ss|
        invariant records + reader.Remaining(ss) == Rest(ss, 0, 0, |ss|)
        decreases |reader.Remaining(ss)|
      {
        ghost var before := pool.frames;
        ghost var rest := reader.Remaining(ss);
        var record := reader.Next();
        KeptTrans(was, before, pool.frames);
        if record == None {
          assert records == Rest(ss, 0, 0, |ss|);
          return;
        }
        records := records + [record.value];
      }
    }
  }

  class RecordCursor {
    const pool: BufferPool
    const endPage: nat
    var nextPage: nat
    var nextSlot: nat

    /** What is left to deliver, if the slots stay as they are. */
    ghost function Remaining(ss: seq<Records>): seq<Record>
      requires endPage <= |ss|
      reads this
    {
      Rest(ss, nextPage, nextSlot, endPage)
    }

    /** What is left to deliver from the pool as it is. */
    ghost function Left(): seq<Record>
      requires Usable(pool) && endPage <= |pool.heap.pages|
      reads this, pool, pool.heap
    {
      Remaining(PoolSlots(pool))
    }

    constructor (pool: BufferPool)
      ensures this.pool == pool && endPage == |pool.heap.pages| && nextPage == 0 && nextSlot == 0
    {
      this.pool := pool;
      endPage := |pool.heap.pages|;
      nextPage, nextSlot := 0, 0;
    }

    /** Delivers the next live record; no page stays pinned between calls. */
    method Next() returns (r: Option<Record>)
      requires Usable(pool) && endPage <= |pool.heap.pages|
      modifies this, pool, pool.heap
      ensures Usable(pool) && Kept(old(pool.frames), pool.frames)
      ensures PoolSlots(pool) == old(PoolSlots(pool)) && endPage <= |pool.heap.pages|
      ensures old(Left()) == if r == None then [] else [r.value] + Left()
      ensures r == None ==> Left() == []
    {
      hide TableOk, Kept, HasUnpinned, PoolSlots, Rest;
      ghost var ss, was := PoolSlots(pool), pool.frames;
      ghost var rest := Remaining(ss);
      PinnedHasPage(pool);
      while nextPage < endPage
        invariant Usable(pool) && PoolSlots(pool) == ss && Kept(was, pool.frames)
        invariant Remaining(ss) == rest
      {
        ghost var before := pool.frames;
        r := NextOnCurrentPage(ss);
        KeptTrans(was, before, pool.frames);
        if r.Some? {
          return;
        }
        RestNextPage(ss, nextPage, nextSlot, endPage);
        nextPage, nextSlot := nextPage + 1, 0;
      }
      RestEnds(ss, nextPage, nextSlot, endPage);
      r := None;
    }

    method NextOnCurrentPage(ghost ss: seq<Records>) returns (r: Option<Record>)
      requires Usable(pool) && PoolSlots(pool) == ss && nextPage < endPage <= |ss|
      modifies this`nextSlot, pool, pool.heap
      ensures Usable(pool) && PoolSlots(pool) == ss && Kept(old(pool.frames), pool.frames)
      ensures if r == None then nextSlot >= |ss[nextPage]| && Remaining(ss) == old(Remaining(ss))
              else old(Remaining(ss)) == [r.value] + Remaining(ss)
    {
      hide ValidImage, RecordsOf, TableOk, Kept, Guarded, HoldsPage, HasUnpinned, SlotsOf, PageId, Rest;
      ghost var was := pool.frames;
      var i, page := FetchForRead(pool, nextPage);
      r := NextOnPage(page, ss);
      Drop(pool, i, nextPage, was);
    }

    method NextOnPage(page: SlottedPage, ghost ss: seq<Records>) returns (r: Option<Record>)
      requires page.Valid() && nextPage < endPage <= |ss| && page.Contents() == ss[nextPage]
      modifies this`nextSlot
      ensures if r == None then nextSlot >= |ss[nextPage]| && Remaining(ss) == old(Remaining(ss))
              else old(Remaining(ss)) == [r.value] + Remaining(ss)
    {
      hide ValidImage, RecordsOf;
      ghost var rest := Remaining(ss);
      var slots := page.Count();
      while nextSlot < slots
        invariant Remaining(ss) == rest
      {
        var slotId := nextSlot;
        nextSlot := nextSlot + 1;
        var live := page.Contains(slotId);
        if live {
          var bytes := page.Read(slotId);
          return Some(Record(RecordId(nextPage, slotId), bytes.value));
        }
      }
      r := None;
    }
  }

  lemma RestNextPage(ss: seq<Records>, page: nat, slot: nat, end: nat)
    requires page < end <= |ss| && slot >= |ss[page]|
    ensures Rest(ss, page, slot, end) == Rest(ss, page + 1, 0, end)
  {
  }

  lemma RestEnds(ss: seq<Records>, page: nat, slot: nat, end: nat)
    requires end <= |ss| && page >= end
    ensures Rest(ss, page, slot, end) == []
  {
  }

  lemma FirstFitStep(ss: seq<Records>, start: nat, n: nat, offset: nat)
    requires start < |ss| && offset < |ss|
    ensures FirstFit(ss, start, n, offset) ==
      if Fits(ss[Probe(start, offset, |ss|)], n) then offset else FirstFit(ss, start, n, offset + 1)
  {
  }

  lemma ProbeIsModulo(start: nat, offset: nat, count: nat)
    requires start < count && offset < count
    ensures (start + offset) % count == Probe(start, offset, count)
  {
    var x := start + offset;
    assert x == count * (x / count) + x % count;
    assert x / count < 2 by {
      QuotientBound(x, count, 2);
    }
  }

  lemma QuotientBound(x: nat, n: nat, q: nat)
    requires 0 < n && x < n * q
    ensures x / n < q
  {
    assert x == n * (x / n) + x % n;
  }

  lemma EmptyPageFits(n: nat)
    requires n <= MAX_RECORD_BYTES
    ensures Fits([], n) && FirstFree([]) == 0
  {
    EmptyTotal([]);
  }

  lemma SameSizeOnPage(b: Image, i: nat, record: seq<byte>)
    requires ValidImage(b) && i < |RecordsOf(b)| && RecordsOf(b)[i].Some?
    requires |record| == |RecordsOf(b)[i].value|
    ensures |record| <= MAX_RECORD && Reclaimable(RecordsOf(b)[i := Some(record)]) >= 0
  {
    assert SlotOk(SlotAt(b, i), FreeEnd(b));
    SameSizeFits(b, i, record);
  }
}
