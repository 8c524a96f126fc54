/** Page guards: pinning a page, reading or editing it, and giving the pin back. */
module PageGuards {
  import opened PageFormat
  import opened SlottedPages
  import opened HeapFiles
  import opened BufferPools

  /** Some frame is free of pins, so that a page can always be brought in. */
  predicate HasUnpinned(frames: seq<Frame>) {
    exists i :: 0 <= i < |frames| && frames[i].pins == 0
  }

  /** Pins are as before, and a pinned frame still holds the page it was pinned for. */
  predicate Kept(was: seq<Frame>, now: seq<Frame>) {
    |now| == |was| &&
    forall j :: 0 <= j < |was| ==>
      && now[j].pins == was[j].pins
      && (was[j].pins > 0 ==>
            was[j].page.Some? && now[j].page.Some? && PageId(now[j].page.value) == PageId(was[j].page.value))
  }

  /** Frame i carries one guard more than before. */
  predicate Guarded(was: seq<Frame>, now: seq<Frame>, i: nat) {
    && PinnedAt(was, now, i)
    && (forall j :: 0 <= j < |was| && was[j].pins > 0 ==> was[j].page.Some?)
    && HasUnpinned(was)
  }

  predicate HoldsPage(frames: seq<Frame>, i: nat, pageId: nat) {
    i < |frames| && frames[i].pins > 0 && frames[i].page.Some? && PageId(frames[i].page.value) == pageId
  }

  /** When the guard of frame i goes out of scope, all pins are as before it was taken. */
  lemma GuardReleased(was: seq<Frame>, fetched: seq<Frame>, i: nat, f: Frame)
    requires Guarded(was, fetched, i) && fetched[i].page.Some? && f.page.Some?
    requires PageId(f.page.value) == PageId(fetched[i].page.value) && f.pins == fetched[i].pins - 1
    ensures Kept(was, fetched[i := f]) && HasUnpinned(fetched[i := f])
  {
    hide PageId;
    var j :| 0 <= j < |was| && was[j].pins == 0;
    assert fetched[i := f][j].pins == 0;
  }

  lemma KeptTrans(a: seq<Frame>, b: seq<Frame>, c: seq<Frame>)
    requires Kept(a, b) && Kept(b, c)
    ensures Kept(a, c)
  {
    hide PageId;
  }

  lemma KeptHolding(was: seq<Frame>, now: seq<Frame>)
    requires SameHolding(was, now)
    requires forall j :: 0 <= j < |was| && was[j].pins > 0 ==> was[j].page.Some?
    ensures Kept(was, now) && (HasUnpinned(was) ==> HasUnpinned(now))
  {
    hide PageId;
    if j :| 0 <= j < |was| && was[j].pins == 0 {
      assert now[j].pins == 0;
    }
  }

  lemma UnpinnedIsAvailable(frames: seq<Frame>)
    requires HasUnpinned(frames)
    ensures Available(frames)
  {
    var i :| 0 <= i < |frames| && frames[i].pins == 0;
    assert Evictable(frames[i]);
  }

  lemma PinnedHasPage(pool: BufferPool)
    requires pool.Valid()
    ensures forall j :: 0 <= j < |pool.frames| && pool.frames[j].pins > 0 ==> pool.frames[j].page.Some?
    ensures Kept(pool.frames, pool.frames)
  {
    hide ValidImage, PageId;
    forall j | 0 <= j < |pool.frames| && pool.frames[j].pins > 0
      ensures pool.frames[j].page.Some?
    {
      assert FrameOk(pool.frames, pool.pageTable, pool.heap.pages, j);
    }
  }

  lemma PagesValid(pool: BufferPool)
    requires pool.Valid()
    ensures forall p :: 0 <= p < |pool.Pages()| ==> ValidImage(pool.Pages()[p]) && PageId(pool.Pages()[p]) == p
  {
    hide ValidImage, PageId;
    forall p | 0 <= p < |pool.Pages()|
      ensures ValidImage(pool.Pages()[p]) && PageId(pool.Pages()[p]) == p
    {
      if p in pool.pageTable {
        assert EntryOk(pool.frames, pool.pageTable, p);
        assert FrameOk(pool.frames, pool.pageTable, pool.heap.pages, pool.pageTable[p]);
      }
    }
  }

  lemma HeldIsLogical(pool: BufferPool, i: nat)
    requires pool.Valid() && i < |pool.frames| && pool.frames[i].page.Some?
    ensures ValidImage(pool.frames[i].page.value)
    ensures var p := PageId(pool.frames[i].page.value);
      p < |pool.Pages()| && pool.Pages()[p] == pool.frames[i].page.value
  {
    hide ValidImage, PageId;
    assert FrameOk(pool.frames, pool.pageTable, pool.heap.pages, i);
  }

  lemma ResidentInFile(pool: BufferPool, p: nat)
    requires pool.Valid() && p in pool.pageTable
    ensures p < |pool.heap.pages|
  {
    hide ValidImage, PageId;
    assert EntryOk(pool.frames, pool.pageTable, p);
    assert FrameOk(pool.frames, pool.pageTable, pool.heap.pages, pool.pageTable[p]);
  }

  // ---------------------------------------------------------------- slots of all pages

  /** The slots of every page, in page order. */
  function SlotsOf(pages: seq<Image>): (ss: seq<Records>)
    ensures |ss| == |pages| && forall p :: 0 <= p < |ss| ==> ss[p] == PageRecords(pages[p])
  {
    seq(|pages|, p requires 0 <= p < |pages| => PageRecords(pages[p]))
  }

  ghost function PoolSlots(pool: BufferPool): (ss: seq<Records>)
    requires pool.Consistent()
    reads pool, pool.heap
    ensures |ss| == |pool.heap.pages|
  {
    SlotsOf(pool.Pages())
  }

  lemma SlotsUpdate(pages: seq<Image>, p: nat, image: Image)
    requires p < |pages| && ValidImage(image)
    ensures SlotsOf(pages[p := image]) == SlotsOf(pages)[p := RecordsOf(image)]
  {
    hide ValidImage, RecordsOf;
  }

  lemma SlotsGrow(pages: seq<Image>, image: Image)
    requires ValidImage(image)
    ensures SlotsOf(pages + [image]) == SlotsOf(pages) + [RecordsOf(image)]
  {
    hide ValidImage, RecordsOf;
  }

  /** The pool is in order, and not every frame is pinned by others. */
  ghost predicate Usable(pool: BufferPool)
    reads pool, pool.heap
  {
    pool.Valid() && HasUnpinned(pool.frames)
  }

  // ---------------------------------------------------------------- guards

  /** Pins an existing page and gives its content to read. */
  method FetchForRead(pool: BufferPool, pageId: nat) returns (i: nat, page: SlottedPage)
    requires Usable(pool) && pageId < |PoolSlots(pool)|
    modifies pool, pool.heap
    ensures pool.Valid() && PoolSlots(pool) == old(PoolSlots(pool))
    ensures Guarded(old(pool.frames), pool.frames, i) && HoldsPage(pool.frames, i, pageId)
    ensures fresh(page) && fresh(page.bytes) && page.Valid()
    ensures page.Id() == pageId && page.Contents() == PoolSlots(pool)[pageId]
  {
    hide ValidImage, PageId, RecordsOf, TableOk;
    UnpinnedIsAvailable(pool.frames);
    PinnedHasPage(pool);
    PagesValid(pool);
    var guard := pool.Fetch(pageId);
    i := guard.value;
    page := new SlottedPage.FromImage(pool.frames[i].page.value);
  }

  /** Fetching a page beyond the file fails, although the clock may have moved by then. */
  method FetchMissing(pool: BufferPool, pageId: nat)
    requires Usable(pool) && pageId >= |PoolSlots(pool)|
    modifies pool, pool.heap
    ensures Usable(pool) && Kept(old(pool.frames), pool.frames) && PoolSlots(pool) == old(PoolSlots(pool))
  {
    hide ValidImage, PageId, TableOk;
    ghost var was := pool.frames;
    UnpinnedIsAvailable(was);
    PinnedHasPage(pool);
    if pageId in pool.pageTable {
      ResidentInFile(pool, pageId);
    }
    var guard := pool.Fetch(pageId);
    KeptHolding(was, pool.frames);
  }

  /** Turns a guard into a writing one: the frame is marked dirty. */
  method Upgrade(pool: BufferPool, i: nat, ghost pageId: nat, ghost was: seq<Frame>) returns (page: SlottedPage)
    requires pool.Valid() && HoldsPage(pool.frames, i, pageId) && Guarded(was, pool.frames, i)
    modifies pool
    ensures pool.Valid() && PoolSlots(pool) == old(PoolSlots(pool))
    ensures Guarded(was, pool.frames, i) && HoldsPage(pool.frames, i, pageId) && pool.frames[i].dirty
    ensures fresh(page) && fresh(page.bytes) && page.Valid()
    ensures page.Id() == pageId && pageId < |PoolSlots(pool)| && page.Contents() == PoolSlots(pool)[pageId]
  {
    hide ValidImage, PageId, RecordsOf, TableOk;
    HeldIsLogical(pool, i);
    page := pool.MutablePage(i);
  }

  method FetchForWrite(pool: BufferPool, pageId: nat) returns (i: nat, page: SlottedPage)
    requires Usable(pool) && pageId < |PoolSlots(pool)|
    modifies pool, pool.heap
    ensures pool.Valid() && PoolSlots(pool) == old(PoolSlots(pool))
    ensures Guarded(old(pool.frames), pool.frames, i)
    ensures HoldsPage(pool.frames, i, pageId) && pool.frames[i].dirty
    ensures fresh(page) && fresh(page.bytes) && page.Valid()
    ensures page.Id() == pageId && page.Contents() == PoolSlots(pool)[pageId]
  {
    hide Guarded, TableOk;
    ghost var was := pool.frames;
    i, page := FetchForRead(pool, pageId);
    page := Upgrade(pool, i, pageId, was);
  }

  /** A writing guard on a new page at the end of the file. */
  method AllocateForWrite(pool: BufferPool) returns (i: nat, page: SlottedPage)
    requires Usable(pool) && |PoolSlots(pool)| < MAX_PAGES
    modifies pool, pool.heap
    ensures pool.Valid() && PoolSlots(pool) == old(PoolSlots(pool)) + [[]]
    ensures Guarded(old(pool.frames), pool.frames, i)
    ensures HoldsPage(pool.frames, i, |old(PoolSlots(pool))|) && pool.frames[i].dirty
    ensures fresh(page) && fresh(page.bytes) && page.Valid()
    ensures page.Id() == |old(PoolSlots(pool))| && page.Contents() == []
  {
    hide ValidImage, PageId, RecordsOf, TableOk;
    ghost var pages := pool.Pages();
    UnpinnedIsAvailable(pool.frames);
    PinnedHasPage(pool);
    var guard := pool.Allocate();
    i := guard.value;
    SlotsGrow(pages, pool.frames[i].page.value);
    page := pool.MutablePage(i);
  }

  /** The end of a reading guard's scope. */
  method Drop(pool: BufferPool, i: nat, ghost pageId: nat, ghost was: seq<Frame>)
    requires pool.Valid() && HoldsPage(pool.frames, i, pageId) && Guarded(was, pool.frames, i)
    modifies pool
    ensures Usable(pool) && Kept(was, pool.frames) && PoolSlots(pool) == old(PoolSlots(pool))
  {
    hide PageId, TableOk;
    ghost var fetched := pool.frames;
    pool.Unpin(i);
    GuardReleased(was, fetched, i, pool.frames[i]);
    assert pool.frames == fetched[i := pool.frames[i]];
  }

  /** The end of a writing guard's scope: the edited page stays in its frame, the pin goes. */
  method Release(pool: BufferPool, i: nat, page: SlottedPage, ghost was: seq<Frame>)
    requires pool.Valid() && page.Valid() && HoldsPage(pool.frames, i, page.Id()) && pool.frames[i].dirty
    requires Guarded(was, pool.frames, i)
    modifies pool
    ensures Usable(pool) && Kept(was, pool.frames) && page.Id() < |old(PoolSlots(pool))|
    ensures PoolSlots(pool) == old(PoolSlots(pool))[page.Id() := page.Contents()]
  {
    hide ValidImage, PageId, RecordsOf, TableOk;
    ghost var pages, fetched := pool.Pages(), pool.frames;
    pool.StorePage(i, page);
    pool.Unpin(i);
    SlotsUpdate(pages, page.Id(), page.bytes[..]);
    GuardReleased(was, fetched, i, pool.frames[i]);
    assert pool.frames == fetched[i := pool.frames[i]];
  }

}
