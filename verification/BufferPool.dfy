/** The page cache: a fixed number of frames over the heap file, with pins and clock eviction. */
module BufferPools {
  import opened Wrappers
  import opened PageFormat
  import opened SlottedPages
  import opened HeapFiles

  datatype Frame = Frame(page: Option<Image>, pins: nat, referenced: bool, dirty: bool)

  datatype Stats = Stats(hits: nat, misses: nat, evictions: nat, dirtyWrites: nat)

  const EMPTY_FRAME := Frame(None, 0, false, false)

  predicate Evictable(f: Frame) { f.page == None || f.pins == 0 }

  /** Some frame can take a page. */
  predicate Available(frames: seq<Frame>) {
    exists i :: 0 <= i < |frames| && Evictable(frames[i])
  }

  // ---------------------------------------------------------------- the clock

  /** The frame that the clock examines e steps after starting at `start`. */
  function Wrap(start: nat, e: nat, n: nat): (j: nat)
    requires start < n && e <= 2 * n
    ensures j < n
  {
    if start + e < n then start + e else if start + e < 2 * n then start + e - n else start + e - 2 * n
  }

  /** What one visit of the clock does to a frame that it passes over. */
  function SecondChance(f: Frame): Frame {
    if f.page.Some? && f.pins == 0 then f.(referenced := false) else f
  }

  /** The frames after the clock has passed over e of them. */
  function Sweep(frames: seq<Frame>, start: nat, e: nat): (r: seq<Frame>)
    requires start < |frames| && e <= 2 * |frames|
    ensures |r| == |frames|
  {
    if e == 0 then frames else
    var g, j := Sweep(frames, start, e - 1), Wrap(start, e - 1, |frames|);
    g[j := SecondChance(g[j])]
  }

  /** The frame examined at step e is not a victim: it is pinned, or its reference bit is set. */
  predicate PassedOver(frames: seq<Frame>, start: nat, e: nat)
    requires start < |frames| && e < 2 * |frames|
  {
    var f := Sweep(frames, start, e)[Wrap(start, e, |frames|)];
    f.page.Some? && (f.pins != 0 || f.referenced)
  }

  /** Sweeping only ever clears the reference bits of the unpinned frames passed over. */
  lemma {:induction false} SweepShape(frames: seq<Frame>, start: nat, e: nat, d: nat)
    requires start < |frames| && e <= 2 * |frames| && d < |frames|
    ensures var j := Wrap(start, d, |frames|);
      Sweep(frames, start, e)[j] == if d < e then SecondChance(frames[j]) else frames[j]
  {
    if e > 0 {
      SweepShape(frames, start, e - 1, d);
    }
  }

  lemma Unwrap(start: nat, j: nat, n: nat) returns (d: nat)
    requires start < n && j < n
    ensures d < n && Wrap(start, d, n) == j
  {
    d := if j >= start then j - start else j + n - start;
  }

  lemma SweepFrame(frames: seq<Frame>, start: nat, e: nat, j: nat)
    requires start < |frames| && e <= 2 * |frames| && j < |frames|
    ensures Sweep(frames, start, e)[j] == frames[j] || Sweep(frames, start, e)[j] == SecondChance(frames[j])
  {
    var d := Unwrap(start, j, |frames|);
    SweepShape(frames, start, e, d);
  }

  /**
   In terms of the frames as they were: on the first sweep a frame is passed over iff it is pinned
   or referenced, on the second iff it is pinned.
   */
  lemma PassedOverMeans(frames: seq<Frame>, start: nat, e: nat)
    requires start < |frames| && e < 2 * |frames|
    ensures var f := frames[Wrap(start, e, |frames|)];
      PassedOver(frames, start, e) <==>
        f.page.Some? && (f.pins != 0 || (e < |frames| && f.referenced))
  {
    var d := Unwrap(start, Wrap(start, e, |frames|), |frames|);
    SweepShape(frames, start, e, d);
  }

  /** The clock finds a victim within two sweeps exactly when some frame is empty or unpinned. */
  lemma VictimWithinTwoSweeps(frames: seq<Frame>, start: nat)
    requires start < |frames|
    ensures (exists e :: 0 <= e < 2 * |frames| && !PassedOver(frames, start, e)) <==>
            Available(frames)
  {
    if e :| 0 <= e < 2 * |frames| && !PassedOver(frames, start, e) {
      PassedOverMeans(frames, start, e);
      assert Evictable(frames[Wrap(start, e, |frames|)]);
    }
    if j :| 0 <= j < |frames| && Evictable(frames[j]) {
      var d := Unwrap(start, j, |frames|);
      PassedOverMeans(frames, start, d + |frames|);
    }
  }

  /** A search that fails leaves every reference bit as it was. */
  lemma FailedSweepChangesNothing(frames: seq<Frame>, start: nat)
    requires start < |frames|
    requires forall e :: 0 <= e < 2 * |frames| ==> PassedOver(frames, start, e)
    ensures Sweep(frames, start, 2 * |frames|) == frames
    ensures forall j :: 0 <= j < |frames| ==> frames[j].page.Some? && frames[j].pins != 0
  {
    forall j | 0 <= j < |frames|
      ensures Sweep(frames, start, 2 * |frames|)[j] == frames[j]
      ensures frames[j].page.Some? && frames[j].pins != 0
    {
      var d := Unwrap(start, j, |frames|);
      PassedOverMeans(frames, start, d + |frames|);
      SweepFrame(frames, start, 2 * |frames|, j);
    }
  }

  /** The frame can be taken at once. */
  predicate FreeNow(f: Frame) {
    f.page == None || (f.pins == 0 && !f.referenced)
  }

  /** How far frame j is ahead of the hand. */
  function StepsTo(hand: nat, j: nat, n: nat): nat
    requires hand < n && j < n
  {
    if j >= hand then j - hand else j + n - hand
  }

  /** The clock takes the next frame that is free at once; if there is none, the next that is not pinned. */
  ghost predicate ClockTakes(frames: seq<Frame>, hand: nat, v: nat)
    requires hand < |frames|
  {
    && v < |frames|
    && if exists j :: 0 <= j < |frames| && FreeNow(frames[j]) then
         && FreeNow(frames[v])
         && forall j :: 0 <= j < |frames| && FreeNow(frames[j]) ==>
              StepsTo(hand, v, |frames|) <= StepsTo(hand, j, |frames|)
       else
         && frames[v].pins == 0
         && forall j :: 0 <= j < |frames| && frames[j].pins == 0 ==>
              StepsTo(hand, v, |frames|) <= StepsTo(hand, j, |frames|)
  }

  /** Unpinned pages on its way lose their reference bit, in a second round all of them; nothing else changes. */
  ghost predicate ClockLeaves(frames: seq<Frame>, hand: nat, v: nat, now: seq<Frame>)
    requires hand < |frames| && v < |frames|
  {
    && |now| == |frames|
    && forall j :: 0 <= j < |frames| ==>
         var cleared := && frames[j].page.Some? && frames[j].pins == 0
                        && (FreeNow(frames[v]) ==> StepsTo(hand, j, |frames|) < StepsTo(hand, v, |frames|));
         now[j] == if cleared then frames[j].(referenced := false) else frames[j]
  }

  /** A new page went into the frame that the clock takes, pinned once and with its reference bit set. */
  ghost predicate Taken(was: seq<Frame>, hand: nat, v: nat, now: seq<Frame>, hand': nat)
    requires hand < |was|
  {
    && ClockTakes(was, hand, v) && |now| == |was| && hand' == (if v + 1 == |was| then 0 else v + 1)
    && now[v].page.Some? && now[v].pins == 1 && now[v].referenced && !now[v].dirty
    && exists left :: ClockLeaves(was, hand, v, left) && now == left[v := now[v]]
  }

  /** What bringing a page into frame f adds to the counters. */
  function CountMiss(stats: Stats, f: Frame): Stats {
    Stats(stats.hits, stats.misses + 1, stats.evictions + (if f.page.Some? then 1 else 0),
          stats.dirtyWrites + if f.dirty then 1 else 0)
  }

  lemma StepsReach(hand: nat, j: nat, n: nat)
    requires hand < n && j < n
    ensures StepsTo(hand, j, n) < n && Wrap(hand, StepsTo(hand, j, n), n) == j
    ensures Wrap(hand, n + StepsTo(hand, j, n), n) == j
  {
  }

  /** Where the first sweep, and the second one, stand with frame j after so many steps. */
  lemma ClockAt(frames: seq<Frame>, hand: nat, steps: nat, j: nat)
    requires hand < |frames| && steps < 2 * |frames| && j < |frames|
    requires (forall e :: 0 <= e < steps ==> PassedOver(frames, hand, e)) && !PassedOver(frames, hand, steps)
    ensures var d, n := StepsTo(hand, j, |frames|), |frames|;
      && (d < steps ==> !FreeNow(frames[j])) && (d == steps ==> FreeNow(frames[j]))
      && (n + d < steps ==> frames[j].pins != 0) && (n + d == steps ==> FreeNow(frames[j]) || frames[j].pins == 0)
      && Sweep(frames, hand, steps)[j] == (if d < steps then SecondChance(frames[j]) else frames[j])
      && (j == Wrap(hand, steps, n) <==> d == steps || n + d == steps)
  {
    hide PassedOver, Sweep, Wrap;
    var d, n := StepsTo(hand, j, |frames|), |frames|;
    StepsReach(hand, j, n);
    PassedOverMeans(frames, hand, d);
    PassedOverMeans(frames, hand, n + d);
    SweepShape(frames, hand, steps, d);
    WrapOnce(hand, steps, d, n);
  }

  /** What the two sweeps amount to. */
  lemma ClockRule(frames: seq<Frame>, hand: nat, steps: nat)
    requires hand < |frames| && steps < 2 * |frames|
    requires (forall e :: 0 <= e < steps ==> PassedOver(frames, hand, e)) && !PassedOver(frames, hand, steps)
    ensures var v := Wrap(hand, steps, |frames|);
      ClockTakes(frames, hand, v) && ClockLeaves(frames, hand, v, Sweep(frames, hand, steps))
  {
    hide PassedOver, Sweep, Wrap, StepsTo, FreeNow;
    var n, v := |frames|, Wrap(hand, steps, |frames|);
    ClockAt(frames, hand, steps, v);
    StepsReach(hand, v, n);
    forall j | 0 <= j < n
      ensures FreeNow(frames[j]) ==> FreeNow(frames[v]) && StepsTo(hand, v, n) <= StepsTo(hand, j, n)
      ensures !FreeNow(frames[v]) && frames[j].pins == 0 ==> StepsTo(hand, v, n) <= StepsTo(hand, j, n)
    {
      ClockAt(frames, hand, steps, j);
      StepsReach(hand, j, n);
    }
    assert FreeNow(frames[v]) || frames[v].pins == 0;
    forall j | 0 <= j < n
      ensures var cleared := && frames[j].page.Some? && frames[j].pins == 0
                             && (FreeNow(frames[v]) ==> StepsTo(hand, j, n) < StepsTo(hand, v, n));
        Sweep(frames, hand, steps)[j] == if cleared then frames[j].(referenced := false) else frames[j]
    {
      ClockAt(frames, hand, steps, j);
      StepsReach(hand, j, n);
      ClearedAt(frames, hand, steps, j, v);
    }
  }

  lemma ClearedAt(frames: seq<Frame>, hand: nat, steps: nat, j: nat, v: nat)
    requires hand < |frames| && j < |frames| && v < |frames|
    requires var n := |frames|;
      && StepsTo(hand, v, n) < n && StepsTo(hand, j, n) < n
      && (StepsTo(hand, v, n) == steps || n + StepsTo(hand, v, n) == steps)
      && (StepsTo(hand, v, n) < steps ==> !FreeNow(frames[v])) && (StepsTo(hand, v, n) == steps ==> FreeNow(frames[v]))
    ensures var cleared := && frames[j].page.Some? && frames[j].pins == 0
                           && (FreeNow(frames[v]) ==> StepsTo(hand, j, |frames|) < StepsTo(hand, v, |frames|));
      (if StepsTo(hand, j, |frames|) < steps then SecondChance(frames[j]) else frames[j]) ==
        if cleared then frames[j].(referenced := false) else frames[j]
  {
    hide StepsTo, FreeNow;
  }

  lemma WrapOnce(hand: nat, steps: nat, d: nat, n: nat)
    requires hand < n && steps < 2 * n && d < n
    ensures Wrap(hand, steps, n) == Wrap(hand, d, n) <==> d == steps || n + d == steps
  {
  }

  /** A page that has been used since the hand passed is not taken while there is another choice. */
  lemma UsedPageStays(frames: seq<Frame>, hand: nat, v: nat, i: nat)
    requires hand < |frames| && ClockTakes(frames, hand, v) && i < |frames|
    requires frames[i].page.Some? && frames[i].referenced && exists j :: 0 <= j < |frames| && FreeNow(frames[j])
    ensures v != i
  {
  }

  // ---------------------------------------------------------------- the page table

  predicate FrameOk(frames: seq<Frame>, table: map<nat, nat>, pages: seq<Image>, i: nat)
    requires i < |frames|
  {
    match frames[i].page
    case None => frames[i].pins == 0 && !frames[i].dirty
    case Some(image) =>
      && ValidImage(image) && PageId(image) < |pages|
      && PageId(image) in table && table[PageId(image)] == i
      && (!frames[i].dirty ==> image == pages[PageId(image)])
  }

  predicate EntryOk(frames: seq<Frame>, table: map<nat, nat>, p: nat)
    requires p in table
  {
    table[p] < |frames| && frames[table[p]].page.Some? && PageId(frames[table[p]].page.value) == p
  }

  predicate TableOk(frames: seq<Frame>, table: map<nat, nat>, pages: seq<Image>) {
    && (forall i :: 0 <= i < |frames| ==> FrameOk(frames, table, pages, i))
    && (forall p :: p in table ==> EntryOk(frames, table, p))
  }

  /** What a reader of page p sees: the resident copy if there is one, else the stored page. */
  function Resolve(frames: seq<Frame>, table: map<nat, nat>, pages: seq<Image>, p: nat): Image
    requires TableOk(frames, table, pages) && p < |pages|
  {
    if p in table then assert EntryOk(frames, table, p); frames[table[p]].page.value else pages[p]
  }

  function Logical(frames: seq<Frame>, table: map<nat, nat>, pages: seq<Image>): (r: seq<Image>)
    requires TableOk(frames, table, pages)
    ensures |r| == |pages|
    ensures forall p :: 0 <= p < |r| ==> r[p] == Resolve(frames, table, pages, p)
  {
    seq(|pages|, p requires 0 <= p < |pages| => Resolve(frames, table, pages, p))
  }

  // ---------------------------------------------------------------- changes of the frames

  /** The frames hold the same pages with the same pins and dirty bits. */
  predicate SameHolding(was: seq<Frame>, now: seq<Frame>) {
    |now| == |was| &&
    forall j :: 0 <= j < |was| ==>
      now[j].page == was[j].page && now[j].pins == was[j].pins && now[j].dirty == was[j].dirty
  }

  /** Frame i has one more pin; only an unpinned frame can have been given another page. */
  predicate PinnedAt(was: seq<Frame>, now: seq<Frame>, i: nat) {
    |now| == |was| && i < |was| &&
    forall j :: 0 <= j < |was| ==>
      && now[j].pins == was[j].pins + (if j == i then 1 else 0)
      && (j != i || was[j].pins > 0 ==> now[j].page == was[j].page)
  }

  lemma LogicalSwept(frames: seq<Frame>, now: seq<Frame>, table: map<nat, nat>, pages: seq<Image>)
    requires TableOk(frames, table, pages) && SameHolding(frames, now)
    ensures TableOk(now, table, pages) && Logical(now, table, pages) == Logical(frames, table, pages)
  {
    hide ValidImage, PageId;
    forall i | 0 <= i < |now|
      ensures FrameOk(now, table, pages, i)
    {
      assert FrameOk(frames, table, pages, i);
    }
    forall p | p in table
      ensures EntryOk(now, table, p)
    {
      assert EntryOk(frames, table, p);
    }
  }

  /** Writing a dirty frame back does not change what readers see. */
  lemma LogicalFlushed(frames: seq<Frame>, table: map<nat, nat>, pages: seq<Image>, i: nat)
    requires TableOk(frames, table, pages) && i < |frames| && frames[i].page.Some?
    ensures var image := frames[i].page.value;
      && PageId(image) < |pages|
      && var now, disk := frames[i := frames[i].(dirty := false)], pages[PageId(image) := image];
      && TableOk(now, table, disk)
      && Logical(now, table, disk) == Logical(frames, table, pages)
  {
    hide ValidImage, PageId;
    assert FrameOk(frames, table, pages, i);
    var image := frames[i].page.value;
    var now, disk := frames[i := frames[i].(dirty := false)], pages[PageId(image) := image];
    forall j | 0 <= j < |now|
      ensures FrameOk(now, table, disk, j)
    {
      assert FrameOk(frames, table, pages, j);
    }
    forall p | p in table
      ensures EntryOk(now, table, p)
    {
      assert EntryOk(frames, table, p);
    }
  }

  /** The page table after frame i has given up its page, if it held one, for page `pageId`. */
  function Rebound(frames: seq<Frame>, table: map<nat, nat>, i: nat, pageId: nat): map<nat, nat>
    requires i < |frames|
  {
    var cleared := if frames[i].page.Some? then table - {PageId(frames[i].page.value)} else table;
    cleared[pageId := i]
  }

  lemma TableInstalled(frames: seq<Frame>, table: map<nat, nat>, pages: seq<Image>, i: nat, image: Image)
    requires TableOk(frames, table, pages) && i < |frames|
    requires ValidImage(image) && PageId(image) < |pages| && pages[PageId(image)] == image
    requires PageId(image) !in table
    ensures TableOk(frames[i := Frame(Some(image), 1, true, false)], Rebound(frames, table, i, PageId(image)), pages)
  {
    hide ValidImage, PageId;
    var installed, now := frames[i := Frame(Some(image), 1, true, false)], Rebound(frames, table, i, PageId(image));
    assert FrameOk(frames, table, pages, i);
    forall j | 0 <= j < |installed|
      ensures FrameOk(installed, now, pages, j)
    {
      assert FrameOk(frames, table, pages, j);
    }
    forall p | p in now
      ensures EntryOk(installed, now, p)
    {
      if p in table {
        assert EntryOk(frames, table, p);
      }
    }
  }

  lemma ReboundSize(frames: seq<Frame>, table: map<nat, nat>, pages: seq<Image>, i: nat, pageId: nat)
    requires TableOk(frames, table, pages) && i < |frames| && pageId !in table
    ensures |Rebound(frames, table, i, pageId)| + (if frames[i].page.Some? then 1 else 0) == |table| + 1
  {
    hide ValidImage, PageId;
    assert FrameOk(frames, table, pages, i);
    var cleared := if frames[i].page.Some? then table - {PageId(frames[i].page.value)} else table;
    assert table.Keys == cleared.Keys + if frames[i].page.Some? then {PageId(frames[i].page.value)} else {};
  }

  /** A clean frame may take another page that is as stored. */
  lemma LogicalInstalled(frames: seq<Frame>, table: map<nat, nat>, pages: seq<Image>, i: nat, image: Image)
    requires TableOk(frames, table, pages) && i < |frames| && !frames[i].dirty
    requires ValidImage(image) && PageId(image) < |pages| && pages[PageId(image)] == image
    requires PageId(image) !in table
    requires TableOk(frames[i := Frame(Some(image), 1, true, false)], Rebound(frames, table, i, PageId(image)), pages)
    ensures Logical(frames[i := Frame(Some(image), 1, true, false)], Rebound(frames, table, i, PageId(image)), pages)
         == Logical(frames, table, pages)
  {
    hide ValidImage, PageId;
    var installed, now := frames[i := Frame(Some(image), 1, true, false)], Rebound(frames, table, i, PageId(image));
    assert FrameOk(frames, table, pages, i);
    forall p | 0 <= p < |pages|
      ensures Resolve(installed, now, pages, p) == Resolve(frames, table, pages, p)
    {
      if p in table {
        assert EntryOk(frames, table, p);
      }
    }
  }

  /** A new version of a resident page changes that page and no other. */
  lemma LogicalCommitted(frames: seq<Frame>, table: map<nat, nat>, pages: seq<Image>, i: nat, image: Image)
    requires TableOk(frames, table, pages) && i < |frames| && frames[i].page.Some? && frames[i].dirty
    requires ValidImage(image) && PageId(image) == PageId(frames[i].page.value)
    ensures var now := frames[i := frames[i].(page := Some(image))];
      && PageId(image) < |pages|
      && TableOk(now, table, pages)
      && Logical(now, table, pages) == Logical(frames, table, pages)[PageId(image) := image]
  {
    hide ValidImage, PageId;
    var now := frames[i := frames[i].(page := Some(image))];
    assert FrameOk(frames, table, pages, i);
    forall j | 0 <= j < |now|
      ensures FrameOk(now, table, pages, j)
    {
      assert FrameOk(frames, table, pages, j);
    }
    forall p | p in table
      ensures EntryOk(now, table, p)
    {
      assert EntryOk(frames, table, p);
    }
    forall p | 0 <= p < |pages|
      ensures Resolve(now, table, pages, p) == if p == PageId(image) then image else Resolve(frames, table, pages, p)
    {
      if p in table {
        assert EntryOk(frames, table, p);
        assert FrameOk(frames, table, pages, table[p]);
      }
    }
  }

  /** A page added to the file is seen after the existing ones. */
  lemma LogicalGrown(frames: seq<Frame>, table: map<nat, nat>, pages: seq<Image>, image: Image)
    requires TableOk(frames, table, pages)
    ensures |pages| !in table
    ensures TableOk(frames, table, pages + [image])
    ensures Logical(frames, table, pages + [image]) == Logical(frames, table, pages) + [image]
  {
    hide ValidImage, PageId;
    forall j | 0 <= j < |frames|
      ensures FrameOk(frames, table, pages + [image], j)
    {
      assert FrameOk(frames, table, pages, j);
    }
    forall p | p in table
      ensures EntryOk(frames, table, p) && p < |pages|
    {
      assert EntryOk(frames, table, p);
      assert FrameOk(frames, table, pages, table[p]);
    }
    forall p | 0 <= p < |pages|
      ensures Resolve(frames, table, pages + [image], p) == Resolve(frames, table, pages, p)
    {
      if p in table {
        assert EntryOk(frames, table, p);
      }
    }
  }

  class BufferPool {
    const heap: HeapFile
    var frames: seq<Frame>
    var pageTable: map<nat, nat>
    var clockHand: nat
    var stats: Stats

    ghost predicate Consistent()
      reads this, heap
    {
      && heap.Valid()
      && clockHand < |frames|
      && TableOk(frames, pageTable, heap.pages)
    }

    /** Besides consistency, resident pages are counted by misses minus evictions. */
    ghost predicate Valid()
      reads this, heap
    {
      Consistent() && stats.evictions + |pageTable| == stats.misses
    }

    /** The logical content of every page of the file. */
    ghost function Pages(): (r: seq<Image>)
      requires Consistent()
      reads this, heap
      ensures |r| == |heap.pages|
    {
      Logical(frames, pageTable, heap.pages)
    }

    constructor (heap: HeapFile, capacity: nat)
      requires heap.Valid() && capacity > 0
      ensures this.heap == heap && Valid() && Available(frames)
      ensures |frames| == capacity && Pages() == heap.pages
    {
      this.heap := heap;
      frames := seq(capacity, _ => EMPTY_FRAME);
      pageTable := map[];
      clockHand := 0;
      stats := Stats(0, 0, 0, 0);
      new;
      assert Evictable(frames[0]);
    }

    /** A pool has to have at least one frame. */
    static method Create(heap: HeapFile, capacity: nat) returns (r: Result<BufferPool>)
      requires heap.Valid()
      ensures r.Ok? <==> capacity > 0
      ensures r.Ok? ==> fresh(r.value) && r.value.heap == heap && r.value.Valid() && Available(r.value.frames)
                        && |r.value.frames| == capacity && r.value.Pages() == heap.pages
      ensures r.Err? ==> r.error == InvalidArgument
    {
      if capacity == 0 {
        return Err(InvalidArgument);
      }
      var pool := new BufferPool(heap, capacity);
      r := Ok(pool);
    }

    /**
     The clock: passes over `steps` frames, clearing reference bits, and takes the first frame that
     is empty or unpinned with a clear bit. Two sweeps without a victim mean that all are pinned.
     */
    method ChooseVictim() returns (r: Result<nat>, ghost steps: nat)
      requires clockHand < |frames|
      modifies this`frames, this`clockHand
      ensures steps <= 2 * |old(frames)| && frames == Sweep(old(frames), old(clockHand), steps)
      ensures forall e :: 0 <= e < steps ==> PassedOver(old(frames), old(clockHand), e)
      ensures r.Ok? ==> && ClockTakes(old(frames), old(clockHand), r.value)
                        && ClockLeaves(old(frames), old(clockHand), r.value, frames)
                        && clockHand == if r.value + 1 == |frames| then 0 else r.value + 1
      ensures r.Ok? ==> && steps < 2 * |frames| && !PassedOver(old(frames), old(clockHand), steps)
                        && r.value == Wrap(old(clockHand), steps, |frames|)
                        && clockHand == Wrap(old(clockHand), steps + 1, |frames|)
      ensures r.Err? ==> r.error == BufferPoolExhausted && steps == 2 * |frames| && clockHand == old(clockHand)
    {
      hide ClockTakes, ClockLeaves;
      var n := |frames|;
      ghost var start, was := clockHand, frames;
      var examined := 0;
      while examined < 2 * n
        invariant examined <= 2 * n && clockHand == Wrap(start, examined, n)
        invariant frames == Sweep(was, start, examined)
        invariant forall e :: 0 <= e < examined ==> PassedOver(was, start, e)
      {
        var candidate := clockHand;
        NextHand(candidate, n);
        clockHand := (clockHand + 1) % n;
        var frame := frames[candidate];
        if frame.page == None {
          ClockRule(was, start, examined);
          return Ok(candidate), examined;
        }
        if frame.pins == 0 {
          if !frame.referenced {
            ClockRule(was, start, examined);
            return Ok(candidate), examined;
          }
          frames := frames[candidate := frame.(referenced := false)];
        }
        examined := examined + 1;
      }
      return Err(BufferPoolExhausted), examined;
    }

    /** Choosing a victim moves reference bits and the hand, nothing that a reader can see. */
    method TakeVictim() returns (r: Result<nat>)
      requires Valid()
      modifies this
      ensures Valid() && Pages() == old(Pages()) && SameHolding(old(frames), frames)
      ensures pageTable == old(pageTable) && stats == old(stats)
      ensures r.Ok? <==> Available(old(frames))
      ensures r.Ok? ==> r.value < |frames| && Evictable(frames[r.value]) && frames[r.value].pins == 0
      ensures r.Ok? ==> && ClockTakes(old(frames), old(clockHand), r.value)
                        && ClockLeaves(old(frames), old(clockHand), r.value, frames)
                        && clockHand == if r.value + 1 == |frames| then 0 else r.value + 1
      ensures r.Err? ==> r.error == BufferPoolExhausted && frames == old(frames) && clockHand == old(clockHand)
    {
      hide TableOk, Sweep, PassedOver, ClockTakes, ClockLeaves;
      ghost var was, start := frames, clockHand;
      ghost var steps;
      r, steps := ChooseVictim();
      VictimWithinTwoSweeps(was, start);
      forall j | 0 <= j < |was|
        ensures Sweep(was, start, steps)[j] == was[j] || Sweep(was, start, steps)[j] == SecondChance(was[j])
      {
        SweepFrame(was, start, steps, j);
      }
      if r.Ok? {
        PassedOverMeans(was, start, steps);
        VictimUnpinned(was, pageTable, heap.pages, r.value);
      } else {
        FailedSweepChangesNothing(was, start);
      }
      LogicalSwept(was, frames, pageTable, heap.pages);
    }

    /** Writes a dirty page back; the stored page then equals the resident one. */
    method FlushFrame(i: nat)
      requires Valid() && i < |frames|
      modifies this, heap
      ensures Valid() && Pages() == old(Pages())
      ensures frames == old(frames)[i := old(frames)[i].(dirty := false)]
      ensures pageTable == old(pageTable) && clockHand == old(clockHand)
      ensures stats == if old(frames)[i].dirty then old(stats).(dirtyWrites := old(stats).dirtyWrites + 1)
                       else old(stats)
    {
      hide ValidImage, PageId;
      assert FrameOk(frames, pageTable, heap.pages, i);
      var frame := frames[i];
      if frame.page == None || !frame.dirty {
        return;
      }
      LogicalFlushed(frames, pageTable, heap.pages, i);
      var written := heap.WritePage(frame.page.value);
      frames := frames[i := frame.(dirty := false)];
      stats := stats.(dirtyWrites := stats.dirtyWrites + 1);
    }

    /** Puts a page into a clean frame that is not pinned; the caller counts the miss. */
    method Install(i: nat, image: Image)
      requires Valid() && i < |frames| && Evictable(frames[i]) && !frames[i].dirty
      requires ValidImage(image) && PageId(image) < |heap.pages| && heap.pages[PageId(image)] == image
      requires PageId(image) !in pageTable
      modifies this
      ensures Consistent() && Pages() == old(Pages())
      ensures frames == old(frames)[i := Frame(Some(image), 1, true, false)] && clockHand == old(clockHand)
      ensures PageId(image) in pageTable && pageTable[PageId(image)] == i
      ensures stats.evictions + |pageTable| == stats.misses + 1
      ensures stats == if old(frames)[i].page == None then old(stats)
                       else old(stats).(evictions := old(stats).evictions + 1)
    {
      hide ValidImage;
      TableInstalled(frames, pageTable, heap.pages, i, image);
      ReboundSize(frames, pageTable, heap.pages, i, PageId(image));
      LogicalInstalled(frames, pageTable, heap.pages, i, image);
      if frames[i].page.Some? {
        pageTable := pageTable - {PageId(frames[i].page.value)};
        stats := stats.(evictions := stats.evictions + 1);
      }
      frames := frames[i := Frame(Some(image), 1, true, false)];
      pageTable := pageTable[PageId(image) := i];
    }

    /**
     Pins a page and returns its frame. Nothing but the pin is visible to readers: no page changes,
     and no pinned frame is given away.
     */
    method Fetch(pageId: nat) returns (r: Result<nat>)
      requires Valid()
      modifies this, heap
      ensures Valid() && Pages() == old(Pages())
      ensures r.Ok? <==> pageId in old(pageTable) || (Available(old(frames)) && pageId < |old(heap.pages)|)
      ensures r.Ok? ==> && PinnedAt(old(frames), frames, r.value) && pageId < |Pages()|
                        && frames[r.value].page == Some(Pages()[pageId])
      ensures r.Err? ==> && SameHolding(old(frames), frames) && pageTable == old(pageTable)
                         && r.error == if Available(old(frames)) then OutOfRange else BufferPoolExhausted
      ensures stats.hits == old(stats).hits + if pageId in old(pageTable) then 1 else 0
      ensures pageId in old(pageTable) ==>
        && r == Ok(old(pageTable)[pageId]) && pageTable == old(pageTable) && clockHand == old(clockHand)
        && stats == old(stats).(hits := old(stats).hits + 1)
        && var f := old(frames)[r.value];
        frames == old(frames)[r.value := f.(pins := f.pins + 1, referenced := true)]
      ensures r.Ok? && pageId !in old(pageTable) ==>
        Taken(old(frames), old(clockHand), r.value, frames, clockHand) && stats == CountMiss(old(stats), old(frames)[r.value])
      ensures r.Err? ==> stats == old(stats)
    {
      hide ValidImage, PageId, Taken;
      if pageId in pageTable {
        var i := pageTable[pageId];
        assert EntryOk(frames, pageTable, pageId);
        assert FrameOk(frames, pageTable, heap.pages, i);
        var pinned := frames[i].(pins := frames[i].pins + 1, referenced := true);
        LogicalRetagged(frames, i, pinned, pageTable, heap.pages);
        frames := frames[i := pinned];
        stats := stats.(hits := stats.hits + 1);
        return Ok(i);
      }
      r := Load(pageId);
    }

    /** The miss path of fetch. */
    method Load(pageId: nat) returns (r: Result<nat>)
      requires Valid() && pageId !in pageTable
      modifies this, heap
      ensures Valid() && Pages() == old(Pages())
      ensures r.Ok? <==> Available(old(frames)) && pageId < |old(heap.pages)|
      ensures r.Ok? ==> && PinnedAt(old(frames), frames, r.value) && pageId < |Pages()|
                        && frames[r.value].page == Some(Pages()[pageId])
      ensures r.Err? ==> && SameHolding(old(frames), frames) && pageTable == old(pageTable)
                         && r.error == if Available(old(frames)) then OutOfRange else BufferPoolExhausted
      ensures stats.hits == old(stats).hits
      ensures r.Ok? ==> Taken(old(frames), old(clockHand), r.value, frames, clockHand)
                        && stats == CountMiss(old(stats), old(frames)[r.value])
      ensures r.Err? ==> stats == old(stats)
    {
      hide ValidImage, PageId, TableOk, ClockTakes, ClockLeaves;
      var victim := TakeVictim();
      if victim.Err? {
        return victim;
      }
      ghost var left := frames;
      var incoming := heap.ReadPage(pageId);
      if incoming.Err? {
        return Err(incoming.error);
      }
      assert incoming.value == Pages()[pageId];
      FlushFrame(victim.value);
      ResidentOrStored(frames, pageTable, heap.pages, pageId);
      Install(victim.value, incoming.value);
      stats := stats.(misses := stats.misses + 1);
      r := Ok(victim.value);
      assert frames == left[victim.value := frames[victim.value]];
    }

    /** Extends the file by an empty page and pins it. */
    method Allocate() returns (r: Result<nat>)
      requires Valid() && |heap.pages| < MAX_PAGES
      modifies this, heap
      ensures Valid()
      ensures r.Ok? <==> Available(old(frames))
      ensures r.Ok? ==> && PinnedAt(old(frames), frames, r.value) && frames[r.value].page.Some?
                        && var image := frames[r.value].page.value;
                           && Pages() == old(Pages()) + [image]
                           && ValidImage(image) && RecordsOf(image) == [] && PageId(image) == |old(Pages())|
      ensures r.Ok? ==> Taken(old(frames), old(clockHand), r.value, frames, clockHand)
                        && stats == CountMiss(old(stats), old(frames)[r.value])
      ensures r.Err? ==> stats == old(stats)
      ensures r.Err? ==> && SameHolding(old(frames), frames) && Pages() == old(Pages())
                         && r.error == BufferPoolExhausted
    {
      hide ValidImage, PageId, TableOk, RecordsOf, ClockTakes, ClockLeaves;
      var victim := TakeVictim();
      if victim.Err? {
        return victim;
      }
      ghost var left := frames;
      FlushFrame(victim.value);
      ghost var pages := heap.pages;
      var image := heap.AllocatePage();
      LogicalGrown(frames, pageTable, pages, image);
      Install(victim.value, image);
      stats := stats.(misses := stats.misses + 1);
      r := Ok(victim.value);
      assert frames == left[victim.value := frames[victim.value]];
    }

    method Unpin(i: nat)
      requires Valid() && i < |frames| && frames[i].page.Some?
      modifies this
      ensures Valid() && Pages() == old(Pages()) && pageTable == old(pageTable)
      ensures frames == old(frames)[i := old(frames)[i].(pins := if old(frames)[i].pins > 0 then old(frames)[i].pins - 1 else 0)]
    {
      if frames[i].pins > 0 {
        var released := frames[i].(pins := frames[i].pins - 1);
        LogicalRetagged(frames, i, released, pageTable, heap.pages);
        frames := frames[i := released];
      }
    }

    /** Hands out the page of a pinned frame for writing, and marks the frame dirty first. */
    method MutablePage(i: nat) returns (page: SlottedPage)
      requires Valid() && i < |frames| && frames[i].page.Some?
      modifies this
      ensures Valid() && Pages() == old(Pages()) && pageTable == old(pageTable)
      ensures frames == old(frames)[i := old(frames)[i].(dirty := true)]
      ensures fresh(page) && fresh(page.bytes) && page.Valid() && page.bytes[..] == frames[i].page.value
    {
      assert FrameOk(frames, pageTable, heap.pages, i);
      var marked := frames[i].(dirty := true);
      LogicalRetagged(frames, i, marked, pageTable, heap.pages);
      frames := frames[i := marked];
      page := new SlottedPage.FromImage(frames[i].page.value);
    }

    /** The edited page is the new content of the frame. */
    method StorePage(i: nat, page: SlottedPage)
      requires Valid() && i < |frames| && frames[i].page.Some? && frames[i].dirty
      requires page.Valid() && page.Id() == PageId(frames[i].page.value)
      modifies this
      ensures Valid() && page.Id() < |old(Pages())|
      ensures Pages() == old(Pages())[page.Id() := page.bytes[..]]
      ensures frames == old(frames)[i := old(frames)[i].(page := Some(page.bytes[..]))]
      ensures pageTable == old(pageTable)
    {
      LogicalCommitted(frames, pageTable, heap.pages, i, page.bytes[..]);
      frames := frames[i := frames[i].(page := Some(page.bytes[..]))];
    }

    method Flush(pageId: nat)
      requires Valid()
      modifies this, heap
      ensures Valid() && Pages() == old(Pages()) && pageTable == old(pageTable)
      ensures pageId < |Pages()| ==> heap.pages[pageId] == Pages()[pageId]
    {
      hide ValidImage, PageId;
      if pageId in pageTable {
        assert EntryOk(frames, pageTable, pageId);
        FlushFrame(pageTable[pageId]);
        assert EntryOk(frames, pageTable, pageId);
        assert FrameOk(frames, pageTable, heap.pages, pageTable[pageId]);
      }
    }

    /** Afterwards the file holds exactly what readers of the pool see. */
    method FlushAll()
      requires Valid()
      modifies this, heap
      ensures Valid() && Pages() == old(Pages()) && pageTable == old(pageTable)
      ensures heap.pages == Pages()
    {
      hide TableOk;
      for i := 0 to |frames|
        invariant Valid() && Pages() == old(Pages()) && pageTable == old(pageTable)
        invariant |frames| == |old(frames)|
        invariant forall j :: 0 <= j < i ==> !frames[j].dirty
      {
        FlushFrame(i);
      }
      CleanIsStored(frames, pageTable, heap.pages);
    }
  }

  /** Pins and bits of a frame may change as long as a dirty frame stays dirty. */
  lemma LogicalRetagged(frames: seq<Frame>, i: nat, f: Frame, table: map<nat, nat>, pages: seq<Image>)
    requires TableOk(frames, table, pages) && i < |frames|
    requires f.page.Some? && f.page == frames[i].page && (frames[i].dirty ==> f.dirty)
    ensures TableOk(frames[i := f], table, pages)
    ensures Logical(frames[i := f], table, pages) == Logical(frames, table, pages)
  {
    hide ValidImage, PageId;
    var now := frames[i := f];
    forall j | 0 <= j < |now|
      ensures FrameOk(now, table, pages, j)
    {
      assert FrameOk(frames, table, pages, j);
    }
    forall p | p in table
      ensures EntryOk(now, table, p)
    {
      assert EntryOk(frames, table, p);
    }
  }

  lemma VictimUnpinned(frames: seq<Frame>, table: map<nat, nat>, pages: seq<Image>, i: nat)
    requires TableOk(frames, table, pages) && i < |frames| && Evictable(frames[i])
    ensures frames[i].pins == 0
  {
    assert FrameOk(frames, table, pages, i);
  }

  /** A page that is not resident is seen as it is stored. */
  lemma ResidentOrStored(frames: seq<Frame>, table: map<nat, nat>, pages: seq<Image>, p: nat)
    requires TableOk(frames, table, pages) && p < |pages| && p !in table
    ensures Logical(frames, table, pages)[p] == pages[p]
  {
  }

  lemma CleanIsStored(frames: seq<Frame>, table: map<nat, nat>, pages: seq<Image>)
    requires TableOk(frames, table, pages)
    requires forall j :: 0 <= j < |frames| ==> !frames[j].dirty
    ensures Logical(frames, table, pages) == pages
  {
    hide ValidImage, PageId;
    forall p | 0 <= p < |pages|
      ensures Resolve(frames, table, pages, p) == pages[p]
    {
      if p in table {
        assert EntryOk(frames, table, p);
        assert FrameOk(frames, table, pages, table[p]);
      }
    }
  }

  lemma NextHand(hand: nat, n: nat)
    requires hand < n
    ensures (hand + 1) % n == if hand + 1 == n then 0 else hand + 1
  {
  }
}
