/** The heap file as a sequence of page images. */
module HeapFiles {
  import opened Wrappers
  import opened PageFormat
  import opened SlottedPages

  const MAX_PAGES := 0xFFFF_FFFF

  class HeapFile {
    var pages: seq<Image>

    ghost predicate Valid()
      reads this
    {
      && |pages| <= MAX_PAGES
      && forall p :: 0 <= p < |pages| ==> ValidImage(pages[p]) && PageId(pages[p]) == p
    }

    constructor ()
      ensures Valid() && pages == []
    {
      pages := [];
    }

    /** A stored page is accepted only if it validates and carries the id of its position. */
    method ReadPage(pageId: nat) returns (r: Result<Image>)
      ensures r == if pageId >= |pages| then Err(OutOfRange)
                   else if ValidImage(pages[pageId]) && PageId(pages[pageId]) == pageId
                   then Ok(pages[pageId]) else Err(PageCorruption)
    {
      if pageId >= |pages| {
        return Err(OutOfRange);
      }
      var page := SlottedPage.FromBytes(pages[pageId]);
      if page.Err? {
        return Err(page.error);
      }
      var id := page.value.Field(PAGE_ID_AT, 4);
      r := if id != pageId then Err(PageCorruption) else Ok(page.value.bytes[..]);
    }

    method WritePage(image: Image) returns (r: Result<()>)
      modifies this
      ensures r.Ok? <==> PageId(image) < |old(pages)| && ValidImage(image)
      ensures pages == if r.Ok? then old(pages)[PageId(image) := image] else old(pages)
    {
      var page := new SlottedPage.FromImage(image);
      var id := page.Field(PAGE_ID_AT, 4);
      if id >= |pages| {
        return Err(OutOfRange);
      }
      var ok := page.Validate();
      if !ok {
        return Err(PageCorruption);
      }
      pages := pages[id := image];
      r := Ok(());
    }

    method AllocatePage() returns (image: Image)
      requires Valid() && |pages| < MAX_PAGES
      modifies this
      ensures Valid() && pages == old(pages) + [image]
      ensures ValidImage(image) && PageId(image) == |old(pages)| && RecordsOf(image) == []
    {
      hide ValidImage, PageId;
      var page := new SlottedPage.Initialize(|pages|);
      image := page.bytes[..];
      assert ValidImage(image) && PageId(image) == |pages|;
      pages := pages + [image];
    }
  }
}
