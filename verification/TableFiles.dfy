/** `TableFile`: the file as the growing sequence of its pages, written back whole. */
module TableFiles {
  import opened PageImage
  import opened PageViews
  import opened Pages
  import opened Wrappers

  datatype TableFileError = FailedToReadPage

  const ZeroPage: Image := seq(PAGE_SIZE, _ => 0)

  class TableFile {
    var pages: seq<Image>

    /** A new file, with its page 0 reserved as CREATE TABLE leaves it. */
    constructor ()
      ensures |pages| == 1 && WellFormed(pages[0]) && ViewOf(pages[0]) == EmptyView
    {
      pages := [];
      new;
      var reserved := AllocatePage();
    }

    method NumPages() returns (n: nat)
      ensures n == |pages|
    {
      n := |pages|;
    }

    /** A copy of one page in memory; reading beyond the end of the file fails. */
    method ReadPage(pageId: nat) returns (r: Result<Page, TableFileError>)
      ensures r.Ok? <==> pageId < |pages|
      ensures r.Ok? ==>
        && fresh(r.value) && fresh(r.value.data)
        && r.value.pageId == pageId
        && r.value.data[..] == pages[pageId]
    {
      if pageId >= |pages| {
        return Err(FailedToReadPage);
      }
      var page := new Page();
      var image := pages[pageId];
      forall k | 0 <= k < PAGE_SIZE {
        page.data[k] := image[k];
      }
      page.pageId := pageId;
      assert page.data[..] == image;
      return Ok(page);
    }

    /** Overwrites one page; beyond the end the file grows, with zeros in between. */
    method WritePage(page: Page)
      requires page.data.Length == PAGE_SIZE
      modifies this
      ensures page.pageId < |old(pages)| ==> pages == old(pages)[page.pageId := page.data[..]]
      ensures page.pageId >= |old(pages)| ==>
        pages == old(pages) + seq(page.pageId - |old(pages)|, _ => ZeroPage) + [page.data[..]]
    {
      if page.pageId < |pages| {
        pages := pages[page.pageId := page.data[..]];
      } else {
        pages := pages + seq(page.pageId - |pages|, _ => ZeroPage) + [page.data[..]];
      }
    }

    /** Appends an empty page and returns its number. */
    method AllocatePage() returns (pageId: nat)
      modifies this
      ensures pageId == |old(pages)|
      ensures |pages| == |old(pages)| + 1 && pages[..pageId] == old(pages)
      ensures WellFormed(pages[pageId]) && ViewOf(pages[pageId]) == EmptyView
    {
      pageId := |pages|;
      var page := new Page();
      page.Init(pageId);
      pages := pages + [page.data[..]];
    }
  }
}
