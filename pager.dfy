/**
 * The page store the engine works on: page buffers indexed by page number.
 * Only what the engine relies on is modelled: the buffer of a known page
 * number, and new page numbers issued at the end, never reused.
 */
module PagerModel {
  import opened Layout

  class Pager {
    /** The buffer of every page number below num_pages; num_pages is |pages|. */
    var pages: seq<array<byte>>

    /** An empty store: no page has been handed out yet. */
    constructor()
      ensures Valid() && pages == []
    {
      pages := [];
    }

    /** Each page is its own buffer of PAGE_SIZE bytes. */
    ghost predicate Valid()
      reads this
    {
      (forall i :: 0 <= i < |pages| ==> pages[i].Length == PAGE_SIZE) &&
      (forall i, j :: 0 <= i < j < |pages| ==> pages[i] != pages[j])
    }

    /** The bytes of every page. */
    ghost function Store(): (store: seq<seq<byte>>)
      reads this, pages
      ensures |store| == |pages|
      ensures forall i :: 0 <= i < |pages| ==> store[i] == pages[i][..]
    {
      seq(|pages|, i requires 0 <= i < |pages| reads this, pages => pages[i][..])
    }

    /** get_unused_page_num: until pages are reclaimed, a new page goes at the end. */
    function GetUnusedPageNum(): (pageNo: nat)
      reads this
      ensures pageNo >= |pages|
      ensures pageNo <= |pages|
    {
      |pages|
    }

    /**
     * get_page on the unused page number: a zero-filled page is added at the
     * end and the page count grows by one.
     */
    method AllocatePage() returns (pageNo: nat)
      requires Valid()
      modifies this
      ensures Valid()
      ensures pageNo == old(GetUnusedPageNum())
      ensures |pages| == pageNo + 1 && pages[..pageNo] == old(pages)
      ensures fresh(pages[pageNo])
      ensures Store() == old(Store()) + [ZeroPage()]
    {
      pageNo := GetUnusedPageNum();
      var page := new byte[PAGE_SIZE](_ => 0);
      assert page[..] == ZeroPage();
      pages := pages + [page];
      assert Store() == old(Store()) + [ZeroPage()];
    }
  }
}
