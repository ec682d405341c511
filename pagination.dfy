/**
 * The page bar under the feed (`Pagination`): the list of page numbers with ellipses for the
 * pages it skips, and the "previous" and "next" buttons.
 */
module Pagination {
  import opened Wrappers

  /** An entry of the page list: a page number, or the `'ellipsis'` marker. */
  datatype PageItem = Number(n: int) | Ellipsis

  /** Up to this many pages are all listed; beyond it the list uses ellipses. */
  const MaxListed := 7

  /** The page numbers `lo` to `hi`, in order. */
  function Run(lo: int, hi: int): (r: seq<PageItem>)
    ensures |r| == if hi < lo then 0 else hi - lo + 1
    ensures forall k :: 0 <= k < |r| ==> r[k] == Number(lo + k)
  {
    if hi < lo then [] else seq(hi - lo + 1, k requires 0 <= k <= hi - lo => Number(lo + k))
  }

  /**
   * The list `renderPageNumbers` builds: every page when there are at most seven; otherwise
   * the first five, the last five, or the current page with its two neighbours, with the
   * first and last page and an ellipsis for each gap.
   */
  function PageList(currentPage: int, totalPages: int): (r: seq<PageItem>)
    ensures |r| <= MaxListed
    ensures forall k :: 0 <= k < |r| && r[k].Number? ==> 1 <= r[k].n <= totalPages
  {
    if totalPages > MaxListed then
      if currentPage <= 4 then Run(1, 5) + [Ellipsis, Number(totalPages)]
      else if currentPage >= totalPages - 3 then [Number(1), Ellipsis] + Run(totalPages - 4, totalPages)
      else [Number(1), Ellipsis] + Run(currentPage - 1, currentPage + 1) + [Ellipsis, Number(totalPages)]
    else Run(1, totalPages)
  }

  /** `renderPageNumbers`: the `pages` array, filled by `push` in each branch's loops. */
  method RenderPageNumbers(currentPage: int, totalPages: int) returns (pages: seq<PageItem>)
    ensures pages == PageList(currentPage, totalPages)
  {
    pages := [];
    var showEllipsis := totalPages > MaxListed;
    if showEllipsis {
      if currentPage <= 4 {
        var i := 1;
        while i <= 5
          invariant 1 <= i <= 6
          invariant pages == Run(1, i - 1)
        {
          pages := pages + [Number(i)];
          i := i + 1;
        }
        pages := pages + [Ellipsis];
        pages := pages + [Number(totalPages)];
        assert pages == Run(1, 5) + [Ellipsis, Number(totalPages)];
      } else if currentPage >= totalPages - 3 {
        pages := pages + [Number(1)];
        pages := pages + [Ellipsis];
        var i := totalPages - 4;
        while i <= totalPages
          invariant totalPages - 4 <= i <= totalPages + 1
          invariant pages == [Number(1), Ellipsis] + Run(totalPages - 4, i - 1)
        {
          pages := pages + [Number(i)];
          i := i + 1;
        }
      } else {
        pages := pages + [Number(1)];
        pages := pages + [Ellipsis];
        var i := currentPage - 1;
        while i <= currentPage + 1
          invariant currentPage - 1 <= i <= currentPage + 2
          invariant pages == [Number(1), Ellipsis] + Run(currentPage - 1, i - 1)
        {
          pages := pages + [Number(i)];
          i := i + 1;
        }
        pages := pages + [Ellipsis];
        pages := pages + [Number(totalPages)];
        assert pages == [Number(1), Ellipsis] + Run(currentPage - 1, currentPage + 1) + [Ellipsis, Number(totalPages)];
      }
    } else {
      var i := 1;
      while i <= totalPages
        invariant 1 <= i <= if totalPages >= 1 then totalPages + 1 else 1
        invariant pages == Run(1, i - 1)
      {
        pages := pages + [Number(i)];
        i := i + 1;
      }
    }
  }

  /** With more than seven pages the list always has seven entries, from page 1 to the last page. */
  lemma PageListShape(currentPage: int, totalPages: int)
    requires totalPages > MaxListed
    ensures var r := PageList(currentPage, totalPages);
      |r| == 7 && r[0] == Number(1) && r[6] == Number(totalPages)
  {
  }

  /** With at most seven pages the list is every page in order. */
  lemma PageListAll(currentPage: int, totalPages: int)
    requires totalPages <= MaxListed
    ensures var r := PageList(currentPage, totalPages);
      (totalPages >= 0 ==> |r| == totalPages) && forall k :: 0 <= k < |r| ==> r[k] == Number(k + 1)
  {
  }

  /**
   * The numbers of `r` are pages up to `totalPages`, listed in increasing order; neighbouring
   * numbers are consecutive pages, and an ellipsis stands between two numbers with at least
   * one page between them.
   */
  predicate Ordered(r: seq<PageItem>, totalPages: int) {
    (forall k :: 0 <= k < |r| && r[k].Number? ==> 1 <= r[k].n <= totalPages)
    && (forall k :: 0 <= k < |r| - 1 && r[k].Number? && r[k + 1].Number? ==> r[k + 1].n == r[k].n + 1)
    && (forall k :: 0 <= k < |r| && r[k].Ellipsis? ==>
          0 < k < |r| - 1 && r[k - 1].Number? && r[k + 1].Number? && r[k + 1].n > r[k - 1].n + 1)
  }

  /** A list of seven entries with ellipses at the given places and the given numbers elsewhere. */
  lemma SevenOrdered(r: seq<PageItem>, totalPages: int)
    requires |r| == 7 && totalPages > MaxListed
    requires r[0] == Number(1) && r[6] == Number(totalPages)
    requires forall k :: 0 <= k < 7 && r[k].Number? ==> 1 <= r[k].n <= totalPages
    requires forall k :: 0 <= k < 6 && r[k].Number? && r[k + 1].Number? ==> r[k + 1].n == r[k].n + 1
    requires forall k :: 0 < k < 6 && r[k].Ellipsis? ==> r[k - 1].Number? && r[k + 1].Number? && r[k + 1].n > r[k - 1].n + 1
    ensures Ordered(r, totalPages)
  {
  }

  /** Every page list is ordered. */
  lemma PageListOrdered(currentPage: int, totalPages: int)
    ensures Ordered(PageList(currentPage, totalPages), totalPages)
  {
    var r := PageList(currentPage, totalPages);
    if totalPages > MaxListed {
      var t, c := totalPages, currentPage;
      if c <= 4 {
        assert r == [Number(1), Number(2), Number(3), Number(4), Number(5), Ellipsis, Number(t)];
      } else if c >= t - 3 {
        assert r == [Number(1), Ellipsis, Number(t - 4), Number(t - 3), Number(t - 2), Number(t - 1), Number(t)];
      } else {
        assert r == [Number(1), Ellipsis, Number(c - 1), Number(c), Number(c + 1), Ellipsis, Number(t)];
      }
      SevenOrdered(r, t);
    }
  }

  /** The current page and its neighbours, where they are pages, are always listed. */
  lemma PageListShowsCurrent(currentPage: int, totalPages: int)
    requires 1 <= currentPage <= totalPages
    ensures Number(currentPage) in PageList(currentPage, totalPages)
    ensures currentPage > 1 ==> Number(currentPage - 1) in PageList(currentPage, totalPages)
    ensures currentPage < totalPages ==> Number(currentPage + 1) in PageList(currentPage, totalPages)
  {
    var r := PageList(currentPage, totalPages);
    if totalPages > MaxListed {
      if currentPage <= 4 {
        assert r[currentPage - 1] == Number(currentPage);
        assert r[currentPage] == Number(currentPage + 1);
        if currentPage > 1 {
          assert r[currentPage - 2] == Number(currentPage - 1);
        }
      } else if currentPage >= totalPages - 3 {
        var k := currentPage - totalPages + 6;
        assert r[k] == Number(currentPage);
        assert r[k - 1] == Number(currentPage - 1);
        if currentPage < totalPages {
          assert r[k + 1] == Number(currentPage + 1);
        }
      } else {
        assert r[2] == Number(currentPage - 1) && r[3] == Number(currentPage) && r[4] == Number(currentPage + 1);
      }
    } else {
      assert r[currentPage - 1] == Number(currentPage);
      if currentPage > 1 {
        assert r[currentPage - 2] == Number(currentPage - 1);
      }
      if currentPage < totalPages {
        assert r[currentPage] == Number(currentPage + 1);
      }
    }
  }

  /** What the component renders: the "previous" button's state, the page list, the "next" button's state. */
  datatype Bar = Bar(previousDisabled: bool, pages: seq<PageItem>, nextDisabled: bool)

  /**
   * `Pagination`: nothing for at most one page; otherwise the bar, with "previous" disabled
   * on the first page only and "next" on the last page only. From a page in range, an
   * enabled button leads to a page in range.
   */
  function Render(currentPage: int, totalPages: int): (b: Option<Bar>)
    ensures b.Some? <==> totalPages >= 2
    ensures b.Some? ==>
      (b.value.previousDisabled <==> currentPage == 1)
      && (b.value.nextDisabled <==> currentPage == totalPages)
      && b.value.pages == PageList(currentPage, totalPages)
    ensures b.Some? && 1 <= currentPage <= totalPages ==>
      (!b.value.previousDisabled ==> 1 <= currentPage - 1)
      && (!b.value.nextDisabled ==> currentPage + 1 <= totalPages)
  {
    if totalPages <= 1 then None
    else Some(Bar(currentPage == 1, PageList(currentPage, totalPages), currentPage == totalPages))
  }

  /**
   * The bar shown for a page in range lists that page, and the pages its enabled buttons
   * lead to.
   */
  lemma RenderShowsCurrent(currentPage: int, totalPages: int)
    requires 1 <= currentPage <= totalPages && totalPages >= 2
    ensures var b := Render(currentPage, totalPages).value;
      Number(currentPage) in b.pages
      && (!b.previousDisabled ==> Number(currentPage - 1) in b.pages)
      && (!b.nextDisabled ==> Number(currentPage + 1) in b.pages)
  {
    PageListShowsCurrent(currentPage, totalPages);
  }
}
