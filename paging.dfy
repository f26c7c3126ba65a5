/**
  The pagination arithmetic of buildFooter and the row loop: the number of
  pages, the window of page links around the current page, which arrows are
  live, the page drop-down list, and the running row numbers.
 */
module Paging {
  import opened Php
  import GridQuery

  /**
    `ceil(row_count / results_per_page)`; PHP stops with a division by zero
    when the number of results per page is 0.
   */
  function PageCount(rowCount: int, rpp: int): (pages: int)
    requires rpp != 0
    ensures rpp > 0 ==> (pages - 1) * rpp < rowCount <= pages * rpp
    ensures rpp < 0 ==> pages * rpp <= rowCount < (pages - 1) * rpp
  {
    if rpp > 0 then -((-rowCount) / rpp) else CeilNegative(rowCount, rpp)
  }

  /** The ceiling of `rowCount / rpp` for a negative divisor. */
  function CeilNegative(rowCount: int, rpp: int): (pages: int)
    requires rpp < 0
    ensures pages * rpp <= rowCount < (pages - 1) * rpp
  {
    var q := rowCount / (-rpp);
    assert q * (-rpp) <= rowCount < (q + 1) * (-rpp);
    assert (-q) * rpp == q * (-rpp) && (-q - 1) * rpp == (q + 1) * (-rpp);
    -q
  }

  /** No rows make no pages, any row makes at least one, and the last page is never empty. */
  lemma PageCountCases(rowCount: int, rpp: int)
    requires rpp > 0 && rowCount >= 0
    ensures PageCount(rowCount, rpp) >= 0
    ensures PageCount(rowCount, rpp) == 0 <==> rowCount == 0
    ensures rowCount <= rpp ==> PageCount(rowCount, rpp) <= 1
    ensures rowCount > rpp ==> PageCount(rowCount, rpp) >= 2
  {
    var pages := PageCount(rowCount, rpp);
    ScaleOrder(pages, 0, rpp);
    ScaleOrder(pages, 1, rpp);
    ScaleOrder(pages - 1, 1, rpp);
    ScaleOrder(pages - 1, 0, rpp);
  }

  /** Multiplying by a positive number keeps the order of two integers. */
  lemma ScaleOrder(a: int, b: int, r: int)
    requires r > 0
    ensures a <= b <==> a * r <= b * r
    ensures a < b <==> a * r < b * r
  {
    assert a * r - b * r == (a - b) * r;
  }

  /** The first page of the window: ten before the current one, but not before page 1. */
  function WindowStart(page: int): int
  {
    if page > 10 then page - 10 else 1
  }

  /** The last page of the window: ten after the current one, but not after the last page. */
  function WindowEnd(page: int, pages: int): int
  {
    if pages - 10 > page then page + 10 else pages
  }

  /**
    For a current page within range, the window is [max(1, page-10),
    min(page+10, pages)]: it lies within the pages, holds the current page,
    and is at most 21 pages wide.
   */
  lemma WindowBounds(page: int, pages: int)
    requires 1 <= page <= pages
    ensures WindowStart(page) == (if page - 10 > 1 then page - 10 else 1)
    ensures WindowEnd(page, pages) == (if page + 10 < pages then page + 10 else pages)
    ensures 1 <= WindowStart(page) <= page <= WindowEnd(page, pages) <= pages
    ensures WindowEnd(page, pages) - WindowStart(page) + 1 <= 21
  {
  }

  /** One entry of the page window: the current page as text, any other as a link. */
  datatype PageEntry = Current(number: int) | PageLink(number: int)

  /** The page window: one entry per page from its start to its end, in order, the current page as text. */
  function Window(page: int, pages: int): (w: seq<PageEntry>)
    ensures |w| == if WindowEnd(page, pages) >= WindowStart(page) then WindowEnd(page, pages) - WindowStart(page) + 1 else 0
    ensures forall k :: 0 <= k < |w| ==> w[k].number == WindowStart(page) + k
    ensures forall k :: 0 <= k < |w| ==> (w[k].Current? <==> w[k].number == page)
  {
    var start, end := WindowStart(page), WindowEnd(page, pages);
    seq(if end >= start then end - start + 1 else 0, k => if start + k == page then Current(start + k) else PageLink(start + k))
  }

  /** The loop over the window builds the page window. */
  method PageWindow(page: int, pages: int) returns (entries: seq<PageEntry>)
    ensures entries == Window(page, pages)
  {
    var start, end := WindowStart(page), WindowEnd(page, pages);
    entries := [];
    var i := start;
    while i <= end
      invariant start <= i && (i <= end + 1 || i == start)
      invariant |entries| == i - start
      invariant forall k :: 0 <= k < |entries| ==> entries[k].number == start + k
      invariant forall k :: 0 <= k < |entries| ==> (entries[k].Current? <==> start + k == page)
      decreases end - i
    {
      if i == page {
        entries := entries + [Current(i)];
      } else {
        entries := entries + [PageLink(i)];
      }
      i := i + 1;
    }
    var w := Window(page, pages);
    assert forall k :: 0 <= k < |w| ==> entries[k] == w[k];
  }

  /**
    For a page within range the window shows the current page exactly once,
    only pages that exist, and at most 21 of them.
   */
  lemma PageWindowCurrentOnce(page: int, pages: int)
    requires 1 <= page <= pages
    ensures var w := Window(page, pages);
      && |w| <= 21
      && (exists k :: 0 <= k < |w| && w[k] == Current(page))
      && (forall k, j :: 0 <= k < |w| && 0 <= j < |w| && w[k].Current? && w[j].Current? ==> k == j)
      && (forall k :: 0 <= k < |w| ==> 1 <= w[k].number <= pages)
  {
    WindowBounds(page, pages);
    var w := Window(page, pages);
    var k := page - WindowStart(page);
    assert w[k].Current? && w[k].number == page;
  }

  /** One option of the page drop-down list. */
  datatype PageOption = PageOption(number: int, selected: bool)

  /** The page drop-down list: pages 1 to `pages`, the current one selected. */
  function Options(page: int, pages: int): (os: seq<PageOption>)
    ensures |os| == if pages >= 1 then pages else 0
    ensures forall k :: 0 <= k < |os| ==> os[k].number == k + 1 && (os[k].selected <==> k + 1 == page)
  {
    seq(if pages >= 1 then pages else 0, k => PageOption(k + 1, k + 1 == page))
  }

  /** The loop over the drop-down list builds the page list. */
  method PageOptions(page: int, pages: int) returns (options: seq<PageOption>)
    ensures options == Options(page, pages)
  {
    options := [];
    var x := 1;
    while x <= pages
      invariant 1 <= x && (x <= pages + 1 || x == 1)
      invariant |options| == x - 1
      invariant forall k :: 0 <= k < |options| ==> options[k] == PageOption(k + 1, k + 1 == page)
      decreases pages - x
    {
      options := options + [PageOption(x, x == page)];
      x := x + 1;
    }
  }

  /** For a page within range exactly one option, the current page's, is selected. */
  lemma OptionsSelectOne(page: int, pages: int)
    requires 1 <= page <= pages
    ensures var os := Options(page, pages);
      && os[page - 1].selected
      && forall k :: 0 <= k < |os| && os[k].selected ==> k == page - 1
  {
  }

  /** The navigation cell: whether first/previous and next/last are links, and the page window. */
  datatype Nav = Nav(firstPrev: bool, window: seq<PageEntry>, nextLast: bool)

  /** The "Page … of …" cell: nothing, the drop-down list, or the plain page number. */
  datatype Indicator = NoIndicator | PageList(options: seq<PageOption>, pages: int) | PageText(page: int, pages: int)

  /** The footer row: its column span, the result count, the shown range, the navigation and the page indicator. */
  datatype Footer = Footer(colspan: int, found: int, shown: Option<(int, int)>, nav: Option<Nav>, indicator: Indicator)

  /**
    The footer buildFooter lays out past the hide_footer test. It spans the
    columns and reports the count; it shows the first and last rows when
    there are rows; the navigation appears when the rows exceed a page, with
    first/previous live past page 1 and next/last live before the last page;
    the page list appears when there are several pages and it is not
    hidden, else the page number, and neither when there are no pages.
   */
  function FooterOf(columnCount: int, rowCount: int, rpp: int, page: int, hidePageList: bool, first: int, last: int): (f: Footer)
    requires rpp != 0
    ensures f.colspan == columnCount && f.found == rowCount
    ensures f.shown.Some? <==> rowCount > 0
    ensures f.shown.Some? ==> f.shown.value == (first, last)
    ensures f.nav.Some? <==> rowCount > rpp
    ensures f.nav.Some? ==> (f.nav.value.firstPrev <==> page > 1)
    ensures f.nav.Some? ==> (f.nav.value.nextLast <==> page < PageCount(rowCount, rpp))
    ensures f.nav.Some? ==> f.nav.value.window == Window(page, PageCount(rowCount, rpp))
    ensures var pages := PageCount(rowCount, rpp);
      && (f.indicator.NoIndicator? <==> pages <= 0)
      && (f.indicator.PageList? <==> pages > 0 && !hidePageList && pages > 1)
      && (f.indicator.PageList? ==> f.indicator == PageList(Options(page, pages), pages))
      && (f.indicator.PageText? ==> f.indicator == PageText(page, pages))
  {
    var pages := PageCount(rowCount, rpp);
    Footer(columnCount, rowCount,
      if rowCount > 0 then Some((first, last)) else None,
      if rowCount > rpp then Some(Nav(page > 1, Window(page, pages), page < pages)) else None,
      if pages <= 0 then NoIndicator
      else if !hidePageList && pages > 1 then PageList(Options(page, pages), pages)
      else PageText(page, pages))
  }

  /** buildFooter, past the hide_footer test. */
  method BuildFooter(columnCount: int, rowCount: int, rpp: int, page: int, hidePageList: bool, first: int, last: int)
    returns (f: Footer)
    requires rpp != 0
    ensures f == FooterOf(columnCount, rowCount, rpp, page, hidePageList, first, last)
  {
    var pages := PageCount(rowCount, rpp);
    var shown := if rowCount > 0 then Some((first, last)) else None;
    var nav: Option<Nav> := None;
    if rowCount > rpp {
      var window := PageWindow(page, pages);
      nav := Some(Nav(page > 1, window, page < pages));
    }
    var indicator := NoIndicator;
    if pages > 0 {
      if !hidePageList && pages > 1 {
        var options := PageOptions(page, pages);
        indicator := PageList(options, pages);
      } else {
        indicator := PageText(page, pages);
      }
    }
    f := Footer(columnCount, rowCount, shown, nav, indicator);
  }

  /**
    The first-row number the row loop keeps after `i` rows: it is set from
    the row number while it is still 0.
   */
  function FirstShown(page: int, rpp: int, i: nat): int
  {
    if i == 0 then 0
    else if FirstShown(page, rpp, i - 1) == 0 then RowNumber(page, rpp, i - 1)
    else FirstShown(page, rpp, i - 1)
  }

  /** The last-row number the row loop keeps after `i` rows: the number of the last of them, 0 before any. */
  function LastShown(page: int, rpp: int, i: nat): int
  {
    if i == 0 then 0 else RowNumber(page, rpp, i - 1)
  }

  /** On any page of a non-negative page size the row loop's first-row number is the number of the page's first row. */
  lemma {:induction false} FirstShownIsFirstRow(page: int, rpp: int, i: nat)
    requires page >= 1 && rpp >= 0 && i > 0
    ensures RowNumber(page, rpp, 0) >= 1
    ensures FirstShown(page, rpp, i) == RowNumber(page, rpp, 0)
  {
    if rpp > 0 {
      ScaleOrder(0, page - 1, rpp);
    }
    if i > 1 {
      FirstShownIsFirstRow(page, rpp, i - 1);
    }
  }

  /** The row number shown for the `i`-th row (from 0) of a page. */
  function RowNumber(page: int, rpp: int, i: int): int
  {
    if page == 1 then i + 1 else i + 1 + (page - 1) * rpp
  }

  /**
    Both branches of the row number agree with the LIMIT offset: the `i`-th
    row of a page is row `offset + i + 1` of the whole result, so the rows
    of consecutive pages are numbered without gap or overlap.
   */
  lemma RowNumberFollowsLimit(page: int, rpp: int, i: int)
    ensures RowNumber(page, rpp, i) == GridQuery.LimitOf(page, rpp).low + i + 1
    ensures RowNumber(page + 1, rpp, 0) == RowNumber(page, rpp, rpp - 1) + 1
  {
    GridQuery.LimitOfNextPage(page, rpp);
  }
}
