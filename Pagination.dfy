/** The pagination bar of the post listings: which page numbers it shows,
    where its links point and which of them are highlighted or disabled. */
module Pagination {
  import opened Decimal

  /** One slot of the bar: a page number or the `'...'` placeholder. */
  datatype PageEntry = Page(number: int) | Ellipsis

  /** `Array.from({ length: totalPages }, (_, i) => i + 1)`; a length that is
      not positive gives the empty array. */
  function Pages(totalPages: int): seq<int> {
    seq(if totalPages > 0 then totalPages else 0, i => i + 1)
  }

  function AsEntries(ns: seq<int>): seq<PageEntry> {
    seq(|ns|, i requires 0 <= i < |ns| => Page(ns[i]))
  }

  /** `getVisiblePages`: never more than seven slots, and exactly seven, from
      page 1 to the last page, once there are more than seven pages. */
  function VisiblePages(currentPage: int, totalPages: int): (es: seq<PageEntry>)
    ensures |es| <= 7
    ensures totalPages > 7 ==> |es| == 7 && es[0] == Page(1) && es[6] == Page(totalPages)
  {
    var pages := Pages(totalPages);
    if totalPages <= 7 then AsEntries(pages)
    else if currentPage <= 4 then AsEntries(pages[..5]) + [Ellipsis, Page(totalPages)]
    else if currentPage >= totalPages - 3 then [Page(1), Ellipsis] + AsEntries(pages[totalPages - 5..])
    else [Page(1), Ellipsis, Page(currentPage - 1), Page(currentPage), Page(currentPage + 1), Ellipsis, Page(totalPages)]
  }

  // ---------------------------------------------------------------------------
  // Shape of the bar

  /** A well-formed bar: it starts and ends with a page, the pages increase
      from left to right, neighbouring pages are consecutive, and each
      placeholder sits between two pages that are more than one apart, so it
      stands for at least one page left out. */
  predicate WellFormed(es: seq<PageEntry>) {
    (|es| > 0 ==> es[0].Page? && es[|es| - 1].Page?) &&
    (forall i, j :: 0 <= i < j < |es| && es[i].Page? && es[j].Page? ==> es[i].number < es[j].number) &&
    (forall i :: 0 <= i < |es| - 1 && es[i].Page? && es[i + 1].Page? ==> es[i + 1].number == es[i].number + 1) &&
    (forall i :: 0 <= i < |es| && es[i].Ellipsis? ==>
      0 < i < |es| - 1 && es[i - 1].Page? && es[i + 1].Page? && es[i + 1].number - es[i - 1].number > 1)
  }

  /** Up to seven pages are all shown, in order, with no placeholder. */
  lemma SmallBarShowsAllPages(currentPage: int, totalPages: int)
    requires totalPages <= 7
    ensures var es := VisiblePages(currentPage, totalPages);
      |es| == (if totalPages > 0 then totalPages else 0) &&
      forall i :: 0 <= i < |es| ==> es[i] == Page(i + 1)
  {
  }

  /** The three shapes of a bar over more than seven pages: near the start,
      near the end, and a window of three around the current page. */
  function HeadBar(totalPages: int): seq<PageEntry> {
    [Page(1), Page(2), Page(3), Page(4), Page(5), Ellipsis, Page(totalPages)]
  }

  function TailBar(totalPages: int): seq<PageEntry> {
    [Page(1), Ellipsis, Page(totalPages - 4), Page(totalPages - 3), Page(totalPages - 2),
     Page(totalPages - 1), Page(totalPages)]
  }

  function WindowBar(currentPage: int, totalPages: int): seq<PageEntry> {
    [Page(1), Ellipsis, Page(currentPage - 1), Page(currentPage), Page(currentPage + 1),
     Ellipsis, Page(totalPages)]
  }

  lemma HeadShape(currentPage: int, totalPages: int)
    requires totalPages > 7 && currentPage <= 4
    ensures VisiblePages(currentPage, totalPages) == HeadBar(totalPages)
  {
    assert AsEntries(Pages(totalPages)[..5]) == [Page(1), Page(2), Page(3), Page(4), Page(5)];
  }

  lemma TailShape(currentPage: int, totalPages: int)
    requires totalPages > 7 && 4 < currentPage && currentPage >= totalPages - 3
    ensures VisiblePages(currentPage, totalPages) == TailBar(totalPages)
  {
    assert AsEntries(Pages(totalPages)[totalPages - 5..]) ==
      [Page(totalPages - 4), Page(totalPages - 3), Page(totalPages - 2), Page(totalPages - 1), Page(totalPages)];
  }

  /** More than seven pages give exactly seven slots, from page 1 to the
      last, in one of the three shapes. */
  lemma LargeBarShape(currentPage: int, totalPages: int)
    requires totalPages > 7
    ensures var es := VisiblePages(currentPage, totalPages);
      |es| == 7 && es[0] == Page(1) && es[6] == Page(totalPages)
    ensures currentPage <= 4 ==> VisiblePages(currentPage, totalPages) == HeadBar(totalPages)
    ensures 4 < currentPage && currentPage >= totalPages - 3 ==>
      VisiblePages(currentPage, totalPages) == TailBar(totalPages)
    ensures 4 < currentPage < totalPages - 3 ==>
      VisiblePages(currentPage, totalPages) == WindowBar(currentPage, totalPages)
  {
    if currentPage <= 4 {
      HeadShape(currentPage, totalPages);
    } else if currentPage >= totalPages - 3 {
      TailShape(currentPage, totalPages);
    }
  }

  /** Consecutive numbered pages form a well-formed bar. */
  lemma RunWellFormed(ns: seq<int>, first: int)
    requires forall i :: 0 <= i < |ns| ==> ns[i] == first + i
    ensures WellFormed(AsEntries(ns))
  {
  }

  lemma HeadShapeWellFormed(totalPages: int)
    requires totalPages > 7
    ensures WellFormed(HeadBar(totalPages))
  {
  }

  lemma TailShapeWellFormed(totalPages: int)
    requires totalPages > 7
    ensures WellFormed(TailBar(totalPages))
  {
  }

  lemma WindowShapeWellFormed(currentPage: int, totalPages: int)
    requires 4 < currentPage < totalPages - 3
    ensures WellFormed(WindowBar(currentPage, totalPages))
  {
  }

  /** Every bar is well formed. */
  lemma BarWellFormed(currentPage: int, totalPages: int)
    ensures WellFormed(VisiblePages(currentPage, totalPages))
  {
    if totalPages <= 7 {
      RunWellFormed(Pages(totalPages), 1);
    } else if currentPage <= 4 {
      HeadShape(currentPage, totalPages);
      HeadShapeWellFormed(totalPages);
    } else if currentPage >= totalPages - 3 {
      TailShape(currentPage, totalPages);
      TailShapeWellFormed(totalPages);
    } else {
      WindowShapeWellFormed(currentPage, totalPages);
    }
  }

  /** The bar shows only pages from 1 to `totalPages`. */
  lemma BarNumbersInRange(currentPage: int, totalPages: int)
    ensures forall e :: e in VisiblePages(currentPage, totalPages) && e.Page? ==> 1 <= e.number <= totalPages
  {
    if totalPages > 7 {
      LargeBarShape(currentPage, totalPages);
    }
  }

  /** A valid current page is always on the bar. */
  lemma BarContainsCurrent(currentPage: int, totalPages: int)
    requires 1 <= currentPage <= totalPages
    ensures Page(currentPage) in VisiblePages(currentPage, totalPages)
  {
    var es := VisiblePages(currentPage, totalPages);
    if totalPages <= 7 {
      assert es[currentPage - 1] == Page(currentPage);
    } else {
      LargeBarShape(currentPage, totalPages);
    }
  }

  /** Every page from 1 to `totalPages` is either on the bar or strictly
      between the two pages around a placeholder. */
  lemma BarCoversAllPages(currentPage: int, totalPages: int, p: int)
    requires 1 <= p <= totalPages
    ensures var es := VisiblePages(currentPage, totalPages);
      Page(p) in es ||
      exists i :: 0 < i < |es| - 1 && es[i].Ellipsis? && es[i - 1].number < p < es[i + 1].number
  {
    var es := VisiblePages(currentPage, totalPages);
    if totalPages <= 7 {
      assert es[p - 1] == Page(p);
    } else {
      LargeBarShape(currentPage, totalPages);
      if currentPage <= 4 {
        if p <= 5 { assert es[p - 1] == Page(p); }
        else if p == totalPages { assert es[6] == Page(p); }
        else { assert es[5].Ellipsis? && es[4].number < p < es[6].number; }
      } else if currentPage >= totalPages - 3 {
        if p == 1 { assert es[0] == Page(p); }
        else if p >= totalPages - 4 { assert es[p - totalPages + 6] == Page(p); }
        else { assert es[1].Ellipsis? && es[0].number < p < es[2].number; }
      } else {
        if p == 1 { assert es[0] == Page(p); }
        else if p < currentPage - 1 { assert es[1].Ellipsis? && es[0].number < p < es[2].number; }
        else if p <= currentPage + 1 { assert es[p - currentPage + 3] == Page(p); }
        else if p < totalPages { assert es[5].Ellipsis? && es[4].number < p < es[6].number; }
        else { assert es[6] == Page(p); }
      }
    }
  }

  // ---------------------------------------------------------------------------
  // Links

  /** `${baseUrl}/${page}`. */
  function PageHref(baseUrl: string, page: int): (href: string)
    ensures href != "#"
  {
    baseUrl + "/" + IntToString(page)
  }

  /** The Previous link: one page back, or `'#'` on the first page and before it. */
  function PrevHref(currentPage: int, baseUrl: string): (href: string)
    ensures href == "#" <==> currentPage <= 1
  {
    if currentPage > 1 then PageHref(baseUrl, currentPage - 1) else "#"
  }

  /** The Next link: one page on, or `'#'` on the last page and after it. */
  function NextHref(currentPage: int, totalPages: int, baseUrl: string): (href: string)
    ensures href == "#" <==> currentPage >= totalPages
  {
    if currentPage < totalPages then PageHref(baseUrl, currentPage + 1) else "#"
  }

  predicate PrevDisabled(currentPage: int) {
    currentPage == 1
  }

  predicate NextDisabled(currentPage: int, totalPages: int) {
    currentPage == totalPages
  }

  /** A page link is told apart from `'#'` and names exactly one page. */
  lemma PageHrefDistinct(baseUrl: string, p: int, q: int)
    ensures PageHref(baseUrl, p) != "#"
    ensures PageHref(baseUrl, p) == PageHref(baseUrl, q) ==> p == q
  {
    var prefix := baseUrl + "/";
    assert |PageHref(baseUrl, p)| > |prefix| >= 1;
    if PageHref(baseUrl, p) == PageHref(baseUrl, q) {
      assert PageHref(baseUrl, p)[|prefix|..] == IntToString(p);
      assert PageHref(baseUrl, q)[|prefix|..] == IntToString(q);
      IntToStringInjective(p, q);
    }
  }

  /** On a valid page the Previous link is `'#'` exactly when it is disabled,
      and otherwise it leads to the page before. */
  lemma PrevLink(currentPage: int, totalPages: int, baseUrl: string)
    requires 1 <= currentPage <= totalPages
    ensures PrevHref(currentPage, baseUrl) == "#" <==> PrevDisabled(currentPage)
    ensures !PrevDisabled(currentPage) ==> PrevHref(currentPage, baseUrl) == PageHref(baseUrl, currentPage - 1)
  {
    PageHrefDistinct(baseUrl, currentPage - 1, currentPage - 1);
  }

  /** On a valid page the Next link is `'#'` exactly when it is disabled, and
      otherwise it leads to the page after. */
  lemma NextLink(currentPage: int, totalPages: int, baseUrl: string)
    requires 1 <= currentPage <= totalPages
    ensures NextHref(currentPage, totalPages, baseUrl) == "#" <==> NextDisabled(currentPage, totalPages)
    ensures !NextDisabled(currentPage, totalPages) ==>
      NextHref(currentPage, totalPages, baseUrl) == PageHref(baseUrl, currentPage + 1)
  {
    PageHrefDistinct(baseUrl, currentPage + 1, currentPage + 1);
  }

  /** What the bar renders for one slot: a placeholder span, or a link with
      its target and whether it is highlighted. */
  datatype Slot = Gap | Link(href: string, highlighted: bool)

  function RenderSlot(e: PageEntry, currentPage: int, baseUrl: string): Slot {
    match e
    case Ellipsis => Gap
    case Page(n) => Link(PageHref(baseUrl, n), currentPage == n)
  }

  /** The slots of the bar: a gap exactly where the bar has `'...'`, and
      otherwise a link to the page the bar shows in that position, which
      lies from 1 to `totalPages`, highlighted exactly when that page is the
      current one. */
  function RenderBar(currentPage: int, totalPages: int, baseUrl: string): (slots: seq<Slot>)
    ensures |slots| == |VisiblePages(currentPage, totalPages)|
    ensures forall i :: 0 <= i < |slots| ==> (slots[i].Gap? <==> VisiblePages(currentPage, totalPages)[i].Ellipsis?)
    ensures forall i :: 0 <= i < |slots| && slots[i].Link? ==>
      exists n :: 1 <= n <= totalPages && slots[i].href == PageHref(baseUrl, n) && (slots[i].highlighted <==> n == currentPage)
    ensures forall i :: 0 <= i < |slots| && VisiblePages(currentPage, totalPages)[i].Page? ==>
      var n := VisiblePages(currentPage, totalPages)[i].number;
      slots[i] == Link(PageHref(baseUrl, n), n == currentPage)
  {
    var es := VisiblePages(currentPage, totalPages);
    BarNumbersInRange(currentPage, totalPages);
    assert forall i :: 0 <= i < |es| ==> es[i] in es;
    seq(|es|, i requires 0 <= i < |es| => RenderSlot(es[i], currentPage, baseUrl))
  }

  /** On a valid page exactly one slot is highlighted, the one linking to the
      current page, and distinct slots link to distinct pages. */
  lemma OneHighlightedSlot(currentPage: int, totalPages: int, baseUrl: string)
    requires 1 <= currentPage <= totalPages
    ensures var slots := RenderBar(currentPage, totalPages, baseUrl);
      exists i :: 0 <= i < |slots| && slots[i] == Link(PageHref(baseUrl, currentPage), true)
    ensures var slots := RenderBar(currentPage, totalPages, baseUrl);
      forall i, j :: (0 <= i < |slots| && 0 <= j < |slots| && slots[i].Link? && slots[j].Link? &&
        slots[i].highlighted && slots[j].highlighted) ==> i == j
    ensures var slots := RenderBar(currentPage, totalPages, baseUrl);
      forall i, j :: (0 <= i < |slots| && 0 <= j < |slots| && slots[i].Link? && slots[j].Link? &&
        slots[i].href == slots[j].href) ==> i == j
  {
    var es := VisiblePages(currentPage, totalPages);
    var slots := RenderBar(currentPage, totalPages, baseUrl);
    BarContainsCurrent(currentPage, totalPages);
    BarWellFormed(currentPage, totalPages);
    var k :| 0 <= k < |es| && es[k] == Page(currentPage);
    assert slots[k] == Link(PageHref(baseUrl, currentPage), true);
    forall i, j | 0 <= i < |slots| && 0 <= j < |slots| && slots[i].Link? && slots[j].Link? &&
        (slots[i].href == slots[j].href || (slots[i].highlighted && slots[j].highlighted))
      ensures i == j
    {
      PageHrefDistinct(baseUrl, es[i].number, es[j].number);
    }
  }
}
