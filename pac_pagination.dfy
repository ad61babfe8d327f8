/** The decisions of ComPAC's `paginationTemplate`: which page numbers the
    window shows and which links surround them. The HTML text is left out;
    the template's output is modelled as the list of links it renders. */
module PacPagination {

  /** `options.maxVisible || 5`: an absent or zero option gives 5. */
  function MaxVisible(option: int): int
  {
    if option == 0 then 5 else option
  }

  function Max(a: int, b: int): int
  {
    if a < b then b else a
  }

  /** The first and last page of the window. */
  datatype Window = Window(start: int, end: int)

  /** The window arithmetic: centred on the current page where possible,
      shifted left when it would run past the last page. `/ 2` on a
      positive divisor is `Math.floor`. */
  function PageWindow(currentPage: int, totalPages: int, maxVisible: int): (w: Window)
    ensures 1 <= w.start
    ensures totalPages >= 1 && 1 <= currentPage <= totalPages && maxVisible >= 1 ==>
              w.start <= currentPage <= w.end <= totalPages &&
              w.end - w.start + 1 == (if maxVisible < totalPages then maxVisible else totalPages)
  {
    var start := Max(1, currentPage - maxVisible / 2);
    var end := start + maxVisible - 1;
    if end > totalPages then Window(Max(1, totalPages - maxVisible + 1), totalPages)
    else Window(start, end)
  }

  /** The loop that pushes the page numbers from `startPage` to `endPage`. */
  method Pages(start: int, end: int) returns (pages: seq<int>)
    ensures |pages| == (if start <= end then end - start + 1 else 0)
    ensures forall k :: 0 <= k < |pages| ==> pages[k] == start + k
    ensures pages == Span(start, end)
  {
    pages := [];
    var i := start;
    while i <= end
      invariant start <= i || pages == []
      invariant i <= end + 1 || pages == []
      invariant |pages| == i - start || (pages == [] && start > end)
      invariant forall k :: 0 <= k < |pages| ==> pages[k] == start + k
      decreases end - i
    {
      pages := pages + [i];
      i := i + 1;
    }
  }

  /** The rendered links, in order. */
  datatype Link =
    | Prev(target: int)
    | PageLink(page: int, active: bool)
    | Ellipsis
    | Next(target: int)

  /** The template's list: the previous link, the first page and a gap
      marker, the window (the current page marked active), a gap marker and
      the last page, the next link. */
  function Layout(currentPage: int, totalPages: int, maxVisibleOption: int): seq<Link>
  {
    var w := PageWindow(currentPage, totalPages, MaxVisible(maxVisibleOption));
    PrevPart(currentPage) + FirstPart(w.start) + WindowLinks(w.start, w.end, currentPage) +
    LastPart(w.end, totalPages) + NextPart(currentPage, totalPages)
  }

  function PrevPart(currentPage: int): seq<Link>
  {
    if currentPage > 1 then [Prev(currentPage - 1)] else []
  }

  function FirstPart(start: int): seq<Link>
  {
    if start > 2 then [PageLink(1, false), Ellipsis]
    else if start > 1 then [PageLink(1, false)]
    else []
  }

  function LastPart(end: int, totalPages: int): seq<Link>
  {
    if end < totalPages - 1 then [Ellipsis, PageLink(totalPages, false)]
    else if end < totalPages then [PageLink(totalPages, false)]
    else []
  }

  function NextPart(currentPage: int, totalPages: int): seq<Link>
  {
    if currentPage < totalPages then [Next(currentPage + 1)] else []
  }

  /** `pages.map(...)`: a link per page of the window. */
  function WindowLinks(start: int, end: int, currentPage: int): (links: seq<Link>)
    ensures |links| == (if start <= end then end - start + 1 else 0)
    ensures forall k :: 0 <= k < |links| ==> links[k] == PageLink(start + k, start + k == currentPage)
  {
    if start <= end then seq(end - start + 1, k => PageLink(start + k, start + k == currentPage)) else []
  }

  /** The page numbers the links point at, in order. */
  function PageNumbers(links: seq<Link>): seq<int>
  {
    if links == [] then []
    else (if links[0].PageLink? then [links[0].page] else []) + PageNumbers(links[1..])
  }

  lemma {:induction false} PageNumbersAppend(a: seq<Link>, b: seq<Link>)
    ensures PageNumbers(a + b) == PageNumbers(a) + PageNumbers(b)
  {
    if a == [] {
      assert a + b == b;
    } else {
      var head := if a[0].PageLink? then [a[0].page] else [];
      assert (a + b)[0] == a[0];
      assert (a + b)[1..] == a[1..] + b;
      PageNumbersAppend(a[1..], b);
      calc {
        PageNumbers(a + b);
        head + PageNumbers(a[1..] + b);
        head + (PageNumbers(a[1..]) + PageNumbers(b));
        (head + PageNumbers(a[1..])) + PageNumbers(b);
        PageNumbers(a) + PageNumbers(b);
      }
    }
  }

  /** The numbers of the window's links are the window's pages. */
  lemma {:induction false} WindowNumbers(start: int, end: int, currentPage: int)
    ensures PageNumbers(WindowLinks(start, end, currentPage)) == Span(start, end)
    decreases end - start
  {
    if start <= end {
      var links := WindowLinks(start, end, currentPage);
      WindowNumbers(start + 1, end, currentPage);
      WindowTail(start, end, currentPage);
      SpanTail(start, end);
      calc {
        PageNumbers(links);
        [start] + PageNumbers(links[1..]);
        [start] + Span(start + 1, end);
        Span(start, end);
      }
    }
  }

  lemma WindowTail(start: int, end: int, currentPage: int)
    requires start <= end
    ensures var links := WindowLinks(start, end, currentPage);
            links[0] == PageLink(start, start == currentPage) &&
            links[1..] == WindowLinks(start + 1, end, currentPage)
  {
  }

  lemma SpanTail(start: int, end: int)
    requires start <= end
    ensures Span(start, end) == [start] + Span(start + 1, end)
  {
  }

  /** The pages from `start` to `end`. */
  function Span(start: int, end: int): (s: seq<int>)
    ensures |s| == (if start <= end then end - start + 1 else 0)
    ensures forall k :: 0 <= k < |s| ==> s[k] == start + k
  {
    if start <= end then seq(end - start + 1, k => start + k) else []
  }

  predicate Increasing(s: seq<int>)
  {
    forall i, j :: 0 <= i < j < |s| ==> s[i] < s[j]
  }

  /** Before the window: page 1 is linked when the window starts after it,
      and a gap marker follows it exactly when page 2 is not in the window
      either. */
  lemma FirstNumbers(start: int)
    ensures PageNumbers(FirstPart(start)) == (if start > 1 then [1] else [])
    ensures Ellipsis in FirstPart(start) <==> start > 2
    ensures start > 2 ==> FirstPart(start) == [PageLink(1, false), Ellipsis]
  {
    var b := FirstPart(start);
    if start > 2 {
      assert b[1..] == [Ellipsis];
      assert b[1..][1..] == [];
      assert PageNumbers(b[1..]) == [];
    } else if start > 1 {
      assert b[1..] == [];
    }
  }

  /** After the window: the last page is linked when the window ends before
      it, and a gap marker precedes it exactly when the page before the
      last is not in the window either. */
  lemma LastNumbers(end: int, totalPages: int)
    ensures PageNumbers(LastPart(end, totalPages)) == (if end < totalPages then [totalPages] else [])
    ensures Ellipsis in LastPart(end, totalPages) <==> end < totalPages - 1
    ensures end < totalPages - 1 ==> LastPart(end, totalPages) == [Ellipsis, PageLink(totalPages, false)]
  {
    var d := LastPart(end, totalPages);
    if end < totalPages - 1 {
      assert d[1..] == [PageLink(totalPages, false)];
      assert d[1..][1..] == [];
      assert PageNumbers(d[1..]) == [totalPages];
    } else if end < totalPages {
      assert d[1..] == [];
    }
  }

  lemma {:induction false} PageNumbersOfFive(a: seq<Link>, b: seq<Link>, c: seq<Link>, d: seq<Link>, e: seq<Link>)
    requires PageNumbers(a) == [] && PageNumbers(e) == []
    ensures PageNumbers(a + b + c + d + e) == PageNumbers(b) + PageNumbers(c) + PageNumbers(d)
  {
    PageNumbersAppend(a, b);
    PageNumbersAppend(a + b, c);
    PageNumbersAppend(a + b + c, d);
    PageNumbersAppend(a + b + c + d, e);
  }

  /** The numbers the layout links: page 1 when the window starts after it,
      the window, the last page when the window ends before it. */
  lemma LayoutNumbers(currentPage: int, totalPages: int, maxVisibleOption: int)
    ensures var w := PageWindow(currentPage, totalPages, MaxVisible(maxVisibleOption));
            PageNumbers(Layout(currentPage, totalPages, maxVisibleOption)) ==
              (if w.start > 1 then [1] else []) + Span(w.start, w.end) +
              (if w.end < totalPages then [totalPages] else [])
  {
    var w := PageWindow(currentPage, totalPages, MaxVisible(maxVisibleOption));
    var a, b, c, d, e := PrevPart(currentPage), FirstPart(w.start), WindowLinks(w.start, w.end, currentPage),
                         LastPart(w.end, totalPages), NextPart(currentPage, totalPages);
    assert PageNumbers(a) == [];
    assert PageNumbers(e) == [];
    PageNumbersOfFive(a, b, c, d, e);
    WindowNumbers(w.start, w.end, currentPage);
    FirstNumbers(w.start);
    LastNumbers(w.end, totalPages);
  }

  /** A window between 1 and the last page, with 1 and the last page added
      outside it, is strictly increasing and runs from 1 to the last page. */
  lemma FramedSpanIncreasing(start: int, end: int, totalPages: int)
    requires 1 <= start <= end <= totalPages
    ensures var nums := (if start > 1 then [1] else []) + Span(start, end) + (if end < totalPages then [totalPages] else []);
            Increasing(nums) && nums[0] == 1 && nums[|nums| - 1] == totalPages
  {
    var fs := if start > 1 then [1] else [];
    var ws := Span(start, end);
    var ls := if end < totalPages then [totalPages] else [];
    var nums := fs + ws + ls;
    forall i, j | 0 <= i < j < |nums| ensures nums[i] < nums[j] {
      if i < |fs| {
        assert nums[i] == 1;
      } else if j >= |fs| + |ws| {
        assert nums[j] == totalPages;
      } else {
        assert nums[i] == start + (i - |fs|) && nums[j] == start + (j - |fs|);
      }
    }
  }

  /** For a valid page and page count: the previous and next links appear
      exactly when there is such a page, and the only active link is the
      current page, which is linked. */
  lemma LayoutLinks(currentPage: int, totalPages: int, maxVisibleOption: int)
    requires totalPages >= 1 && 1 <= currentPage <= totalPages && MaxVisible(maxVisibleOption) >= 1
    ensures var links := Layout(currentPage, totalPages, maxVisibleOption);
            (Prev(currentPage - 1) in links <==> currentPage > 1) &&
            (Next(currentPage + 1) in links <==> currentPage < totalPages) &&
            (forall l :: l in links && l.PageLink? && l.active ==> l.page == currentPage) &&
            PageLink(currentPage, true) in links
  {
    var w := PageWindow(currentPage, totalPages, MaxVisible(maxVisibleOption));
    var win := WindowLinks(w.start, w.end, currentPage);
    assert win[currentPage - w.start] == PageLink(currentPage, true);
  }

  /** For a valid page and page count the linked page numbers are strictly
      increasing (no page is linked twice) and run from page 1 to the last
      page, so both ends are always reachable. */
  lemma LayoutPages(currentPage: int, totalPages: int, maxVisibleOption: int)
    requires totalPages >= 1 && 1 <= currentPage <= totalPages && MaxVisible(maxVisibleOption) >= 1
    ensures var nums := PageNumbers(Layout(currentPage, totalPages, maxVisibleOption));
            Increasing(nums) && nums != [] && nums[0] == 1 && nums[|nums| - 1] == totalPages
  {
    var w := PageWindow(currentPage, totalPages, MaxVisible(maxVisibleOption));
    LayoutNumbers(currentPage, totalPages, maxVisibleOption);
    FramedSpanIncreasing(w.start, w.end, totalPages);
  }

  /** The gap markers of the rendered list, for a valid page and page count:
      one right after the link to page 1 exactly when the window starts
      after page 2, and one right before the link to the last page exactly
      when the window ends before the page preceding it. */
  lemma LayoutEllipses(currentPage: int, totalPages: int, maxVisibleOption: int)
    requires totalPages >= 1 && 1 <= currentPage <= totalPages && MaxVisible(maxVisibleOption) >= 1
    ensures var w := PageWindow(currentPage, totalPages, MaxVisible(maxVisibleOption));
            var links := Layout(currentPage, totalPages, maxVisibleOption);
            (w.start > 2 <==> exists i :: 0 <= i < |links| - 1 && links[i] == PageLink(1, false) && links[i + 1] == Ellipsis) &&
            (w.end < totalPages - 1 <==> exists i :: 0 <= i < |links| - 1 && links[i] == Ellipsis && links[i + 1] == PageLink(totalPages, false))
  {
    var w := PageWindow(currentPage, totalPages, MaxVisible(maxVisibleOption));
    var a, b, c, d, e := PrevPart(currentPage), FirstPart(w.start), WindowLinks(w.start, w.end, currentPage),
                         LastPart(w.end, totalPages), NextPart(currentPage, totalPages);
    assert Layout(currentPage, totalPages, maxVisibleOption) == a + b + c + d + e;
    assert c[0] == PageLink(w.start, w.start == currentPage);
    assert c[|c| - 1] == PageLink(w.end, w.end == currentPage);
    LeadingGap(a, b, c, d, e, w.start, w.end, currentPage, totalPages);
    TrailingGap(a, b, c, d, e, w.start, w.end, currentPage, totalPages);
  }

  /** The five parts around a window from `start` to `end` that holds the
      current page, the first and last of them linking those pages. */
  ghost predicate Framed(a: seq<Link>, b: seq<Link>, c: seq<Link>, d: seq<Link>, e: seq<Link>,
                         start: int, end: int, currentPage: int, totalPages: int)
  {
    b == FirstPart(start) && d == LastPart(end, totalPages) &&
    Ellipsis !in a && Ellipsis !in c && Ellipsis !in e &&
    1 <= start <= currentPage <= end <= totalPages && c != [] &&
    c[0] == PageLink(start, start == currentPage) && c[|c| - 1] == PageLink(end, end == currentPage)
  }

  lemma LeadingGap(a: seq<Link>, b: seq<Link>, c: seq<Link>, d: seq<Link>, e: seq<Link>,
                   start: int, end: int, currentPage: int, totalPages: int)
    requires Framed(a, b, c, d, e, start, end, currentPage, totalPages)
    ensures var links := a + b + c + d + e;
            start > 2 <==> exists i :: 0 <= i < |links| - 1 && links[i] == PageLink(1, false) && links[i + 1] == Ellipsis
  {
    var links := a + b + c + d + e;
    FirstNumbers(start);
    LastNumbers(end, totalPages);
    EllipsisPositions(a, b, c, d, e);
    var hi := |a| + |b| + |c|;
    assert links[hi - 1] == c[|c| - 1];
    if start > 2 {
      assert links[|a|] == PageLink(1, false) && links[|a| + 1] == Ellipsis;
    }
  }

  lemma TrailingGap(a: seq<Link>, b: seq<Link>, c: seq<Link>, d: seq<Link>, e: seq<Link>,
                    start: int, end: int, currentPage: int, totalPages: int)
    requires Framed(a, b, c, d, e, start, end, currentPage, totalPages)
    ensures var links := a + b + c + d + e;
            end < totalPages - 1 <==> exists i :: 0 <= i < |links| - 1 && links[i] == Ellipsis && links[i + 1] == PageLink(totalPages, false)
  {
    var links := a + b + c + d + e;
    FirstNumbers(start);
    LastNumbers(end, totalPages);
    EllipsisPositions(a, b, c, d, e);
    var lo, hi := |a| + |b|, |a| + |b| + |c|;
    assert links[lo] == c[0];
    if end < totalPages - 1 {
      assert links[hi] == Ellipsis && links[hi + 1] == PageLink(totalPages, false);
    }
  }

  /** A gap marker in the five parts sits inside the first-page part or the
      last-page part; nothing else renders one. */
  lemma EllipsisPositions(a: seq<Link>, b: seq<Link>, c: seq<Link>, d: seq<Link>, e: seq<Link>)
    requires Ellipsis !in a && Ellipsis !in c && Ellipsis !in e
    ensures var links := a + b + c + d + e;
            forall j :: 0 <= j < |links| && links[j] == Ellipsis ==>
              (|a| <= j < |a| + |b| && b[j - |a|] == Ellipsis) ||
              (|a| + |b| + |c| <= j < |a| + |b| + |c| + |d| && d[j - |a| - |b| - |c|] == Ellipsis)
  {
    var links := a + b + c + d + e;
    var p, q, r := |a| + |b|, |a| + |b| + |c|, |a| + |b| + |c| + |d|;
    assert forall j :: 0 <= j < |a| ==> links[j] == a[j];
    assert forall j :: p <= j < q ==> links[j] == c[j - p];
    assert forall j :: r <= j < |links| ==> links[j] == e[j - r];
    assert forall j :: |a| <= j < p ==> links[j] == b[j - |a|];
    assert forall j :: q <= j < r ==> links[j] == d[j - q];
  }
}
