/** `src/components/Pagination.tsx`: the row of page links under the
    post list, as a function of the current page and the page count.
    Page numbers are integers here. */
module PaginationView {

  /** One entry of the row. `PageLink` carries the page it leads to and
      whether it is marked active. */
  datatype Item = Previous(target: int) | PageLink(page: int, active: bool) | Ellipsis | Next(target: int)

  /** `Array.from({ length: total }, (_, i) => i + 1).filter(...)` from
      `lo` on: the pages up to `total` within one of `current`. */
  function WindowFrom(lo: int, total: int, current: int): (r: seq<int>)
    ensures forall x :: x in r <==> lo <= x <= total && current - 1 <= x <= current + 1
    ensures forall i, j :: 0 <= i < j < |r| ==> r[i] < r[j]
    decreases total - lo
  {
    if lo > total then []
    else
      var rest := WindowFrom(lo + 1, total, current);
      assert forall i :: 0 <= i < |rest| ==> lo < rest[i] by {
        forall i | 0 <= i < |rest| ensures lo < rest[i] { assert rest[i] in rest; }
      }
      if current - 1 <= lo <= current + 1 then [lo] + rest else rest
  }

  function Window(current: int, total: int): seq<int> {
    WindowFrom(1, total, current)
  }

  /** The three neighbours of `current` that lie in `lo..total`, in
      order. */
  function Neighbours(lo: int, total: int, current: int): seq<int> {
    (if lo <= current - 1 <= total then [current - 1] else [])
    + (if lo <= current <= total then [current] else [])
    + (if lo <= current + 1 <= total then [current + 1] else [])
  }

  /** Filtering all the pages comes to testing the three neighbours. */
  lemma {:induction false} WindowIsNeighbours(lo: int, total: int, current: int)
    ensures WindowFrom(lo, total, current) == Neighbours(lo, total, current)
    decreases total - lo
  {
    if lo <= total {
      WindowIsNeighbours(lo + 1, total, current);
    }
  }

  function WindowLinks(window: seq<int>, current: int): (r: seq<Item>)
    ensures |r| == |window|
    ensures forall i :: 0 <= i < |window| ==> r[i] == PageLink(window[i], window[i] == current)
  {
    if |window| == 0 then [] else [PageLink(window[0], window[0] == current)] + WindowLinks(window[1..], current)
  }

  function PreviousPart(current: int): seq<Item> {
    if current > 1 then [Previous(current - 1)] else []
  }

  function FirstPart(current: int): seq<Item> {
    if current > 2 then [PageLink(1, false)] + (if current > 3 then [Ellipsis] else []) else []
  }

  function LastPart(current: int, total: int): seq<Item> {
    if current < total - 1 then (if current < total - 2 then [Ellipsis] else []) + [PageLink(total, false)] else []
  }

  function NextPart(current: int, total: int): seq<Item> {
    if current < total then [Next(current + 1)] else []
  }

  /** `PaginationComponent`: Previous, the first page and an ellipsis,
      the window, an ellipsis and the last page, Next, each shown under
      its own condition. "Previous" is shown first exactly when there is
      a page before, and leads to it; "Next" is shown last exactly when
      there is a page after, and leads to it; neither appears anywhere
      else. */
  function Items(current: int, total: int): (r: seq<Item>)
    ensures (|r| > 0 && r[0].Previous?) <==> current > 1
    ensures current > 1 ==> r[0] == Previous(current - 1)
    ensures (|r| > 0 && r[|r| - 1].Next?) <==> current < total
    ensures current < total ==> r[|r| - 1] == Next(current + 1)
    ensures forall i :: 0 < i < |r| ==> !r[i].Previous?
    ensures forall i :: 0 <= i < |r| - 1 ==> !r[i].Next?
  {
    MiddleHasOnlyLinks(current, total);
    ArrowsAtTheEnds(PreviousPart(current), MiddlePart(current, total), NextPart(current, total));
    PreviousPart(current) + MiddlePart(current, total) + NextPart(current, total)
  }

  /** The numbered part of the row. */
  function MiddlePart(current: int, total: int): seq<Item> {
    FirstPart(current) + WindowLinks(Window(current, total), current) + LastPart(current, total)
  }

  /** The links of the window for a current page in range: the page
      before, the current page (active) and the page after, as far as
      they exist. */
  lemma WindowInRange(current: int, total: int)
    requires 1 <= current <= total
    ensures WindowLinks(Window(current, total), current)
      == (if current > 1 then [PageLink(current - 1, false)] else [])
         + [PageLink(current, true)]
         + (if current < total then [PageLink(current + 1, false)] else [])
  {
    WindowIsNeighbours(1, total, current);
  }

  /** Between "Previous" and "Next" there are only links and
      ellipses. */
  lemma MiddleHasOnlyLinks(current: int, total: int)
    ensures var m := MiddlePart(current, total);
      forall i :: 0 <= i < |m| ==> m[i].PageLink? || m[i].Ellipsis?
  {
  }

  lemma ArrowsAtTheEnds(p: seq<Item>, m: seq<Item>, n: seq<Item>)
    requires forall i :: 0 <= i < |m| ==> m[i].PageLink? || m[i].Ellipsis?
    requires |p| <= 1 && |n| <= 1
    requires forall i :: 0 <= i < |p| ==> p[i].Previous?
    requires forall i :: 0 <= i < |n| ==> n[i].Next?
    ensures var r := p + m + n;
      && (|p| == 1 ==> r[0] == p[0])
      && (|n| == 1 ==> r[|r| - 1] == n[0])
      && ((|r| > 0 && r[0].Previous?) <==> |p| == 1)
      && ((|r| > 0 && r[|r| - 1].Next?) <==> |n| == 1)
      && (forall i :: 0 < i < |r| ==> !r[i].Previous?)
      && (forall i :: 0 <= i < |r| - 1 ==> !r[i].Next?)
  {
    var r := p + m + n;
    assert forall i :: |p| <= i < |p| + |m| ==> r[i] == m[i - |p|];
  }

  function LinkOf(x: Item): seq<int> {
    if x.PageLink? then [x.page] else []
  }

  function ActiveOf(x: Item): seq<int> {
    if x.PageLink? && x.active then [x.page] else []
  }

  /** The page numbers of the links, in the order shown. */
  function Links(items: seq<Item>): seq<int> {
    if |items| == 0 then [] else LinkOf(items[0]) + Links(items[1..])
  }

  /** The pages of the links marked active. */
  function ActivePages(items: seq<Item>): seq<int> {
    if |items| == 0 then [] else ActiveOf(items[0]) + ActivePages(items[1..])
  }

  lemma {:induction false} LinksAppend(a: seq<Item>, b: seq<Item>)
    ensures Links(a + b) == Links(a) + Links(b)
    ensures ActivePages(a + b) == ActivePages(a) + ActivePages(b)
  {
    if |a| == 0 {
      assert a + b == b;
    } else {
      var ab := a + b;
      assert ab[0] == a[0];
      assert ab[1..] == a[1..] + b;
      LinksAppend(a[1..], b);
      calc {
        Links(ab);
        LinkOf(a[0]) + Links(a[1..] + b);
        LinkOf(a[0]) + (Links(a[1..]) + Links(b));
        (LinkOf(a[0]) + Links(a[1..])) + Links(b);
      }
      calc {
        ActivePages(ab);
        ActiveOf(a[0]) + ActivePages(a[1..] + b);
        ActiveOf(a[0]) + (ActivePages(a[1..]) + ActivePages(b));
        (ActiveOf(a[0]) + ActivePages(a[1..])) + ActivePages(b);
      }
    }
  }

  predicate StrictlyIncreasing(s: seq<int>) {
    forall i, j :: 0 <= i < j < |s| ==> s[i] < s[j]
  }

  /** The window's links around a current page in range. */
  function Centre(current: int, total: int): seq<Item> {
    (if current > 1 then [PageLink(current - 1, false)] else [])
    + [PageLink(current, true)]
    + (if current < total then [PageLink(current + 1, false)] else [])
  }

  lemma MiddleInRange(current: int, total: int)
    requires 1 <= current <= total
    ensures MiddlePart(current, total) == FirstPart(current) + Centre(current, total) + LastPart(current, total)
  {
    WindowInRange(current, total);
  }

  lemma LinksOfOne(x: Item)
    ensures Links([x]) == LinkOf(x) && ActivePages([x]) == ActiveOf(x)
  {
    assert [x][1..] == [];
  }

  lemma LinksOfFirst(current: int)
    ensures Links(FirstPart(current)) == (if current > 2 then [1] else [])
    ensures ActivePages(FirstPart(current)) == []
  {
    if current > 2 {
      var e: seq<Item> := if current > 3 then [Ellipsis] else [];
      LinksAppend([PageLink(1, false)], e);
      LinksOfOne(PageLink(1, false));
      if current > 3 {
        LinksOfOne(Ellipsis);
      }
    }
  }

  lemma LinksOfLast(current: int, total: int)
    ensures Links(LastPart(current, total)) == (if current < total - 1 then [total] else [])
    ensures ActivePages(LastPart(current, total)) == []
  {
    if current < total - 1 {
      var e: seq<Item> := if current < total - 2 then [Ellipsis] else [];
      LinksAppend(e, [PageLink(total, false)]);
      LinksOfOne(PageLink(total, false));
      if current < total - 2 {
        LinksOfOne(Ellipsis);
      }
    }
  }

  lemma LinksOfCentre(current: int, total: int)
    ensures Links(Centre(current, total))
      == (if current > 1 then [current - 1] else []) + [current] + (if current < total then [current + 1] else [])
    ensures ActivePages(Centre(current, total)) == [current]
  {
    var below: seq<Item> := if current > 1 then [PageLink(current - 1, false)] else [];
    var above: seq<Item> := if current < total then [PageLink(current + 1, false)] else [];
    LinksAppend(below, [PageLink(current, true)]);
    LinksAppend(below + [PageLink(current, true)], above);
    LinksOfOne(PageLink(current, true));
    if current > 1 {
      LinksOfOne(PageLink(current - 1, false));
    }
    if current < total {
      LinksOfOne(PageLink(current + 1, false));
    }
  }

  lemma LinksOfArrows(current: int, total: int)
    ensures Links(PreviousPart(current)) == [] && ActivePages(PreviousPart(current)) == []
    ensures Links(NextPart(current, total)) == [] && ActivePages(NextPart(current, total)) == []
  {
    if current > 1 {
      LinksOfOne(Previous(current - 1));
    }
    if current < total {
      LinksOfOne(Next(current + 1));
    }
  }

  lemma LinksOfThree(a: seq<Item>, b: seq<Item>, c: seq<Item>)
    ensures Links(a + b + c) == Links(a) + Links(b) + Links(c)
    ensures ActivePages(a + b + c) == ActivePages(a) + ActivePages(b) + ActivePages(c)
  {
    LinksAppend(a, b);
    LinksAppend(a + b, c);
  }

  /** The pages the row links to, for a current page in range: page 1
      when it is not next to the window, the window, and the last page
      when it is not next to the window. */
  function RowPages(current: int, total: int): seq<int> {
    (if current > 2 then [1] else [])
    + ((if current > 1 then [current - 1] else []) + [current] + (if current < total then [current + 1] else []))
    + (if current < total - 1 then [total] else [])
  }

  lemma LinksOfItems(current: int, total: int)
    requires 1 <= current <= total
    ensures Links(Items(current, total)) == RowPages(current, total)
    ensures ActivePages(Items(current, total)) == [current]
  {
    var p, m, n := PreviousPart(current), MiddlePart(current, total), NextPart(current, total);
    LinksOfThree(p, m, n);
    LinksOfArrows(current, total);
    LinksOfMiddle(current, total);
    assert [] + RowPages(current, total) + [] == RowPages(current, total);
    assert [] + [current] + [] == [current];
  }

  lemma LinksOfMiddle(current: int, total: int)
    requires 1 <= current <= total
    ensures Links(MiddlePart(current, total)) == RowPages(current, total)
    ensures ActivePages(MiddlePart(current, total)) == [current]
  {
    var f, c, l := FirstPart(current), Centre(current, total), LastPart(current, total);
    MiddleInRange(current, total);
    LinksOfThree(f, c, l);
    LinksOfFirst(current);
    LinksOfCentre(current, total);
    LinksOfLast(current, total);
  }

  /** The pages of the row run strictly upwards from 1 to `total`. */
  lemma RowPagesOrdered(current: int, total: int)
    requires 1 <= current <= total
    ensures var pages := RowPages(current, total);
      && StrictlyIncreasing(pages)
      && |pages| > 0 && pages[0] == 1 && pages[|pages| - 1] == total
      && (forall i :: 0 <= i < |pages| ==> 1 <= pages[i] <= total)
  {
    var pages := RowPages(current, total);
    var lo := if current > 2 then [1] else [];
    var mid := (if current > 1 then [current - 1] else []) + [current] + (if current < total then [current + 1] else []);
    var hi := if current < total - 1 then [total] else [];
    assert pages == lo + mid + hi;
    assert forall i :: 0 <= i < |mid| ==> mid[i] == current - (if current > 1 then 1 else 0) + i;
    assert forall i :: 0 <= i < |pages| ==> pages[i] == if i < |lo| then 1 else if i < |lo| + |mid| then mid[i - |lo|] else total;
  }

  /** For a current page in range, the numbered links run strictly
      upwards from 1 to `total`, and exactly one of them, the current
      page, is active. */
  lemma LinksAreOrdered(current: int, total: int)
    requires 1 <= current <= total
    ensures var links := Links(Items(current, total));
      && StrictlyIncreasing(links)
      && |links| > 0 && links[0] == 1 && links[|links| - 1] == total
      && (forall i :: 0 <= i < |links| ==> 1 <= links[i] <= total)
    ensures ActivePages(Items(current, total)) == [current]
  {
    LinksOfItems(current, total);
    RowPagesOrdered(current, total);
  }

  /** An ellipsis stands exactly for hidden pages: it sits between two
      links whose pages are not neighbours, and two links side by side
      lead to neighbouring pages. */
  predicate GapsMarked(m: seq<Item>) {
    && (forall i :: 0 <= i < |m| - 1 && m[i].PageLink? ==>
          && (m[i + 1].PageLink? ==> m[i + 1].page == m[i].page + 1)
          && (m[i + 1].Ellipsis? ==> i + 2 < |m| && m[i + 2].PageLink? && m[i + 2].page > m[i].page + 1))
    && (forall i :: 0 <= i < |m| && m[i].Ellipsis? ==> 0 < i < |m| - 1 && m[i - 1].PageLink?)
  }

  /** A run of links to consecutive pages from `start` on. */
  predicate Run(c: seq<Item>, start: int) {
    forall i :: 0 <= i < |c| ==> c[i].PageLink? && c[i].page == start + i
  }

  /** A run with, in front, nothing, the page just before it, or a lower
      page and an ellipsis, and behind it nothing, the page just after
      it, or an ellipsis and a higher page. */
  lemma RunGapsMarked(f: seq<Item>, c: seq<Item>, l: seq<Item>, start: int, lo: int, hi: int)
    requires |c| > 0 && Run(c, start)
    requires || f == []
             || (f == [PageLink(lo, false)] && lo == start - 1)
             || (f == [PageLink(lo, false), Ellipsis] && lo < start - 1)
    requires || l == []
             || (l == [PageLink(hi, false)] && hi == start + |c|)
             || (l == [Ellipsis, PageLink(hi, false)] && hi > start + |c|)
    ensures GapsMarked(f + c + l)
  {
    assert GapsMarked(c);
    AppendMarked(c, l, start + |c| - 1, hi);
    var x := c + l;
    assert x[0] == c[0];
    PrependMarked(f, x, start, lo);
    assert f + c + l == f + x;
  }

  /** Links or an ellipsis and a link added after a row whose last entry
      links to `last`. */
  lemma AppendMarked(x: seq<Item>, l: seq<Item>, last: int, hi: int)
    requires |x| > 0 && GapsMarked(x) && x[|x| - 1].PageLink? && x[|x| - 1].page == last
    requires || l == []
             || (l == [PageLink(hi, false)] && hi == last + 1)
             || (l == [Ellipsis, PageLink(hi, false)] && hi > last + 1)
    ensures GapsMarked(x + l)
  {
    var m := x + l;
    assert forall i :: 0 <= i < |x| ==> m[i] == x[i];
    assert forall i :: |x| <= i < |m| ==> m[i] == l[i - |x|];
  }

  /** A link, or a link and an ellipsis, added before a row whose first
      entry links to `first`. */
  lemma PrependMarked(f: seq<Item>, x: seq<Item>, first: int, lo: int)
    requires |x| > 0 && GapsMarked(x) && x[0].PageLink? && x[0].page == first
    requires || f == []
             || (f == [PageLink(lo, false)] && lo == first - 1)
             || (f == [PageLink(lo, false), Ellipsis] && lo < first - 1)
    ensures GapsMarked(f + x)
  {
    var m := f + x;
    if f == [] {
      assert m == x;
    } else {
      forall i | 0 <= i < |m| - 1 && m[i].PageLink?
        ensures m[i + 1].PageLink? ==> m[i + 1].page == m[i].page + 1
        ensures m[i + 1].Ellipsis? ==> i + 2 < |m| && m[i + 2].PageLink? && m[i + 2].page > m[i].page + 1
      {
        if i >= |f| {
          assert m[i] == x[i - |f|] && m[i + 1] == x[i + 1 - |f|];
          if i + 2 < |m| {
            assert m[i + 2] == x[i + 2 - |f|];
          }
        } else if |f| == 2 {
          assert i == 0 && m[2] == x[0];
        } else {
          assert m[1] == x[0];
        }
      }
      forall i | 0 <= i < |m| && m[i].Ellipsis? ensures 0 < i < |m| - 1 && m[i - 1].PageLink? {
        if i >= |f| {
          assert m[i] == x[i - |f|];
          assert m[i - 1] == x[i - 1 - |f|];
        } else {
          assert i == 1 && |f| == 2;
        }
      }
    }
  }

  /** In the numbered part of the row, for a current page in range,
      every ellipsis marks hidden pages and no pages are skipped without
      one. */
  lemma EllipsisMarksGap(current: int, total: int)
    requires 1 <= current <= total
    ensures GapsMarked(MiddlePart(current, total))
  {
    MiddleInRange(current, total);
    var start := if current > 1 then current - 1 else current;
    var c := Centre(current, total);
    assert Run(c, start);
    RunGapsMarked(FirstPart(current), c, LastPart(current, total), start, 1, total);
  }
}
