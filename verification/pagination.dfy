// The listings pager: which page buttons, ellipses and previous/next
// buttons are shown for the current page, and the request a click makes.

module Pagination {
  import opened Optional
  import Seqs
  import SearchParams

  /** At most this many consecutive page numbers are shown around the
      current page. */
  const MaxVisiblePages := 5

  /** The first and last page of the run of consecutive page numbers. */
  datatype Window = Window(first: int, last: int)

  /** One entry of the pager, in display order. */
  datatype PageItem =
    | Previous(target: int)
    | PageButton(number: int, active: bool)
    | Ellipsis
    | Next(target: int)

  /** The window of pages around `current`: centred when possible, pushed
      back from the last page so that it still holds five pages. */
  function PageWindow(current: int, total: int): (w: Window)
    ensures total >= 1 ==> 1 <= w.first <= w.last <= total
    ensures total >= 1 ==> w.last - w.first + 1 == Seqs.Min(MaxVisiblePages, total)
    ensures 1 <= current <= total ==> w.first <= current <= w.last
    ensures w.first > 1 ==> w.first < current
    ensures w.last < total ==> current < w.last
  {
    var start := Seqs.Max(1, current - MaxVisiblePages / 2);
    var end := Seqs.Min(total, start + MaxVisiblePages - 1);
    if end - start < MaxVisiblePages - 1 then Window(Seqs.Max(1, end - MaxVisiblePages + 1), end)
    else Window(start, end)
  }

  /** The buttons for pages `first` to `last`, the current one active. */
  function Buttons(first: int, last: int, current: int): (r: seq<PageItem>)
    decreases last - first
    ensures |r| == if last < first then 0 else last - first + 1
  {
    if last < first then [] else Buttons(first, last - 1, current) + [PageButton(last, last == current)]
  }

  /** Page 1, and an ellipsis when page 2 is not in the window either. */
  function Leading(first: int): seq<PageItem> {
    if first > 1 then [PageButton(1, false)] + (if first > 2 then [Ellipsis] else []) else []
  }

  /** An ellipsis when the page before the last is not in the window, then
      the last page. */
  function Trailing(last: int, total: int): seq<PageItem> {
    if last < total then (if last < total - 1 then [Ellipsis] else []) + [PageButton(total, false)] else []
  }

  function PreviousPart(current: int): seq<PageItem> {
    if current > 1 then [Previous(current - 1)] else []
  }

  function NextPart(current: int, total: int): seq<PageItem> {
    if current < total then [Next(current + 1)] else []
  }

  /** The page entries between the previous and next buttons. */
  function Middle(current: int, total: int): seq<PageItem> {
    var w := PageWindow(current, total);
    Leading(w.first) + Buttons(w.first, w.last, current) + Trailing(w.last, total)
  }

  /** Everything the pager shows, in order. */
  function PageItems(current: int, total: int): seq<PageItem> {
    PreviousPart(current) + Middle(current, total) + NextPart(current, total)
  }

  /** Builds the pager entries one push at a time, as the component does:
      the window, then the previous button, page 1 and its ellipsis, the
      window's pages, the last page and its ellipsis, and the next button. */
  method RenderPageNumbers(current: int, total: int) returns (pages: seq<PageItem>)
    ensures pages == PageItems(current, total)
  {
    pages := [];
    var startPage := Seqs.Max(1, current - MaxVisiblePages / 2);
    var endPage := Seqs.Min(total, startPage + MaxVisiblePages - 1);
    if endPage - startPage < MaxVisiblePages - 1 {
      startPage := Seqs.Max(1, endPage - MaxVisiblePages + 1);
    }
    assert Window(startPage, endPage) == PageWindow(current, total);

    pages := PushPrevious(pages, current);
    pages := PushFirstPage(pages, startPage);
    pages := PushWindow(pages, startPage, endPage, current);
    pages := PushLastPage(pages, endPage, total);
    pages := PushNext(pages, current, total);
    ItemsInParts(current, total, startPage, endPage);
  }

  /** The previous button, when there is a page before the current one. */
  method PushPrevious(pages: seq<PageItem>, current: int) returns (r: seq<PageItem>)
    ensures r == pages + PreviousPart(current)
  {
    r := pages;
    if current > 1 {
      r := r + [Previous(current - 1)];
    }
  }

  /** Page 1 and the leading ellipsis, when the window starts later. */
  method PushFirstPage(pages: seq<PageItem>, startPage: int) returns (r: seq<PageItem>)
    ensures r == pages + Leading(startPage)
  {
    r := pages;
    if startPage > 1 {
      r := r + [PageButton(1, false)];
      if startPage > 2 {
        r := r + [Ellipsis];
        assert r == pages + ([PageButton(1, false)] + [Ellipsis]);
      }
    }
  }

  /** One button per page of the window, the current page active. */
  method PushWindow(pages: seq<PageItem>, startPage: int, endPage: int, current: int) returns (r: seq<PageItem>)
    ensures r == pages + Buttons(startPage, endPage, current)
  {
    r := pages;
    var i := startPage;
    while i <= endPage
      invariant startPage <= i && (i <= endPage + 1 || i == startPage)
      invariant r == pages + Buttons(startPage, i - 1, current)
      decreases endPage - i
    {
      PushButton(pages, startPage, i, current);
      r := r + [PageButton(i, i == current)];
      i := i + 1;
    }
    if startPage > endPage {
      assert Buttons(startPage, i - 1, current) == [] == Buttons(startPage, endPage, current);
    }
  }

  /** The trailing ellipsis and the last page, when the window ends earlier. */
  method PushLastPage(pages: seq<PageItem>, endPage: int, total: int) returns (r: seq<PageItem>)
    ensures r == pages + Trailing(endPage, total)
  {
    r := pages;
    if endPage < total {
      if endPage < total - 1 {
        r := r + [Ellipsis];
      }
      r := r + [PageButton(total, false)];
      if endPage < total - 1 {
        assert r == pages + ([Ellipsis] + [PageButton(total, false)]);
      }
    }
  }

  /** The next button, when there is a page after the current one. */
  method PushNext(pages: seq<PageItem>, current: int, total: int) returns (r: seq<PageItem>)
    ensures r == pages + NextPart(current, total)
  {
    r := pages;
    if current < total {
      r := r + [Next(current + 1)];
    }
  }

  /** Pushing the button for page `i` extends the run of buttons by one. */
  lemma {:induction false} PushButton(before: seq<PageItem>, first: int, i: int, current: int)
    requires first <= i
    ensures before + Buttons(first, i - 1, current) + [PageButton(i, i == current)] == before + Buttons(first, i, current)
  {
    var bs := Buttons(first, i - 1, current);
    assert Buttons(first, i, current) == bs + [PageButton(i, i == current)];
    assert before + bs + [PageButton(i, i == current)] == before + (bs + [PageButton(i, i == current)]);
  }

  /** The entries as the five pushes build them. */
  lemma {:induction false} ItemsInParts(current: int, total: int, first: int, last: int)
    requires Window(first, last) == PageWindow(current, total)
    ensures PageItems(current, total)
      == [] + PreviousPart(current) + Leading(first) + Buttons(first, last, current) + Trailing(last, total) + NextPart(current, total)
  {
    assert Middle(current, total) == Leading(first) + Buttons(first, last, current) + Trailing(last, total);
    Regroup(PreviousPart(current), Leading(first), Buttons(first, last, current), Trailing(last, total), NextPart(current, total));
  }

  lemma {:induction false} Regroup(a: seq<PageItem>, b: seq<PageItem>, c: seq<PageItem>, d: seq<PageItem>, e: seq<PageItem>)
    ensures a + (b + c + d) + e == [] + a + b + c + d + e
  {
  }

  /** The whole pager: nothing for a single page, else the entries. */
  method Render(current: int, total: int) returns (r: Option<seq<PageItem>>)
    ensures r.None? <==> total <= 1
    ensures r.Some? ==> r.value == PageItems(current, total)
  {
    if total <= 1 {
      return None;
    }
    var pages := RenderPageNumbers(current, total);
    r := Some(pages);
  }

  /** The request a page button sends: the same search with `page` set. */
  function NavigateToPage(p: SearchParams.Params, page: int): (r: SearchParams.Params)
    ensures r.page == Some(page)
    ensures SearchParams.SameFilters(r, p)
    ensures r.limit == p.limit && r.sortBy == p.sortBy && r.sortOrder == p.sortOrder
  {
    p.(page := Some(page))
  }

  // ---- Properties of the entries ----

  /** The button at position `k` of a run is page `first + k`, active
      exactly when it is the current page. */
  lemma {:induction false} ButtonAt(first: int, last: int, current: int, k: int)
    requires 0 <= k <= last - first
    ensures Buttons(first, last, current)[k] == PageButton(first + k, first + k == current)
    decreases last - first
  {
    if k < last - first {
      ButtonAt(first, last - 1, current, k);
    }
  }

  /** A run holds nothing but page buttons, each inside the run and active
      exactly when it is the current page. */
  lemma {:induction false} ButtonsArePages(first: int, last: int, current: int)
    ensures forall x | x in Buttons(first, last, current) ::
      x.PageButton? && first <= x.number <= last && (x.active <==> x.number == current)
    decreases last - first
  {
    if first <= last {
      ButtonsArePages(first, last - 1, current);
    }
  }

  /** Between the previous and next buttons there are only page buttons and
      ellipses, and a page button is active exactly for the current page. */
  lemma {:induction false} MiddleOnlyPages(current: int, total: int)
    ensures forall x | x in Middle(current, total) ::
      (x.PageButton? || x.Ellipsis?) && (x.PageButton? ==> (x.active <==> x.number == current))
  {
    var w := PageWindow(current, total);
    ButtonsArePages(w.first, w.last, current);
  }

  /** Only page buttons and ellipses. */
  predicate OnlyPages(m: seq<PageItem>) {
    forall x | x in m :: x.PageButton? || x.Ellipsis?
  }

  /** With at most one previous button in front and at most one next button
      behind a run of pages, "Previous" can only be first and "Next" only
      last. */
  lemma {:induction false} Framed(p: seq<PageItem>, m: seq<PageItem>, n: seq<PageItem>)
    requires |p| <= 1 && (forall x | x in p :: x.Previous?)
    requires |n| <= 1 && (forall x | x in n :: x.Next?)
    requires OnlyPages(m)
    ensures forall i | 0 <= i < |p + m + n| && (p + m + n)[i].Previous? :: i == 0 && |p| == 1
    ensures forall i | 0 <= i < |p + m + n| && (p + m + n)[i].Next? :: i == |p + m + n| - 1 && |n| == 1
  {
    var items := p + m + n;
    forall i | 0 <= i < |items|
      ensures items[i].Previous? ==> i == 0 && |p| == 1
      ensures items[i].Next? ==> i == |items| - 1 && |n| == 1
    {
      if i < |p| {
        assert items[i] == p[i] && p[i] in p;
      } else if i < |p| + |m| {
        assert items[i] == m[i - |p|] && m[i - |p|] in m;
      } else {
        assert items[i] == n[i - |p| - |m|] && n[i - |p| - |m|] in n;
      }
    }
  }

  /** "Previous" is shown, in first place and only there, exactly when the
      current page is not the first; it leads to the page before. */
  lemma {:induction false} PreviousComesFirst(current: int, total: int)
    ensures var items := PageItems(current, total);
      && ((|items| > 0 && items[0] == Previous(current - 1)) <==> current > 1)
      && forall i | 0 < i < |items| :: !items[i].Previous?
  {
    MiddleOnlyPages(current, total);
    Framed(PreviousPart(current), Middle(current, total), NextPart(current, total));
  }

  /** "Next" is shown, in last place and only there, exactly when the
      current page is not the last; it leads to the page after. */
  lemma {:induction false} NextComesLast(current: int, total: int)
    ensures var items := PageItems(current, total);
      && ((|items| > 0 && items[|items| - 1] == Next(current + 1)) <==> current < total)
      && forall i | 0 <= i < |items| - 1 :: !items[i].Next?
  {
    MiddleOnlyPages(current, total);
    Framed(PreviousPart(current), Middle(current, total), NextPart(current, total));
  }

  /** Page buttons are active exactly for the current page, and when the
      current page exists its button is shown. */
  lemma {:induction false} ActiveIsCurrent(current: int, total: int)
    ensures forall x | x in PageItems(current, total) && x.PageButton? :: x.active <==> x.number == current
    ensures 1 <= current <= total ==> PageButton(current, true) in PageItems(current, total)
  {
    MiddleOnlyPages(current, total);
    if 1 <= current <= total {
      var w := PageWindow(current, total);
      ButtonAt(w.first, w.last, current, current - w.first);
      assert PageButton(current, true) in Buttons(w.first, w.last, current);
      assert PageButton(current, true) in Middle(current, total);
    }
  }

  /** The page numbers shown, in order. */
  function PageNumbers(items: seq<PageItem>): seq<int> {
    if items == [] then [] else NumberOf(items[0]) + PageNumbers(items[1..])
  }

  /** The page number an item shows, if any. */
  function NumberOf(item: PageItem): seq<int> {
    if item.PageButton? then [item.number] else []
  }

  predicate StrictlyIncreasing(ns: seq<int>) {
    forall i, j | 0 <= i < j < |ns| :: ns[i] < ns[j]
  }

  /** Each ellipsis stands between two page buttons whose numbers are not
      neighbours, and two page buttons side by side are neighbours. */
  predicate GapsMarked(items: seq<PageItem>) {
    && (forall i | 0 <= i < |items| - 1 && items[i].PageButton? && items[i + 1].PageButton? ::
          items[i + 1].number == items[i].number + 1)
    && (forall i | 0 <= i < |items| && items[i].Ellipsis? ::
          0 < i < |items| - 1 && items[i - 1].PageButton? && items[i + 1].PageButton?
          && items[i + 1].number > items[i - 1].number + 1)
  }

  /** The page numbers `first` to `last`. */
  function Pages(first: int, last: int): (r: seq<int>)
    decreases last - first
    ensures |r| == if last < first then 0 else last - first + 1
    ensures forall k | 0 <= k < |r| :: r[k] == first + k
  {
    if last < first then [] else Pages(first, last - 1) + [last]
  }

  lemma {:induction false} PageNumbersAppend(a: seq<PageItem>, b: seq<PageItem>)
    ensures PageNumbers(a + b) == PageNumbers(a) + PageNumbers(b)
  {
    if a == [] {
      assert a + b == b;
    } else {
      var rest := a[1..];
      assert (a + b)[0] == a[0] && (a + b)[1..] == rest + b;
      PageNumbersAppend(rest, b);
      assert PageNumbers(a + b) == NumberOf(a[0]) + (PageNumbers(rest) + PageNumbers(b));
      Seqs.AppendAssoc(NumberOf(a[0]), PageNumbers(rest), PageNumbers(b));
    }
  }

  /** A run of buttons shows the pages `first` to `last`. */
  lemma {:induction false} ButtonNumbers(first: int, last: int, current: int)
    ensures PageNumbers(Buttons(first, last, current)) == Pages(first, last)
    decreases last - first
  {
    if first <= last {
      ButtonNumbers(first, last - 1, current);
      PageNumbersAppend(Buttons(first, last - 1, current), [PageButton(last, last == current)]);
    }
  }

  /** Page 1 is shown before the window when the window starts later. */
  lemma {:induction false} LeadingNumbers(first: int)
    ensures PageNumbers(Leading(first)) == if first > 1 then [1] else []
  {
    if first > 2 {
      assert Leading(first)[1..] == [Ellipsis];
      assert PageNumbers([Ellipsis]) == PageNumbers([]) == [];
    } else if first > 1 {
      assert PageNumbers(Leading(first)[1..]) == PageNumbers([]);
    }
  }

  /** The last page is shown after the window when the window ends earlier. */
  lemma {:induction false} TrailingNumbers(last: int, total: int)
    ensures PageNumbers(Trailing(last, total)) == if last < total then [total] else []
  {
    if last < total - 1 {
      assert Trailing(last, total)[1..] == [PageButton(total, false)];
      assert PageNumbers([PageButton(total, false)][1..]) == PageNumbers([]);
    } else if last < total {
      assert PageNumbers(Trailing(last, total)[1..]) == PageNumbers([]);
    }
  }

  /** The numbers shown are those of page 1, the window and the last page. */
  lemma {:induction false} NumbersOfItems(current: int, total: int)
    ensures var w := PageWindow(current, total);
      PageNumbers(PageItems(current, total))
        == PageNumbers(Leading(w.first)) + Pages(w.first, w.last) + PageNumbers(Trailing(w.last, total))
  {
    var w := PageWindow(current, total);
    var p, l, b, t, n := PreviousPart(current), Leading(w.first), Buttons(w.first, w.last, current), Trailing(w.last, total), NextPart(current, total);
    ItemsInParts(current, total, w.first, w.last);
    ButtonNumbers(w.first, w.last, current);
    assert PageNumbers(p) == [] by {
      if p != [] { assert PageNumbers(p) == PageNumbers(p[1..]) && p[1..] == []; }
    }
    assert PageNumbers(n) == [] by {
      if n != [] { assert PageNumbers(n) == PageNumbers(n[1..]) && n[1..] == []; }
    }
    NumbersOfParts(PageItems(current, total), p, l, b, t, n);
  }

  lemma {:induction false} NumbersOfParts(items: seq<PageItem>, p: seq<PageItem>, l: seq<PageItem>, b: seq<PageItem>,
                                          t: seq<PageItem>, n: seq<PageItem>)
    requires items == [] + p + l + b + t + n
    requires PageNumbers(p) == [] && PageNumbers(n) == []
    ensures PageNumbers(items) == PageNumbers(l) + PageNumbers(b) + PageNumbers(t)
  {
    var m := l + b + t;
    assert items == p + m + n;
    NumbersOfThree(items, p, m, n);
    NumbersOfThree(m, l, b, t);
    Seqs.AppendEmpty(PageNumbers(m));
  }

  lemma {:induction false} NumbersOfThree(items: seq<PageItem>, a: seq<PageItem>, b: seq<PageItem>, c: seq<PageItem>)
    requires items == a + b + c
    ensures PageNumbers(items) == PageNumbers(a) + PageNumbers(b) + PageNumbers(c)
  {
    PageNumbersAppend(a, b);
    PageNumbersAppend(a + b, c);
  }

  /** The pager shows page 1, the window and the last page, in increasing
      order and each once. */
  lemma {:induction false} PageNumbersShown(current: int, total: int)
    requires total >= 1
    ensures var ns := PageNumbers(PageItems(current, total));
      && |ns| >= 1 && ns[0] == 1 && ns[|ns| - 1] == total && StrictlyIncreasing(ns)
  {
    var w := PageWindow(current, total);
    NumbersOfItems(current, total);
    LeadingNumbers(w.first);
    TrailingNumbers(w.last, total);
    var lead: seq<int> := if w.first > 1 then [1] else [];
    var tail: seq<int> := if w.last < total then [total] else [];
    ShownInOrder(lead, Pages(w.first, w.last), tail, w.first, w.last, total);
  }

  /** Page 1 when the window starts later, the window, and the last page
      when the window ends earlier, run from 1 to `total` in increasing
      order. */
  lemma {:induction false} ShownInOrder(lead: seq<int>, mid: seq<int>, tail: seq<int>, first: int, last: int, total: int)
    requires 1 <= first <= last <= total
    requires mid == Pages(first, last)
    requires lead == (if first > 1 then [1] else [])
    requires tail == (if last < total then [total] else [])
    ensures var ns := lead + mid + tail;
      && |ns| >= 1 && ns[0] == 1 && ns[|ns| - 1] == total && StrictlyIncreasing(ns)
  {
    assert mid[0] == first && mid[|mid| - 1] == last;
    IncreasingJoin(lead, mid, tail);
    var ns := lead + mid + tail;
    if lead == [] {
      assert ns[0] == mid[0];
    }
    if tail == [] {
      assert ns[|ns| - 1] == mid[|mid| - 1];
    }
  }

  lemma {:induction false} IncreasingJoin(a: seq<int>, b: seq<int>, c: seq<int>)
    requires StrictlyIncreasing(a) && StrictlyIncreasing(b) && StrictlyIncreasing(c)
    requires |b| > 0
    requires forall i | 0 <= i < |a| :: a[i] < b[0]
    requires forall i | 0 <= i < |c| :: b[|b| - 1] < c[i]
    ensures StrictlyIncreasing(a + b + c)
  {
    var s := a + b + c;
    forall i, j | 0 <= i < j < |s|
      ensures s[i] < s[j]
    {
      if i < |a| && j >= |a| {
        assert s[i] == a[i] < b[0] <= s[j] by {
          if j < |a| + |b| { assert s[j] == b[j - |a|]; } else { assert s[j] == c[j - |a| - |b|]; }
        }
      }
    }
  }

  // ---- Ellipses ----

  lemma {:induction false} ButtonsMarked(first: int, last: int, current: int)
    ensures GapsMarked(Buttons(first, last, current))
  {
    var b := Buttons(first, last, current);
    ButtonsArePages(first, last, current);
    forall i | 0 <= i < |b| - 1
      ensures b[i + 1].number == b[i].number + 1
    {
      ButtonAt(first, last, current, i);
      ButtonAt(first, last, current, i + 1);
    }
    forall i | 0 <= i < |b|
      ensures !b[i].Ellipsis?
    {
      assert b[i] in b;
    }
  }

  /** Two marked runs side by side stay marked when the pages meeting at the
      join are neighbours. */
  lemma {:induction false} JoinButtons(x: seq<PageItem>, y: seq<PageItem>)
    requires GapsMarked(x) && GapsMarked(y) && |x| > 0 && |y| > 0
    requires x[|x| - 1].PageButton? && y[0].PageButton? && y[0].number == x[|x| - 1].number + 1
    ensures GapsMarked(x + y)
  {
    var s := x + y;
    forall i | 0 <= i < |s| - 1 && s[i].PageButton? && s[i + 1].PageButton?
      ensures s[i + 1].number == s[i].number + 1
    {
      if i + 1 < |x| {
        assert s[i] == x[i] && s[i + 1] == x[i + 1];
      } else if i >= |x| {
        assert s[i] == y[i - |x|] && s[i + 1] == y[i + 1 - |x|];
      }
    }
    forall i | 0 <= i < |s| && s[i].Ellipsis?
      ensures 0 < i < |s| - 1 && s[i - 1].PageButton? && s[i + 1].PageButton?
              && s[i + 1].number > s[i - 1].number + 1
    {
      if i < |x| {
        assert s[i] == x[i] && s[i - 1] == x[i - 1] && s[i + 1] == x[i + 1];
      } else {
        assert s[i] == y[i - |x|] && s[i - 1] == y[i - 1 - |x|] && s[i + 1] == y[i + 1 - |x|];
      }
    }
  }

  /** Two marked runs with an ellipsis between them stay marked when pages
      are skipped at the join. */
  lemma {:induction false} JoinEllipsis(x: seq<PageItem>, y: seq<PageItem>)
    requires GapsMarked(x) && GapsMarked(y) && |x| > 0 && |y| > 0
    requires x[|x| - 1].PageButton? && y[0].PageButton? && y[0].number > x[|x| - 1].number + 1
    ensures GapsMarked(x + [Ellipsis] + y)
  {
    var s := x + [Ellipsis] + y;
    var e := |x|;
    assert s[e] == Ellipsis;
    forall i | 0 <= i < |s| - 1 && s[i].PageButton? && s[i + 1].PageButton?
      ensures s[i + 1].number == s[i].number + 1
    {
      if i + 1 < e {
        assert s[i] == x[i] && s[i + 1] == x[i + 1];
      } else if i > e {
        assert s[i] == y[i - e - 1] && s[i + 1] == y[i - e];
      }
    }
    forall i | 0 <= i < |s| && s[i].Ellipsis?
      ensures 0 < i < |s| - 1 && s[i - 1].PageButton? && s[i + 1].PageButton?
              && s[i + 1].number > s[i - 1].number + 1
    {
      if i < e {
        assert s[i] == x[i] && s[i - 1] == x[i - 1] && s[i + 1] == x[i + 1];
      } else if i > e {
        assert s[i] == y[i - e - 1] && s[i - 1] == y[i - e - 2] && s[i + 1] == y[i - e];
      } else {
        assert s[i - 1] == x[e - 1] && s[i + 1] == y[0];
      }
    }
  }

  /** A previous button in front and a next button behind leave a marked run
      marked. */
  lemma {:induction false} FrameMarked(p: seq<PageItem>, m: seq<PageItem>, n: seq<PageItem>)
    requires forall x | x in p :: x.Previous?
    requires forall x | x in n :: x.Next?
    requires GapsMarked(m)
    ensures GapsMarked(p + m + n)
  {
    var s := p + m + n;
    forall i | 0 <= i < |s|
      ensures s[i].PageButton? || s[i].Ellipsis? ==> |p| <= i < |p| + |m| && s[i] == m[i - |p|]
    {
      if i < |p| {
        assert s[i] == p[i] && p[i] in p;
      } else if i >= |p| + |m| {
        assert s[i] == n[i - |p| - |m|] && n[i - |p| - |m|] in n;
      }
    }
  }

  /** The window with page 1 and its ellipsis in front is marked. */
  lemma {:induction false} LeadingMarked(current: int, total: int)
    requires total >= 1
    ensures var w := PageWindow(current, total);
      GapsMarked(Leading(w.first) + Buttons(w.first, w.last, current))
  {
    var w := PageWindow(current, total);
    var b := Buttons(w.first, w.last, current);
    ButtonsMarked(w.first, w.last, current);
    ButtonAt(w.first, w.last, current, 0);
    var one := [PageButton(1, false)];
    assert GapsMarked(one);
    if w.first == 1 {
      assert Leading(w.first) + b == b;
    } else if w.first == 2 {
      JoinButtons(one, b);
    } else {
      JoinEllipsis(one, b);
    }
  }

  /** The entries between "Previous" and "Next" are marked. */
  lemma {:induction false} MiddleMarked(current: int, total: int)
    requires total >= 1
    ensures GapsMarked(Middle(current, total))
  {
    var w := PageWindow(current, total);
    var b := Buttons(w.first, w.last, current);
    var lb := Leading(w.first) + b;
    LeadingMarked(current, total);
    ButtonAt(w.first, w.last, current, w.last - w.first);
    assert lb[|lb| - 1] == b[|b| - 1];
    TrailingMarked(lb, w.last, total);
    assert Middle(current, total) == lb + Trailing(w.last, total);
  }

  /** A marked run ending at page `last` stays marked with the last page and
      its ellipsis behind it. */
  lemma {:induction false} TrailingMarked(x: seq<PageItem>, last: int, total: int)
    requires GapsMarked(x) && |x| > 0
    requires x[|x| - 1].PageButton? && x[|x| - 1].number == last
    ensures GapsMarked(x + Trailing(last, total))
  {
    var tail := [PageButton(total, false)];
    assert GapsMarked(tail);
    if last >= total {
      assert x + Trailing(last, total) == x;
    } else if last == total - 1 {
      assert Trailing(last, total) == tail;
      JoinButtons(x, tail);
    } else {
      assert x + Trailing(last, total) == x + [Ellipsis] + tail;
      JoinEllipsis(x, tail);
    }
  }

  /** Each ellipsis of the pager stands for skipped pages and side-by-side
      buttons are neighbouring pages. */
  lemma {:induction false} EllipsisMarksGaps(current: int, total: int)
    requires total >= 1
    ensures GapsMarked(PageItems(current, total))
  {
    MiddleMarked(current, total);
    FrameMarked(PreviousPart(current), Middle(current, total), NextPart(current, total));
  }

  /** There is one ellipsis before the window when it starts after page 2
      and one after it when it ends before the page before the last. */
  lemma {:induction false} EllipsisCount(current: int, total: int)
    ensures var w := PageWindow(current, total);
      multiset(PageItems(current, total))[Ellipsis]
        == (if w.first > 2 then 1 else 0) + (if w.last < total - 1 then 1 else 0)
  {
    var w := PageWindow(current, total);
    var b := Buttons(w.first, w.last, current);
    ItemsInParts(current, total, w.first, w.last);
    ButtonsArePages(w.first, w.last, current);
    assert Ellipsis !in b;
    EllipsesOfWindow(PageItems(current, total), PreviousPart(current), w.first, b, w.last, total, NextPart(current, total));
  }

  lemma {:induction false} EllipsesOfWindow(items: seq<PageItem>, p: seq<PageItem>, first: int, b: seq<PageItem>,
                                            last: int, total: int, n: seq<PageItem>)
    requires items == [] + p + Leading(first) + b + Trailing(last, total) + n
    requires Ellipsis !in p && Ellipsis !in b && Ellipsis !in n
    ensures multiset(items)[Ellipsis] == (if first > 2 then 1 else 0) + (if last < total - 1 then 1 else 0)
  {
    EllipsesOfParts(items, p, Leading(first), b, Trailing(last, total), n);
    LeadingEllipses(first);
    TrailingEllipses(last, total);
  }

  lemma {:induction false} LeadingEllipses(first: int)
    ensures multiset(Leading(first))[Ellipsis] == if first > 2 then 1 else 0
  {
    if first > 2 {
      assert Leading(first) == [PageButton(1, false), Ellipsis];
    } else if first > 1 {
      assert Leading(first) == [PageButton(1, false)];
    }
  }

  lemma {:induction false} TrailingEllipses(last: int, total: int)
    ensures multiset(Trailing(last, total))[Ellipsis] == if last < total - 1 then 1 else 0
  {
    if last < total - 1 {
      assert Trailing(last, total) == [Ellipsis, PageButton(total, false)];
    } else if last < total {
      assert Trailing(last, total) == [PageButton(total, false)];
    }
  }

  lemma {:induction false} EllipsesOfParts(items: seq<PageItem>, p: seq<PageItem>, l: seq<PageItem>, b: seq<PageItem>, t: seq<PageItem>, n: seq<PageItem>)
    requires items == [] + p + l + b + t + n
    requires Ellipsis !in p && Ellipsis !in b && Ellipsis !in n
    ensures multiset(items)[Ellipsis] == multiset(l)[Ellipsis] + multiset(t)[Ellipsis]
  {
    assert multiset(items) == multiset(p) + multiset(l) + multiset(b) + multiset(t) + multiset(n);
  }
}
