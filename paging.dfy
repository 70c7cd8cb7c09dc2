/** The page arithmetic of the page script: the page count, the clamp of the
    requested page, the slice of records a page shows, and the pagination
    controls (Prev, a window of numbered buttons, Next). */
module Paging {

  function Max(a: int, b: int): int { if a < b then b else a }

  function Min(a: int, b: int): int { if a < b then a else b }

  /** `Math.ceil(n / perPage)`: the least number of pages of `perPage` items
      that hold `n` items. */
  function TotalPages(n: nat, perPage: int): (t: nat)
    requires perPage >= 1
    ensures t * perPage >= n
    ensures t == 0 || (t - 1) * perPage < n
  {
    var t := (n + perPage - 1) / perPage;
    assert n + perPage - 1 == t * perPage + (n + perPage - 1) % perPage;
    t
  }

  /** The clamp of the requested page: a page beyond the last becomes the
      last page, or page 1 when there are no pages at all. */
  function ClampPage(page: int, totalPages: int): int
  {
    if page > totalPages then Max(totalPages, 1) else page
  }

  /** A clamped page lies in `[1, max(totalPages, 1)]`, a page already in that
      range is kept, and clamping twice changes nothing. */
  lemma ClampPageInRange(page: int, totalPages: int)
    requires page >= 1
    ensures 1 <= ClampPage(page, totalPages) <= Max(totalPages, 1)
    ensures page <= Max(totalPages, 1) ==> ClampPage(page, totalPages) == page
    ensures ClampPage(ClampPage(page, totalPages), totalPages) == ClampPage(page, totalPages)
  {
  }

  /** Requesting page 10 of 3 shows page 3; with no pages, page 1 is shown. */
  lemma ClampPageExamples()
    ensures ClampPage(10, 3) == 3
    ensures ClampPage(1, 0) == 1
    ensures ClampPage(2, 3) == 2
  {
  }

  /** A position argument of `Array.prototype.slice`: negative positions count
      from the end, and every position is clamped to `[0, len]`. */
  function SlicePosition(len: nat, i: int): (r: nat)
    ensures r <= len
  {
    if i < 0 then Max(len + i, 0) else Min(i, len)
  }

  /** `s.slice(start, end)`. */
  function JsSlice<T>(s: seq<T>, start: int, end: int): seq<T>
  {
    var from, to := SlicePosition(|s|, start), SlicePosition(|s|, end);
    if from < to then s[from..to] else []
  }

  /** The records shown on `page`: `filtered.slice(start, start + perPage)`
      with `start = (page - 1) * perPage`. */
  function PageItems<T>(filtered: seq<T>, page: int, perPage: int): seq<T>
  {
    var start := (page - 1) * perPage;
    JsSlice(filtered, start, start + perPage)
  }

  /** Page `page` shows the records at positions `[(page - 1) * perPage,
      page * perPage)`, cut off at the end of the filtered records, so no page
      shows more than `perPage` records. */
  lemma PageItemsRange<T>(filtered: seq<T>, page: int, perPage: int)
    requires page >= 1 && perPage >= 1
    ensures 0 <= (page - 1) * perPage <= page * perPage
    ensures PageItems(filtered, page, perPage)
      == filtered[Min((page - 1) * perPage, |filtered|)..Min(page * perPage, |filtered|)]
    ensures |PageItems(filtered, page, perPage)| <= perPage
  {
    var start := (page - 1) * perPage;
    assert 0 <= start by {
      assert page - 1 >= 0;
    }
    assert start + perPage == page * perPage;
    var from, to := SlicePosition(|filtered|, start), SlicePosition(|filtered|, start + perPage);
    assert from == Min(start, |filtered|) && to == Min(page * perPage, |filtered|);
  }

  /** With 95 records and 40 per page there are 3 pages; page 1 shows
      positions `[0, 40)` and page 3 positions `[80, 95)`. */
  lemma PageItemsExample<T>(filtered: seq<T>)
    requires |filtered| == 95
    ensures TotalPages(|filtered|, 40) == 3
    ensures PageItems(filtered, 1, 40) == filtered[0..40]
    ensures PageItems(filtered, 3, 40) == filtered[80..95]
  {
    PageItemsRange(filtered, 1, 40);
    PageItemsRange(filtered, 3, 40);
  }

  /** Pages `1` to `k`, one after the other. */
  function PagesUpTo<T>(filtered: seq<T>, perPage: int, k: nat): seq<T>
  {
    if k == 0 then [] else PagesUpTo(filtered, perPage, k - 1) + PageItems(filtered, k, perPage)
  }

  /** Pages `1` to `k` together are the first `k * perPage` records. */
  lemma {:induction false} PagesUpToPrefix<T>(filtered: seq<T>, perPage: int, k: nat)
    requires perPage >= 1
    ensures PagesUpTo(filtered, perPage, k) == filtered[..Min(k * perPage, |filtered|)]
  {
    if k > 0 {
      PagesUpToPrefix(filtered, perPage, k - 1);
      PageItemsRange(filtered, k, perPage);
      var a, b := Min((k - 1) * perPage, |filtered|), Min(k * perPage, |filtered|);
      assert filtered[..a] + filtered[a..b] == filtered[..b];
    }
  }

  /** The pages `1` to `totalPages`, one after the other, are exactly the
      filtered records: no record is skipped or shown twice. */
  lemma PagesCoverAll<T>(filtered: seq<T>, perPage: int)
    requires perPage >= 1
    ensures PagesUpTo(filtered, perPage, TotalPages(|filtered|, perPage)) == filtered
  {
    PagesUpToPrefix(filtered, perPage, TotalPages(|filtered|, perPage));
    assert filtered[..|filtered|] == filtered;
  }

  /** A range of page numbers, both ends included. */
  datatype Span = Span(first: int, last: int)

  /** The numbered-button window: centred on the current page, then shifted
      down when it would pass the last page, never below page 1. */
  function ButtonWindow(current: int, totalPages: int, maxButtons: int): Span
  {
    var startPage := Max(1, current - maxButtons / 2);
    var endPage := startPage + maxButtons - 1;
    if endPage > totalPages then Span(Max(1, totalPages - maxButtons + 1), totalPages)
    else Span(startPage, endPage)
  }

  /** For a current page within the page count, the window lies within
      `[1, totalPages]`, holds the current page and has
      `min(maxButtons, totalPages)` pages. */
  lemma ButtonWindowBounds(current: int, totalPages: int, maxButtons: int)
    requires 1 <= current <= totalPages && maxButtons >= 1
    ensures var w := ButtonWindow(current, totalPages, maxButtons);
      && 1 <= w.first <= current <= w.last <= totalPages
      && w.last - w.first + 1 == Min(maxButtons, totalPages)
  {
  }

  /** With 10 buttons and 25 pages, page 1 shows buttons 1 to 10 and page 25
      buttons 16 to 25. */
  lemma ButtonWindowExamples()
    ensures ButtonWindow(1, 25, 10) == Span(1, 10)
    ensures ButtonWindow(25, 25, 10) == Span(16, 25)
    ensures ButtonWindow(12, 25, 10) == Span(7, 16)
  {
  }

  /** What a pagination button shows. */
  datatype Label = Prev | Next | PageNumber(page: int)

  /** A pagination button: its label, whether it is disabled, and the page
      that clicking it renders. */
  datatype Button = Button(text: Label, disabled: bool, target: int)

  /** The numbered buttons from `first` to `last`, one per page. */
  function NumberButtons(first: int, last: int, current: int): seq<Button>
    decreases last - first
  {
    if last < first then []
    else NumberButtons(first, last - 1, current) + [Button(PageNumber(last), last == current, last)]
  }

  /** The numbered buttons are `last - first + 1` consecutive pages in
      increasing order, each disabled exactly when it is the current page and
      leading to its own page. */
  lemma {:induction false} NumberButtonsAt(first: int, last: int, current: int)
    ensures |NumberButtons(first, last, current)| == Max(0, last - first + 1)
    ensures forall k :: 0 <= k < |NumberButtons(first, last, current)| ==>
      NumberButtons(first, last, current)[k] == Button(PageNumber(first + k), first + k == current, first + k)
    decreases last - first
  {
    if first <= last {
      NumberButtonsAt(first, last - 1, current);
    }
  }

  /** The controls for the current page: none when there is at most one page,
      otherwise Prev, the numbered window and Next. */
  function PaginationButtons(current: int, totalPages: int, maxButtons: int): seq<Button>
  {
    if totalPages <= 1 then []
    else
      var w := ButtonWindow(current, totalPages, maxButtons);
      [Button(Prev, current == 1, current - 1)]
      + NumberButtons(w.first, w.last, current)
      + [Button(Next, current == totalPages, current + 1)]
  }

  /** `renderPagination`: buttons appended in order, the numbered ones by a
      loop over the window. */
  method RenderPagination(current: int, totalPages: int, maxButtons: int) returns (buttons: seq<Button>)
    ensures buttons == PaginationButtons(current, totalPages, maxButtons)
  {
    buttons := [];
    if totalPages <= 1 {
      return;
    }
    var prev := Button(Prev, current == 1, current - 1);
    buttons := buttons + [prev];
    var startPage := Max(1, current - maxButtons / 2);
    var endPage := startPage + maxButtons - 1;
    if endPage > totalPages {
      endPage := totalPages;
      startPage := Max(1, endPage - maxButtons + 1);
    }
    assert ButtonWindow(current, totalPages, maxButtons) == Span(startPage, endPage);
    var p := startPage;
    while p <= endPage
      invariant startPage <= p <= Max(startPage, endPage + 1)
      invariant buttons == [prev] + NumberButtons(startPage, p - 1, current)
    {
      var button := Button(PageNumber(p), p == current, p);
      assert NumberButtons(startPage, p, current) == NumberButtons(startPage, p - 1, current) + [button];
      buttons := buttons + [button];
      p := p + 1;
    }
    assert NumberButtons(startPage, p - 1, current) == NumberButtons(startPage, endPage, current);
    buttons := buttons + [Button(Next, current == totalPages, current + 1)];
  }

  /** The number of pages, and whether there is more than one, decide whether
      any control is shown: at most one page gives no button at all. */
  lemma SinglePageHasNoControls(current: int, totalPages: int, maxButtons: int)
    ensures PaginationButtons(current, totalPages, maxButtons) == [] <==> totalPages <= 1
  {
  }

  /** The flags and targets of the buttons: Prev is disabled exactly on page 1
      and goes one page back, Next is disabled exactly on the last page and
      goes one page on, and a numbered button is disabled exactly when it is
      the current page and goes to its own page. */
  predicate FlagsHold(b: Button, current: int, totalPages: int)
  {
    match b.text
    case Prev => b.disabled == (current == 1) && b.target == current - 1
    case Next => b.disabled == (current == totalPages) && b.target == current + 1
    case PageNumber(p) => b.disabled == (p == current) && b.target == p
  }

  lemma ButtonFlags(current: int, totalPages: int, maxButtons: int)
    ensures var bs := PaginationButtons(current, totalPages, maxButtons);
      forall k :: 0 <= k < |bs| ==> FlagsHold(bs[k], current, totalPages)
  {
    if totalPages > 1 {
      var w := ButtonWindow(current, totalPages, maxButtons);
      NumberButtonsAt(w.first, w.last, current);
    }
  }

  /** The layout of the controls for a current page within the page count:
      Prev first, Next last, and between them one button per page of the
      window, in increasing order; the current page's button is there and is
      the only disabled numbered button. */
  lemma PaginationLayout(current: int, totalPages: int, maxButtons: int)
    requires 2 <= totalPages && 1 <= current <= totalPages && maxButtons >= 1
    ensures var bs, w := PaginationButtons(current, totalPages, maxButtons), ButtonWindow(current, totalPages, maxButtons);
      && |bs| == Min(maxButtons, totalPages) + 2
      && bs[0].text == Prev && bs[|bs| - 1].text == Next
      && (forall k :: 1 <= k < |bs| - 1 ==> bs[k].text == PageNumber(w.first + k - 1))
      && bs[current - w.first + 1] == Button(PageNumber(current), true, current)
      && (forall k :: 1 <= k < |bs| - 1 && k != current - w.first + 1 ==> !bs[k].disabled)
  {
    ButtonWindowBounds(current, totalPages, maxButtons);
    var w := ButtonWindow(current, totalPages, maxButtons);
    NumberButtonsAt(w.first, w.last, current);
  }

  /** Every enabled button leads to a page within `[1, totalPages]`, whatever
      the number of buttons, as long as the current page is a clamped one. */
  lemma EnabledTargetsInRange(current: int, totalPages: int, maxButtons: int)
    requires 1 <= current <= Max(totalPages, 1)
    ensures var bs := PaginationButtons(current, totalPages, maxButtons);
      forall k :: 0 <= k < |bs| && !bs[k].disabled ==> 1 <= bs[k].target <= totalPages
  {
    var bs := PaginationButtons(current, totalPages, maxButtons);
    if totalPages > 1 {
      var w := ButtonWindow(current, totalPages, maxButtons);
      assert 1 <= w.first && w.last <= totalPages;
      NumberButtonsAt(w.first, w.last, current);
      forall k | 1 <= k < |bs| - 1 ensures w.first <= bs[k].target <= w.last {
        assert bs[k] == NumberButtons(w.first, w.last, current)[k - 1];
      }
    }
  }
}
