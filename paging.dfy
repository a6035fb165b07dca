/**
 * Paged listings: the page clamp and slice arithmetic shared by the
 * list renderers, the neighbour pages of `pager_row`, the page number read
 * back from a pager button, and the 1-based `_get_by_ordinal` lookup that
 * resolves the numbers those listings show.
 */
module Paging {
  import opened Wrappers
  import opened Strings
  import Batches

  // ---------------------------------------------------------------------
  // Arithmetic helpers
  // ---------------------------------------------------------------------

  function Max(a: int, b: int): int { if a < b then b else a }

  function Min(a: int, b: int): int { if a < b then a else b }

  lemma MulMono(a: int, b: int, n: nat)
    requires a <= b
    ensures a * n <= b * n
  {
  }

  /** `math.ceil(total / per_page)` on whole numbers: the fewest pages of `perPage` items holding `total`. */
  function CeilDiv(total: nat, perPage: nat): (r: nat)
    requires perPage >= 1
    ensures total <= r * perPage
    ensures total > 0 ==> (r - 1) * perPage < total
    ensures total == 0 ==> r == 0
  {
    var x := total + perPage - 1;
    var q := x / perPage;
    assert x == q * perPage + x % perPage;
    q
  }

  /** At most one page count lies between those bounds. */
  lemma CountUnique(total: nat, n: nat, c: nat, r: nat)
    requires n >= 1 && total > 0
    requires total <= c * n && (c - 1) * n < total
    requires total <= r * n && (r - 1) * n < total
    ensures c == r
  {
    if c < r {
      MulMono(c, r - 1, n);
    } else if r < c {
      MulMono(r, c - 1, n);
    }
  }

  // ---------------------------------------------------------------------
  // The page window
  // ---------------------------------------------------------------------

  datatype Window = Window(totalPages: nat, page: int, start: int, end: int)

  /**
   * `total_pages = max(1, ceil(total / per_page))`, the requested page
   * clamped into `[1, total_pages]`, and the slice `[start, end)` it shows.
   */
  function PageWindow(total: nat, perPage: int, page: int): (w: Window)
    requires perPage >= 1
    ensures 1 <= w.page <= w.totalPages
    ensures 0 <= w.start <= w.end <= total
    ensures w.end - w.start <= perPage
    ensures total > 0 ==> w.start < w.end
    ensures 1 <= page <= w.totalPages ==> w.page == page
    ensures page < 1 ==> w.page == 1
    ensures page > w.totalPages ==> w.page == w.totalPages
    ensures total <= w.totalPages * perPage
    ensures total > 0 ==> (w.totalPages - 1) * perPage < total
    ensures total == 0 ==> w.totalPages == 1
  {
    var totalPages := Max(1, CeilDiv(total, perPage));
    var p := Max(1, Min(page, totalPages));
    var start := (p - 1) * perPage;
    var end := Min(total, start + perPage);
    MulMono(0, p - 1, perPage);
    MulMono(p - 1, totalPages - 1, perPage);
    Window(totalPages, p, start, end)
  }

  /** The items one page shows. */
  function Slice<T>(items: seq<T>, perPage: int, page: int): (s: seq<T>)
    requires perPage >= 1
    ensures |s| <= perPage
    ensures |items| > 0 ==> |s| > 0
  {
    var w := PageWindow(|items|, perPage, page);
    items[w.start..w.end]
  }

  /** Pages tile the list: page 1 starts at 0, each page ends where the next begins, the last ends at the end. */
  lemma PagesTile(total: nat, perPage: int, p: int)
    requires perPage >= 1 && 1 <= p
    ensures PageWindow(total, perPage, 1).start == 0
    ensures p < PageWindow(total, perPage, p).totalPages ==>
              PageWindow(total, perPage, p).end == PageWindow(total, perPage, p + 1).start
    ensures p == PageWindow(total, perPage, p).totalPages ==> PageWindow(total, perPage, p).end == total
  {
    var w := PageWindow(total, perPage, p);
    if p < w.totalPages {
      MulMono(p, w.totalPages - 1, perPage);
      assert (p + 1 - 1) * perPage == (p - 1) * perPage + perPage;
    } else if p == w.totalPages {
      assert w.start == (w.totalPages - 1) * perPage;
      assert total <= w.start + perPage;
    }
  }

  /** There are as many pages as `join_batches` makes groups of the same size. */
  lemma PageCount<T>(items: seq<T>, perPage: int, p: int)
    requires perPage >= 1 && items != []
    ensures PageWindow(|items|, perPage, p).totalPages == |Batches.Chunks(items, perPage)|
  {
    Batches.ChunksCount(items, perPage);
    Batches.ChunksSizes(items, perPage);
    CountUnique(|items|, perPage, |Batches.Chunks(items, perPage)|, PageWindow(|items|, perPage, p).totalPages);
  }

  /** A page shows exactly the group of `join_batches` with the same number. */
  lemma PageIsChunk<T>(items: seq<T>, perPage: int, p: int)
    requires perPage >= 1 && items != []
    ensures PageWindow(|items|, perPage, p).totalPages == |Batches.Chunks(items, perPage)|
    ensures 1 <= p <= |Batches.Chunks(items, perPage)| ==>
              Slice(items, perPage, p) == Batches.Chunks(items, perPage)[p - 1]
  {
    PageCount(items, perPage, p);
    if 1 <= p <= |Batches.Chunks(items, perPage)| {
      var w := PageWindow(|items|, perPage, p);
      Batches.ChunkAt(items, perPage, p - 1);
      assert (p - 1 + 1) * perPage == w.start + perPage;
    }
  }

  // ---------------------------------------------------------------------
  // 1-based lookup
  // ---------------------------------------------------------------------

  /** `_get_by_ordinal`: the item numbered `ordinal` counting from 1, or nothing when out of range. */
  function GetByOrdinal<T>(items: seq<T>, ordinal: int): (r: Option<T>)
    ensures r.Some? <==> 1 <= ordinal <= |items|
    ensures r.Some? ==> r.value == items[ordinal - 1]
  {
    if ordinal < 1 || ordinal > |items| then None else Some(items[ordinal - 1])
  }

  /** The number a listing prints beside an item (`enumerate(..., start=start + 1)`) looks that item up again. */
  lemma ListedOrdinal<T>(items: seq<T>, perPage: int, page: int, k: nat)
    requires perPage >= 1
    requires k < |Slice(items, perPage, page)|
    ensures GetByOrdinal(items, PageWindow(|items|, perPage, page).start + 1 + k) == Some(Slice(items, perPage, page)[k])
  {
  }

  // ---------------------------------------------------------------------
  // pager_row
  // ---------------------------------------------------------------------

  datatype Button = Button(text: string, callbackData: string)

  /** The previous page, never below 1. */
  function LeftPage(page: int): int { Max(1, page - 1) }

  /** The next page, never past the last. */
  function RightPage(page: int, totalPages: int): int { Min(totalPages, page + 1) }

  /** `pager_row`: "◀️" to the previous page, "page/total" doing nothing, "▶️" to the next page. */
  function PagerRow(cbPrefix: string, page: int, totalPages: int): (row: seq<Button>)
    ensures |row| == 3
    ensures row[1].callbackData == "noop"
  {
    [ Button("\U{25C0}\U{FE0F}", cbPrefix + IntToString(LeftPage(page))),
      Button(IntToString(page) + "/" + IntToString(totalPages), "noop"),
      Button("\U{25B6}\U{FE0F}", cbPrefix + IntToString(RightPage(page, totalPages))) ]
  }

  /** For a page in range the neighbours stay in range, and move by one except at the ends. */
  lemma PagerNeighbours(page: int, totalPages: int)
    requires 1 <= page <= totalPages
    ensures 1 <= LeftPage(page) <= page <= RightPage(page, totalPages) <= totalPages
    ensures LeftPage(page) == if page > 1 then page - 1 else 1
    ensures RightPage(page, totalPages) == if page < totalPages then page + 1 else totalPages
    ensures LeftPage(page) == page <==> page == 1
    ensures RightPage(page, totalPages) == page <==> page == totalPages
  {
  }

  /**
   * The page a list callback asks for, as the list handlers read it:
   * the third `:`-field if it is all digits, and page 1 otherwise.
   */
  function PageFromCallback(data: string): nat {
    var parts := Split(data, ':');
    if |parts| >= 3 && IsDigits(parts[2]) then DigitsValue(parts[2]) else 1
  }

  lemma CallbackFields(a: string, b: string, d: string)
    requires ':' !in a && ':' !in b && ':' !in d
    ensures Split(a + [':'] + (b + [':'] + d), ':') == [a] + ([b] + [d])
  {
    SplitCons(b, ':', d);
    SplitCons(a, ':', b + [':'] + d);
  }

  /** Round trip: the number written after a `section:action:` prefix is the page read back. */
  lemma PageFromCallbackRoundTrip(a: string, b: string, page: nat)
    requires ':' !in a && ':' !in b
    ensures PageFromCallback(a + [':'] + (b + [':'] + NatToString(page))) == page
  {
    var d := NatToString(page);
    assert forall j :: 0 <= j < |d| ==> d[j] != ':';
    CallbackFields(a, b, d);
    NatToStringValue(page);
  }

  /** Both arrows of a pager row lead, through the list handler, to the neighbour pages. */
  lemma PagerButtonsLead(a: string, b: string, page: int, totalPages: int)
    requires ':' !in a && ':' !in b
    requires 1 <= page <= totalPages
    ensures PageFromCallback(PagerRow(a + [':'] + b + [':'], page, totalPages)[0].callbackData) == LeftPage(page)
    ensures PageFromCallback(PagerRow(a + [':'] + b + [':'], page, totalPages)[2].callbackData) == RightPage(page, totalPages)
  {
    var prefix := a + [':'] + b + [':'];
    var l, r := LeftPage(page), RightPage(page, totalPages);
    assert prefix + NatToString(l) == a + [':'] + (b + [':'] + NatToString(l));
    assert prefix + NatToString(r) == a + [':'] + (b + [':'] + NatToString(r));
    PageFromCallbackRoundTrip(a, b, l);
    PageFromCallbackRoundTrip(a, b, r);
  }
}
