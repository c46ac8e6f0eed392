/**
 * The list logic of the actors page of the admin console: the search
 * filter, the fixed-size page slices, the page count and the strip of
 * page buttons under the table.
 */
module ActorList {
  import opened Wrappers
  import opened Text
  import opened Numbers

  /** `itemsPerPage` */
  const ItemsPerPage: nat := 10

  datatype Actor = Actor(id: int, name: string, profilePath: Option<string>)

  // ---------------------------------------------------------------------------
  // Filtering (`Array.prototype.filter`)
  // ---------------------------------------------------------------------------

  function Keep<T(!new)>(s: seq<T>, p: T -> bool): (r: seq<T>)
    ensures |r| <= |s|
    ensures forall x :: x in r <==> x in s && p(x)
  {
    if s == [] then []
    else
      assert forall x :: x in s <==> x == s[0] || x in s[1..];
      (if p(s[0]) then [s[0]] else []) + Keep(s[1..], p)
  }

  /** Filtering a concatenation filters each part in place: the order of the kept items is the original one. */
  lemma {:induction false} KeepAppend<T(!new)>(a: seq<T>, b: seq<T>, p: T -> bool)
    ensures Keep(a + b, p) == Keep(a, p) + Keep(b, p)
  {
    if a == [] {
      assert a + b == b;
    } else {
      assert (a + b)[1..] == a[1..] + b;
      KeepAppend(a[1..], b, p);
    }
  }

  /** A filter that keeps every item returns the list itself. */
  lemma {:induction false} KeepEverything<T(!new)>(s: seq<T>, p: T -> bool)
    requires forall x :: x in s ==> p(x)
    ensures Keep(s, p) == s
  {
    if s != [] {
      assert forall x :: x in s[1..] ==> x in s;
      KeepEverything(s[1..], p);
    }
  }

  /** Two filters that agree on every item keep the same items. */
  lemma {:induction false} KeepAgreeing<T(!new)>(s: seq<T>, p: T -> bool, q: T -> bool)
    requires forall x :: x in s ==> p(x) == q(x)
    ensures Keep(s, p) == Keep(s, q)
  {
    if s != [] {
      assert forall x :: x in s[1..] ==> x in s;
      KeepAgreeing(s[1..], p, q);
    }
  }

  /** The search predicate: the lower-cased name includes the lower-cased query. */
  predicate Matches(actor: Actor, query: string) {
    Contains(Lower(actor.name), Lower(query))
  }

  /** `filteredActors` */
  function Filtered(actors: seq<Actor>, query: string): (r: seq<Actor>)
    ensures forall a :: a in r <==> a in actors && Matches(a, query)
  {
    Keep(actors, a => Matches(a, query))
  }

  /** The filter distributes over the parts of the list, so the listed actors keep their original order. */
  lemma FilteredKeepsOrder(before: seq<Actor>, after: seq<Actor>, query: string)
    ensures Filtered(before + after, query) == Filtered(before, query) + Filtered(after, query)
  {
    KeepAppend(before, after, a => Matches(a, query));
  }

  /** An empty search shows every actor. */
  lemma EmptyQueryKeepsAll(actors: seq<Actor>)
    ensures Filtered(actors, "") == actors
  {
    forall a | a in actors ensures Matches(a, "") {
      ContainsEmpty(Lower(a.name));
    }
    KeepEverything(actors, a => Matches(a, ""));
  }

  /** The search ignores the case of the query. */
  lemma FilterIgnoresQueryCase(actors: seq<Actor>, query: string)
    ensures Filtered(actors, query) == Filtered(actors, Lower(query))
  {
    assert Lower(Lower(query)) == Lower(query) by {
      forall i | 0 <= i < |query| ensures Lower(Lower(query))[i] == Lower(query)[i] {
        LowerCharIdempotent(query[i]);
      }
    }
    KeepAgreeing(actors, a => Matches(a, query), a => Matches(a, Lower(query)));
  }

  /** The list `handleDelete` leaves: every actor whose id differs, in the original order. */
  function WithoutId(actors: seq<Actor>, id: int): (r: seq<Actor>)
    ensures forall a :: a in r <==> a in actors && a.id != id
  {
    Keep(actors, (a: Actor) => a.id != id)
  }

  /** Deleting distributes over the parts of the list, so the survivors keep their relative order. */
  lemma WithoutIdKeepsOrder(before: seq<Actor>, after: seq<Actor>, id: int)
    ensures WithoutId(before + after, id) == WithoutId(before, id) + WithoutId(after, id)
  {
    KeepAppend(before, after, (a: Actor) => a.id != id);
  }

  /** Deleting an id nobody has changes nothing. */
  lemma WithoutAbsentId(actors: seq<Actor>, id: int)
    requires forall i :: 0 <= i < |actors| ==> actors[i].id != id
    ensures WithoutId(actors, id) == actors
  {
    KeepEverything(actors, (a: Actor) => a.id != id);
  }

  // ---------------------------------------------------------------------------
  // Pages (`Array.prototype.slice`, `Math.ceil`)
  // ---------------------------------------------------------------------------

  /** How `slice` reads an index: negative counts from the end, then clamped to the length. */
  function SliceIndex(i: int, length: nat): (k: nat)
    ensures k <= length
    ensures 0 <= i ==> k == Min(i, length)
  {
    if i < 0 then (if length + i < 0 then 0 else length + i)
    else if i > length then length
    else i
  }

  function Slice<T>(s: seq<T>, start: int, end: int): (r: seq<T>)
    ensures SliceIndex(start, |s|) + |r| <= |s|
    ensures |r| == if SliceIndex(start, |s|) < SliceIndex(end, |s|) then SliceIndex(end, |s|) - SliceIndex(start, |s|) else 0
    ensures forall k :: 0 <= k < |r| ==> r[k] == s[SliceIndex(start, |s|) + k]
  {
    var from := SliceIndex(start, |s|);
    var to := SliceIndex(end, |s|);
    if from < to then s[from..to] else []
  }

  /** `indexOfFirstActor` */
  function FirstIndex(page: int): int {
    page * ItemsPerPage - ItemsPerPage
  }

  /** `currentActors`: the items of one page. */
  function PageItems<T>(items: seq<T>, page: int): (r: seq<T>)
    ensures forall k :: 0 <= k < |r| ==> r[k] in items
  {
    Slice(items, FirstIndex(page), page * ItemsPerPage)
  }

  /** The number shown in the first column for row `index` of `page`. */
  function RowNumber(page: int, index: int): int {
    FirstIndex(page) + index + 1
  }

  /**
   * Page `page` shows the items with indices `[(page-1)*10, page*10)`, so at
   * most ten, and the row numbered `n` is item `n - 1` of the filtered list.
   */
  lemma PageItemsWindow<T>(items: seq<T>, page: int)
    requires page >= 1
    ensures var r := PageItems(items, page);
      && |r| == (if FirstIndex(page) >= |items| then 0 else Min(ItemsPerPage, |items| - FirstIndex(page)))
      && |r| <= ItemsPerPage
      && forall k :: 0 <= k < |r| ==> r[k] == items[RowNumber(page, k) - 1]
  {
  }

  /** Item `i` is shown on page `i / 10 + 1`, in row `i % 10`. */
  lemma EveryItemOnItsPage<T>(items: seq<T>, i: int)
    requires 0 <= i < |items|
    ensures var page := i / ItemsPerPage + 1;
      i % ItemsPerPage < |PageItems(items, page)| && PageItems(items, page)[i % ItemsPerPage] == items[i]
  {
    var page := i / ItemsPerPage + 1;
    assert FirstIndex(page) == i - i % ItemsPerPage;
    PageItemsWindow(items, page);
  }

  /** `Math.ceil(n / itemsPerPage)` */
  function PageCount(n: nat): (r: nat)
    ensures r * ItemsPerPage >= n
    ensures n > 0 ==> (r - 1) * ItemsPerPage < n
    ensures n == 0 <==> r == 0
  {
    (n + ItemsPerPage - 1) / ItemsPerPage
  }

  /** The last page is never empty and the page after it always is. */
  lemma LastPageFilled<T>(items: seq<T>)
    requires |items| > 0
    ensures |PageItems(items, PageCount(|items|))| > 0
    ensures PageItems(items, PageCount(|items|) + 1) == []
  {
    PageItemsWindow(items, PageCount(|items|));
    PageItemsWindow(items, PageCount(|items|) + 1);
  }

  /** A page past the last one shows no rows ("No actors found"). */
  lemma PageBeyondCountEmpty<T>(items: seq<T>, page: int)
    requires page > PageCount(|items|)
    ensures PageItems(items, page) == []
  {
    PageItemsWindow(items, page);
  }

  // ---------------------------------------------------------------------------
  // The page-button strip
  // ---------------------------------------------------------------------------

  /** `current <= 10 ? i + 2 : Math.floor((current - 1) / 10) * 10 + i + 1` */
  function Candidate(current: int, i: int): int {
    if current <= 10 then i + 2 else ((current - 1) / 10) * 10 + i + 1
  }

  /** The first candidate page: 2 up to page 10, then 11, 21, 31, ... */
  function BlockStart(current: int): (r: int)
    ensures r >= 2
    ensures current <= 10 ==> r == 2
    ensures current > 10 ==> r % 10 == 1 && r <= current <= r + 9
  {
    Candidate(current, 0)
  }

  /** The candidates from the `i`-th on, kept when `1 < page < total`. */
  function WindowFrom(current: int, total: int, i: nat): seq<int>
    decreases 10 - i
  {
    if i >= 10 then []
    else
      var page := Candidate(current, i);
      (if page < total && page > 1 then [page] else []) + WindowFrom(current, total, i + 1)
  }

  /** The middle page buttons. */
  function Window(current: int, total: int): seq<int> {
    WindowFrom(current, total, 0)
  }

  /** `lo, lo + 1, ..., hi - 1` */
  function Range(lo: int, hi: int): (r: seq<int>)
    ensures |r| == (if lo < hi then hi - lo else 0)
    ensures forall k :: 0 <= k < |r| ==> r[k] == lo + k
    decreases hi - lo
  {
    if lo >= hi then [] else [lo] + Range(lo + 1, hi)
  }

  lemma {:induction false} WindowFromIsRange(current: int, total: int, i: nat)
    requires i <= 10
    ensures WindowFrom(current, total, i)
         == Range(BlockStart(current) + i, Min(BlockStart(current) + 10, total))
    decreases 10 - i
  {
    var lo, hi := BlockStart(current) + i, Min(BlockStart(current) + 10, total);
    if i < 10 {
      WindowFromIsRange(current, total, i + 1);
      assert Candidate(current, i) == lo && lo > 1;
      if lo < total {
        assert lo < hi;
        assert Range(lo, hi) == [lo] + Range(lo + 1, hi);
      } else {
        assert hi <= lo;
      }
    }
  }

  /**
   * The middle buttons are the block of up to ten consecutive pages from
   * `BlockStart(current)`, cut off before the last page: strictly increasing,
   * within `2 .. total - 1`, at most ten, and `2 .. 11` while current <= 10.
   */
  lemma WindowShape(current: int, total: int)
    ensures Window(current, total) == Range(BlockStart(current), Min(BlockStart(current) + 10, total))
    ensures |Window(current, total)| <= 10
    ensures forall k :: 0 <= k < |Window(current, total)| ==> 1 < Window(current, total)[k] < total
    ensures forall j, k :: 0 <= j < k < |Window(current, total)| ==> Window(current, total)[j] < Window(current, total)[k]
    ensures current <= 10 ==> Window(current, total) == Range(2, Min(12, total))
  {
    WindowFromIsRange(current, total, 0);
  }

  /** Every middle page lies strictly between the first and the last page. */
  lemma WindowWithin(current: int, total: int)
    ensures forall p :: p in Window(current, total) ==> 1 < p < total
  {
    WindowShape(current, total);
  }

  /** A middle page that is current always has its own button. */
  lemma CurrentPageInWindow(current: int, total: int)
    requires 1 < current < total
    ensures current in Window(current, total)
  {
    WindowShape(current, total);
    var w := Window(current, total);
    assert w[current - BlockStart(current)] == current;
  }

  datatype StripItem = PageButton(page: int) | Ellipsis

  function Buttons(pages: seq<int>): (r: seq<StripItem>)
    ensures |r| == |pages| && forall k :: 0 <= k < |pages| ==> r[k] == PageButton(pages[k])
  {
    seq(|pages|, k requires 0 <= k < |pages| => PageButton(pages[k]))
  }

  /** `{currentPage > 10 && <span>...</span>}` */
  function Leading(current: int): seq<StripItem> {
    if current > 10 then [Ellipsis] else []
  }

  /** `{currentPage <= Math.ceil(...) - 10 && <span>...</span>}` */
  function Trailing(current: int, total: int): seq<StripItem> {
    if current <= total - 10 then [Ellipsis] else []
  }

  /** The pagination strip as rendered: a single button for one page, else first, ellipsis, window, ellipsis, last. */
  function PageStrip(current: int, total: int): seq<StripItem> {
    if total == 1 then [PageButton(1)]
    else [PageButton(1)] + Leading(current) + Buttons(Window(current, total)) + Trailing(current, total) + [PageButton(total)]
  }

  /** Outside the single-page case the strip starts with page 1 and ends with page `total`. */
  lemma PageStripEnds(current: int, total: int)
    requires total != 1
    ensures var s := PageStrip(current, total);
      |s| >= 2 && s[0] == PageButton(1) && s[|s| - 1] == PageButton(total)
  {
  }

  /** The item after page 1 is an ellipsis exactly when the current page is beyond 10. */
  lemma PageStripLeadingEllipsis(current: int, total: int)
    requires current >= 0 && total != 1
    ensures PageStrip(current, total)[1] == Ellipsis <==> current > 10
  {
    var w := Window(current, total);
    var lead, b, trail := Leading(current), Buttons(w), Trailing(current, total);
    var s := [PageButton(1)] + lead + b + trail + [PageButton(total)];
    assert PageStrip(current, total) == s;
    if current <= 10 {
      assert lead == [];
      WindowShape(current, total);
      if total > 2 {
        assert |w| > 0 && w[0] == 2;
        assert s[1] == b[0];
      } else {
        assert |w| == 0 && trail == [];
        assert s[1] == PageButton(total);
      }
    }
  }

  /** Every button between the first and the last is a page strictly between 1 and `total`. */
  lemma PageStripMiddle(current: int, total: int)
    requires total != 1
    ensures var s := PageStrip(current, total);
      forall k :: 0 < k < |s| - 1 && s[k].PageButton? ==> 1 < s[k].page < total
  {
    var w := Window(current, total);
    WindowWithin(current, total);
    var lead, mid, trail := Leading(current), Buttons(w), Trailing(current, total);
    var s := [PageButton(1)] + lead + mid + trail + [PageButton(total)];
    assert PageStrip(current, total) == s;
    forall k | 0 < k < |s| - 1 && s[k].PageButton? ensures 1 < s[k].page < total {
      var m := k - 1 - |lead|;
      assert 0 <= m < |mid| && s[k] == mid[m];
      assert w[m] in w;
    }
  }

  /** Every button of the strip leads to the first page, the last page or a page strictly between them. */
  lemma PageStripTargets(current: int, total: int, page: int)
    requires PageButton(page) in PageStrip(current, total)
    ensures page == 1 || page == total || 1 < page < total
  {
    var s := PageStrip(current, total);
    var k :| 0 <= k < |s| && s[k] == PageButton(page);
    if total != 1 {
      PageStripEnds(current, total);
      PageStripMiddle(current, total);
      if 0 < k < |s| - 1 {
        assert s[k].PageButton?;
      }
    }
  }

  // ---------------------------------------------------------------------------
  // What the strip is meant to show
  // ---------------------------------------------------------------------------

  /**
   * A strip that hides nothing and invents nothing: it opens with a page
   * button; two neighbouring buttons are consecutive pages; an ellipsis
   * stands between two buttons exactly when pages are skipped there.
   */
  predicate Honest(s: seq<StripItem>)
    decreases |s|
  {
    && |s| >= 1 && s[0].PageButton?
    && (|| |s| == 1
        || (s[1].PageButton? && s[1].page == s[0].page + 1 && Honest(s[1..]))
        || (|s| >= 3 && s[1].Ellipsis? && s[2].PageButton? && s[2].page > s[0].page + 1 && Honest(s[2..])))
  }

  lemma {:induction false} HonestNeighbours(s: seq<StripItem>, i: int)
    requires Honest(s) && 0 <= i < |s| - 1 && s[i].PageButton? && s[i + 1].PageButton?
    ensures s[i + 1].page == s[i].page + 1
    decreases |s|
  {
    if i > 0 {
      if s[1].PageButton? {
        HonestNeighbours(s[1..], i - 1);
      } else {
        HonestNeighbours(s[2..], i - 2);
      }
    }
  }

  lemma {:induction false} HonestEllipsis(s: seq<StripItem>, i: int)
    requires Honest(s) && 0 < i < |s| - 1 && s[i].Ellipsis?
    ensures s[i - 1].PageButton? && s[i + 1].PageButton? && s[i + 1].page > s[i - 1].page + 1
    decreases |s|
  {
    if i > 1 {
      if s[1].PageButton? {
        HonestEllipsis(s[1..], i - 1);
      } else {
        HonestEllipsis(s[2..], i - 2);
      }
    }
  }

  /** Two neighbouring buttons that are not consecutive pages make a strip dishonest. */
  lemma GapBetweenButtons(s: seq<StripItem>, i: int)
    requires 0 <= i < |s| - 1 && s[i].PageButton? && s[i + 1].PageButton? && s[i + 1].page != s[i].page + 1
    ensures !Honest(s)
  {
    if Honest(s) {
      HonestNeighbours(s, i);
    }
  }

  /** An ellipsis between two consecutive pages makes a strip dishonest. */
  lemma EllipsisOverNothing(s: seq<StripItem>, i: int)
    requires 0 < i < |s| - 1 && s[i].Ellipsis? && s[i - 1].PageButton? && s[i + 1].PageButton?
    requires s[i + 1].page == s[i - 1].page + 1
    ensures !Honest(s)
  {
    if Honest(s) {
      HonestEllipsis(s, i);
    }
  }

  /** With no matching actors the page count is 0, and the strip offers a button for page 0. */
  lemma EmptyListShowsPageZero(current: int)
    ensures PageButton(0) in PageStrip(current, PageCount(0))
    ensures !Honest(PageStrip(current, PageCount(0)))
  {
    WindowShape(current, 0);
    var s := PageStrip(current, 0);
    if current <= -10 {
      assert s == [PageButton(1), Ellipsis, PageButton(0)];
    } else if current > 10 {
      assert s == [PageButton(1), Ellipsis, PageButton(0)];
    } else {
      assert s == [PageButton(1), PageButton(0)];
      if Honest(s) {
        HonestNeighbours(s, 0);
      }
    }
  }

  /** When the block fits below the last page, the window is the ten pages from the block start. */
  lemma FullWindow(current: int, total: int)
    requires BlockStart(current) + 10 <= total
    ensures |Window(current, total)| == 10
    ensures Window(current, total)[9] == BlockStart(current) + 9
    ensures Buttons(Window(current, total))[9] == PageButton(BlockStart(current) + 9)
  {
    var lo := BlockStart(current);
    WindowFromIsRange(current, total, 0);
    assert Min(lo + 10, total) == lo + 10;
    var r := Range(lo, lo + 10);
    assert |r| == 10 && r[9] == lo + 9;
    var b := Buttons(r);
    assert b[9] == PageButton(lo + 9);
  }

  /** The strip around ten middle buttons, with the given ellipsis parts, read position by position. */
  lemma StripOfFullWindow(current: int, total: int, lead: seq<StripItem>, b: seq<StripItem>, trail: seq<StripItem>)
    requires total != 1 && |b| == 10 && b == Buttons(Window(current, total))
    requires lead == Leading(current) && trail == Trailing(current, total)
    ensures var s := PageStrip(current, total);
      && |s| == 12 + |lead| + |trail|
      && s[10 + |lead|] == b[9]
      && (forall k :: 0 <= k < |trail| ==> s[11 + |lead| + k] == trail[k])
      && s[|s| - 1] == PageButton(total)
  {
    var s := [PageButton(1)] + lead + b + trail + [PageButton(total)];
    assert PageStrip(current, total) == s;
  }

  /** Up to page 10, with at least 12 pages, the middle buttons are pages 2 to 11. */
  lemma ShortWindow(current: int, total: int)
    requires current <= 10 && 12 <= total
    ensures |Buttons(Window(current, total))| == 10
    ensures Buttons(Window(current, total))[9] == PageButton(11)
  {
    assert BlockStart(current) == 2;
    FullWindow(current, total);
  }

  /** Pages 2 to 11 fill the middle of a strip whose current page is at most 10. */
  lemma ShortStripTail(current: int, total: int)
    requires 1 <= current <= 10 && 12 < total < current + 10
    ensures var s := PageStrip(current, total);
      |s| == 12 && s[10] == PageButton(11) && s[11] == PageButton(total)
  {
    var b := Buttons(Window(current, total));
    ShortWindow(current, total);
    var lead, trail := Leading(current), Trailing(current, total);
    assert lead == [] && trail == [];
    assert total != 1 && |b| == 10;
    StripOfFullWindow(current, total, lead, b, trail);
    var s := PageStrip(current, total);
    assert |s| == 12;
    assert s[10] == b[9];
    assert s[11] == PageButton(total);
  }

  /**
   * The trailing ellipsis follows `current <= total - 10`, not the pages it
   * stands for. On pages 4 to 10 with between 13 and `current + 9` pages
   * (page 10 of 13, say), page 12 has neither a button nor an ellipsis.
   */
  lemma TrailingEllipsisMissing(current: int, total: int)
    requires 1 <= current <= 10 && 12 < total < current + 10
    ensures !Honest(PageStrip(current, total))
  {
    ShortStripTail(current, total);
    GapBetweenButtons(PageStrip(current, total), 10);
  }

  /** A block starting at the current page, followed by the last page right after it. */
  lemma FullBlockTail(current: int, total: int)
    requires current > 10 && current % 10 == 1 && total == current + 10
    ensures var s := PageStrip(current, total);
      |s| == 14 && s[11] == PageButton(current + 9) && s[12] == Ellipsis && s[13] == PageButton(total)
  {
    assert BlockStart(current) == current;
    var w := Window(current, total);
    FullWindow(current, total);
    var b := Buttons(w);
    assert |b| == 10 && b[9] == PageButton(current + 9);
    StripOfFullWindow(current, total, [Ellipsis], b, [Ellipsis]);
  }

  /**
   * On page 11 of 21 (or 21 of 31, ...) the strip shows the whole block and
   * then an ellipsis between its last page and the last page, where nothing
   * is skipped.
   */
  lemma TrailingEllipsisSpurious(current: int, total: int)
    requires current > 10 && current % 10 == 1 && total == current + 10
    ensures !Honest(PageStrip(current, total))
  {
    FullBlockTail(current, total);
    EllipsisOverNothing(PageStrip(current, total), 12);
  }

  /** Buttons for the given pages, with an ellipsis wherever the numbers skip. */
  function Render(pages: seq<int>): seq<StripItem>
    decreases |pages|
  {
    if |pages| == 0 then []
    else if |pages| == 1 then [PageButton(pages[0])]
    else [PageButton(pages[0])] + Gap(pages[0], pages[1]) + Render(pages[1..])
  }

  /** An ellipsis between two pages exactly when numbers are skipped. */
  function Gap(page: int, next: int): seq<StripItem> {
    if next > page + 1 then [Ellipsis] else []
  }

  lemma RenderStep(pages: seq<int>)
    requires |pages| > 1
    ensures Render(pages) == [PageButton(pages[0])] + Gap(pages[0], pages[1]) + Render(pages[1..])
  {
  }

  /** The rendered strip starts with the first page and ends with the last. */
  lemma {:induction false} RenderEnds(pages: seq<int>)
    requires |pages| >= 1
    ensures |Render(pages)| >= 1
    ensures Render(pages)[0] == PageButton(pages[0])
    ensures Render(pages)[|Render(pages)| - 1] == PageButton(pages[|pages| - 1])
    decreases |pages|
  {
    if |pages| > 1 {
      RenderStep(pages);
      RenderEnds(pages[1..]);
    }
  }

  predicate Increasing(pages: seq<int>) {
    forall j, k :: 0 <= j < k < |pages| ==> pages[j] < pages[k]
  }

  lemma {:induction false} RenderHonest(pages: seq<int>)
    requires |pages| >= 1 && Increasing(pages)
    ensures Honest(Render(pages))
    decreases |pages|
  {
    if |pages| > 1 {
      var tail := pages[1..];
      assert Increasing(tail) by {
        forall j, k | 0 <= j < k < |tail| ensures tail[j] < tail[k] {
          assert tail[j] == pages[j + 1] && tail[k] == pages[k + 1];
        }
      }
      RenderHonest(tail);
      RenderEnds(tail);
      RenderStep(pages);
      var rest := Render(tail);
      if pages[1] > pages[0] + 1 {
        HonestAfterGap(pages[0], rest);
      } else {
        HonestAfterNeighbour(pages[0], rest);
      }
    }
  }

  lemma HonestAfterNeighbour(page: int, rest: seq<StripItem>)
    requires Honest(rest) && rest[0] == PageButton(page + 1)
    ensures Honest([PageButton(page)] + rest)
  {
    assert ([PageButton(page)] + rest)[1..] == rest;
  }

  lemma HonestAfterGap(page: int, rest: seq<StripItem>)
    requires Honest(rest) && rest[0].PageButton? && rest[0].page > page + 1
    ensures Honest([PageButton(page)] + [Ellipsis] + rest)
  {
    assert ([PageButton(page)] + [Ellipsis] + rest)[2..] == rest;
  }

  /** The strip as evidently intended: one button when there is at most one page, else an ellipsis exactly over skipped pages. */
  function PageStripFixed(current: int, total: int): seq<StripItem> {
    if total <= 1 then [PageButton(1)]
    else Render(StripPages(current, total))
  }

  /** The pages of the intended strip: 1, the middle window, the last page. */
  function StripPages(current: int, total: int): seq<int> {
    [1] + Window(current, total) + [total]
  }

  lemma StripPagesIncreasing(current: int, total: int)
    requires total > 1
    ensures Increasing(StripPages(current, total))
  {
    var w := Window(current, total);
    WindowShape(current, total);
    var pages := StripPages(current, total);
    forall j, k | 0 <= j < k < |pages| ensures pages[j] < pages[k] {
      if 0 < j && k < |pages| - 1 {
        assert pages[j] == w[j - 1] && pages[k] == w[k - 1];
      } else if 0 < j {
        assert pages[j] == w[j - 1];
      } else if k < |pages| - 1 {
        assert pages[k] == w[k - 1];
      }
    }
  }

  /** The intended strip runs from page 1 to the last page (1 when there are none) and hides or invents nothing. */
  lemma FixedStripHonest(current: int, total: int)
    ensures var s := PageStripFixed(current, total);
      && Honest(s) && s[0] == PageButton(1)
      && s[|s| - 1] == PageButton(if total <= 1 then 1 else total)
  {
    if total > 1 {
      StripPagesIncreasing(current, total);
      RenderHonest(StripPages(current, total));
      RenderEnds(StripPages(current, total));
    }
  }

  /** Every page of the list has its button in the rendered strip. */
  lemma {:induction false} RenderShowsEveryPage(pages: seq<int>, i: int)
    requires 0 <= i < |pages|
    ensures PageButton(pages[i]) in Render(pages)
    decreases |pages|
  {
    if i > 0 {
      RenderShowsEveryPage(pages[1..], i - 1);
    }
  }

  /** The current page is one of the pages of the intended strip. */
  lemma CurrentAmongStripPages(current: int, total: int) returns (i: int)
    requires 1 <= current <= total && total > 1
    ensures 0 <= i < |StripPages(current, total)| && StripPages(current, total)[i] == current
  {
    var w := Window(current, total);
    var pages := [1] + w + [total];
    assert StripPages(current, total) == pages;
    if current == 1 {
      i := 0;
    } else if current == total {
      i := |pages| - 1;
    } else {
      CurrentPageInWindow(current, total);
      var j :| 0 <= j < |w| && w[j] == current;
      assert pages[j + 1] == w[j];
      i := j + 1;
    }
  }

  /** The intended strip always offers the current page when it is one of the pages. */
  lemma FixedStripShowsCurrent(current: int, total: int)
    requires 1 <= current <= total
    ensures PageButton(current) in PageStripFixed(current, total)
  {
    if total > 1 {
      var i := CurrentAmongStripPages(current, total);
      RenderShowsEveryPage(StripPages(current, total), i);
    }
  }

  /** The rendered strip has buttons only for the listed pages. */
  lemma {:induction false} RenderOnlyListed(pages: seq<int>, page: int)
    requires PageButton(page) in Render(pages)
    ensures page in pages
    decreases |pages|
  {
    if |pages| > 1 && page != pages[0] {
      var head := [PageButton(pages[0])] + (if pages[1] > pages[0] + 1 then [Ellipsis] else []);
      assert Render(pages) == head + Render(pages[1..]);
      assert PageButton(page) !in head;
      RenderOnlyListed(pages[1..], page);
    }
  }

  /** Every button of the intended strip leads to page 1 or to a page up to `total`: never below 1. */
  lemma FixedStripTargets(current: int, total: int, page: int)
    requires PageButton(page) in PageStripFixed(current, total)
    ensures page == 1 || 1 < page <= total
  {
    if total > 1 {
      var w := Window(current, total);
      var pages := [1] + w + [total];
      assert StripPages(current, total) == pages;
      RenderOnlyListed(pages, page);
      if page != 1 && page != total {
        assert page in w;
        WindowWithin(current, total);
      }
    }
  }
}
