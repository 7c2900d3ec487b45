/** Pages of a listing (`Flux_Paginator`): the rows each page selects, and the
    panes of page links with their links to the previous and next pane. */
module Paginator {
  import opened Wrappers

  // ---- the rows of a page ------------------------------------------------------

  function Ceil(x: real): int {
    -((-x).Floor)
  }

  /** `n` pages of `perPage` rows are the fewest that hold `total` rows. */
  predicate AreEnoughPages(n: int, perPage: int, total: int) {
    n * perPage >= total && (n - 1) * perPage < total
  }

  lemma CeilIsEnough(total: nat, perPage: nat)
    requires perPage > 0
    ensures var n := Ceil(total as real / perPage as real); n >= 0 && AreEnoughPages(n, perPage, total)
  {
    var q := total as real / perPage as real;
    CeilBounds(q);
    Quotient(total as real, perPage as real);
    EnoughFor(q, Ceil(q), total, perPage);
  }

  lemma EnoughFor(q: real, n: int, total: nat, perPage: nat)
    requires perPage > 0 && q * perPage as real == total as real
    requires n as real >= q && (n - 1) as real < q
    ensures n >= 0 && AreEnoughPages(n, perPage, total)
  {
    NotBelow(q, n, total, perPage);
    BelowOne(q, n - 1, total, perPage);
    if n < 0 { Below(n, 0, perPage); }
  }

  lemma NotBelow(q: real, n: int, total: nat, perPage: nat)
    requires perPage > 0 && q * perPage as real == total as real && n as real >= q
    ensures n * perPage >= total
  {
    Scale(n as real, q, perPage as real);
    Product(n, perPage, total);
  }

  lemma BelowOne(q: real, n: int, total: nat, perPage: nat)
    requires perPage > 0 && q * perPage as real == total as real && n as real < q
    ensures n * perPage < total
  {
    Scale(q, n as real, perPage as real);
    Product(n, perPage, total);
  }

  lemma Quotient(x: real, p: real)
    requires p > 0.0
    ensures x / p * p == x
  {
  }

  lemma CeilBounds(x: real)
    ensures Ceil(x) as real >= x && (Ceil(x) - 1) as real < x
  {
  }

  lemma Product(n: int, p: int, t: int)
    ensures n as real * p as real >= t as real <==> n * p >= t
  {
    assert (n * p) as real == n as real * p as real;
  }

  lemma Scale(x: real, y: real, p: real)
    requires x >= y && p > 0.0
    ensures x * p >= y * p && (x > y ==> x * p > y * p)
  {
  }

  /** The rows that `LIMIT offset, perPage` selects. */
  function Offset(page: nat, perPage: nat): int {
    perPage * page - perPage
  }

  predicate InWindow(row: nat, page: nat, perPage: nat, total: nat) {
    Offset(page, perPage) <= row < Offset(page, perPage) + perPage && row < total
  }

  lemma Divides(row: nat, perPage: nat)
    requires perPage > 0
    ensures perPage * (row / perPage) <= row < perPage * (row / perPage) + perPage
  {
  }

  lemma Below(a: int, b: int, p: nat)
    requires a < b
    ensures p * a + p <= p * b
  {
    assert p * b == p * (a + 1) + p * (b - a - 1);
  }

  /** Every row is on exactly one of the pages 1 to `n`. */
  lemma WindowsPartitionRows(row: nat, total: nat, perPage: nat, n: nat)
    requires perPage > 0 && row < total && AreEnoughPages(n, perPage, total)
    ensures var page := row / perPage + 1;
      1 <= page <= n && InWindow(row, page, perPage, total)
      && forall other: nat :: InWindow(row, other, perPage, total) ==> other == page
  {
    var page := row / perPage + 1;
    Divides(row, perPage);
    if page > n { Below(n - 1, page - 1, perPage); }
    forall other: nat | InWindow(row, other, perPage, total) ensures other == page {
      if other < page { Below(other, page, perPage); }
      if page < other { Below(page, other, perPage); }
    }
  }

  /** No page up to the last is empty, and every page after it is. */
  lemma EmptyPages(page: nat, total: nat, perPage: nat, n: nat)
    requires perPage > 0 && page > 0 && AreEnoughPages(n, perPage, total)
    ensures (exists row: nat :: InWindow(row, page, perPage, total)) <==> page <= n
  {
    if page <= n {
      if page < n { Below(page, n, perPage); }
      if page > 1 { Below(0, page - 1, perPage); }
      assert InWindow(Offset(page, perPage), page, perPage, total);
    } else {
      if n + 1 < page { Below(n, page - 1, perPage); }
    }
  }

  // ---- panes -----------------------------------------------------------------------

  function PaneStart(current: nat, show: nat): (start: nat)
    requires current > 0 && show > 0
    ensures start > 0
  {
    (current - 1) / show * show + 1
  }

  /** One past the last page of the pane. */
  function PaneEnd(start: nat, show: nat, n: nat): nat {
    if start + show + 1 > n then n + 1 else start + show
  }

  predicate HasNext(start: nat, show: nat, n: nat) {
    PaneEnd(start, show, n) < n
  }

  function Range(a: nat, b: nat): (r: seq<nat>)
    ensures |r| == if a < b then b - a else 0
    ensures forall i :: 0 <= i < |r| ==> r[i] == a + i
  {
    if a < b then seq(b - a, i requires 0 <= i => a + i) else []
  }

  /** A page starts a pane. */
  predicate IsPaneStart(start: nat, show: nat) {
    start > 0 && show > 0 && (start - 1) % show == 0
  }

  lemma StartOfPane(current: nat, show: nat)
    requires current > 0 && show > 0
    ensures var start := PaneStart(current, show);
      IsPaneStart(start, show) && start <= current < start + show && PaneStart(start, show) == start
  {
    var k := (current - 1) / show;
    Divides(current - 1, show);
    Multiple(k, show);
  }

  lemma Multiple(k: nat, show: nat)
    requires show > 0
    ensures k * show % show == 0 && k * show / show == k
  {
    Divides(k * show, show);
    var d := k * show / show;
    if d < k { Below(d, k, show); }
    if k < d { Below(k, d, show); }
  }

  /** Adding one pane's pages to the start of a pane gives the start of the next,
      and the page before it belongs to the first. */
  lemma NextStart(start: nat, show: nat)
    requires IsPaneStart(start, show)
    ensures IsPaneStart(start + show, show)
    ensures PaneStart(start, show) == start && PaneStart(start + show, show) == start + show
    ensures PaneStart(start + show - 1, show) == start
  {
    var k := (start - 1) / show;
    Divides(start - 1, show);
    assert start - 1 == k * show;
    Multiple(k + 1, show);
    assert (k + 1) * show == k * show + show;
    InPane(k, show - 1, show);
  }

  lemma InPane(k: nat, i: nat, show: nat)
    requires i < show
    ensures (k * show + i) / show == k
  {
    var d := (k * show + i) / show;
    Divides(k * show + i, show);
    if d < k { Below(d, k, show); }
    if k < d { Below(k, d, show); }
  }

  /** The current page is among the links exactly when it exists. */
  lemma CurrentIsListed(current: nat, show: nat, n: nat)
    requires current > 0 && show > 0
    ensures var start := PaneStart(current, show);
      current in Range(start, PaneEnd(start, show, n)) <==> current <= n
  {
    StartOfPane(current, show);
    var start := PaneStart(current, show);
    var pages := Range(start, PaneEnd(start, show, n));
    if current <= n {
      assert pages[current - start] == current;
    } else {
      assert forall i :: 0 <= i < |pages| ==> pages[i] <= n;
    }
  }

  /** The next link leads to the start of the pane after this one. */
  lemma NextLeadsOn(current: nat, show: nat, n: nat)
    requires current > 0 && show > 0
    ensures var start := PaneStart(current, show); var next := PaneEnd(start, show, n);
      HasNext(start, show, n) ==> next == start + show && next <= n && PaneStart(next, show) == next
    ensures var start := PaneStart(current, show);
      HasNext(start, show, n) <==> start + show < n
  {
    StartOfPane(current, show);
    NextStart(PaneStart(current, show), show);
  }

  /** The previous link leads to the pane before, and from there the next link
      leads back. */
  lemma PrevLeadsBack(current: nat, show: nat, n: nat)
    requires current > 0 && show > 0 && PaneStart(current, show) > 1
    ensures var start := PaneStart(current, show); var prev := PaneStart(start - 1, show);
      prev + show == start && (HasNext(prev, show, n) <==> start < n)
      && (HasNext(prev, show, n) ==> PaneEnd(prev, show, n) == start)
  {
    StartOfPane(current, show);
    var start := PaneStart(current, show);
    var k := (start - 1) / show;
    Divides(start - 1, show);
    assert k > 0;
    Below(0, k, show);
    Multiple(k - 1, show);
    assert (k - 1) * show == k * show - show;
    NextStart(start - show, show);
  }

  /** The pages listed on the way from a pane along the next links. */
  function ListedFrom(start: nat, show: nat, n: nat): seq<nat>
    requires show > 0
    decreases n - start
  {
    var pane := Range(start, PaneEnd(start, show, n));
    if HasNext(start, show, n) then pane + ListedFrom(PaneEnd(start, show, n), show, n) else pane
  }

  lemma RangeSplit(a: nat, b: nat, c: nat)
    requires a <= b <= c
    ensures Range(a, c) == Range(a, b) + Range(b, c)
  {
  }

  /** Following the next links lists every page from here on once, in order. */
  lemma {:induction false} NextListsAll(start: nat, show: nat, n: nat)
    requires show > 0
    ensures ListedFrom(start, show, n) == Range(start, n + 1)
    decreases n - start
  {
    if HasNext(start, show, n) {
      NextListsAll(start + show, show, n);
      RangeSplit(start, start + show, n + 1);
    }
  }

  /** The last pane lists one page too many when the last page starts a pane of
      its own; no other pane ever does. */
  lemma PaneSize(start: nat, show: nat, n: nat)
    requires IsPaneStart(start, show) && start <= n
    ensures |Range(start, PaneEnd(start, show, n))| <= show + 1
    ensures |Range(start, PaneEnd(start, show, n))| == show + 1 <==> n == start + show
    ensures n == start + show ==> PaneStart(n, show) == n && Range(n, PaneEnd(n, show, n)) == [n]
  {
    NextStart(start, show);
  }

  // ---- the object --------------------------------------------------------------------

  datatype Link = Prev(page: nat) | Page(page: nat, current: bool) | Next(page: nat)

  function Links(pages: seq<nat>, current: nat): (r: seq<Link>)
    ensures |r| == |pages| && forall i :: 0 <= i < |r| ==> r[i] == Page(pages[i], pages[i] == current)
  {
    seq(|pages|, i requires 0 <= i < |pages| => Page(pages[i], pages[i] == current))
  }

  /** The links of a pane, with the way back before and the way on after them. */
  function Pane(current: nat, show: nat, n: nat): seq<Link>
    requires current > 0 && show > 0
  {
    var start := PaneStart(current, show);
    var end := PaneEnd(start, show, n);
    var links := Links(Range(start, end), current);
    var withPrev := if start > 1 then [Prev(start - 1)] + links else links;
    if HasNext(start, show, n) then withPrev + [Next(end)] else withPrev
  }

  /** What the links of the pane numbered `k` are: its pages that exist, and the
      last page when it is the only one after them; the last page of the pane before
      in front, if there is one; the first page of the pane after at the end, if more
      than one page follows. */
  lemma PaneSays(current: nat, show: nat, n: nat, k: nat, start: nat)
    requires start == k * show + 1 && start <= current < start + show
    ensures var links := Pane(current, show, n);
      && (forall link :: link in links <==>
            match link
            case Prev(page) => k > 0 && page == k * show
            case Page(page, here) =>
              start <= page <= n && (page < start + show || page == n == start + show) && (here <==> page == current)
            case Next(page) => start + show < n && page == start + show)
      && (forall i, j :: 0 <= i < j < |links| && links[i].Page? && links[j].Page? ==> links[i].page < links[j].page)
      && (k > 0 ==> links != [] && links[0] == Prev(k * show))
      && (start + show < n ==> links != [] && links[|links| - 1] == Next(start + show))
  {
    Positive(k, show);
    InPane(k, current - start, show);
    PaneFrom(current, show, n, start);
  }

  lemma PaneFrom(current: nat, show: nat, n: nat, start: nat)
    requires current > 0 && show > 0 && PaneStart(current, show) == start
    ensures var links := Pane(current, show, n);
      && (forall link :: link in links <==>
            match link
            case Prev(page) => start > 1 && page == start - 1
            case Page(page, here) =>
              start <= page <= n && (page < start + show || page == n == start + show) && (here <==> page == current)
            case Next(page) => start + show < n && page == start + show)
      && (forall i, j :: 0 <= i < j < |links| && links[i].Page? && links[j].Page? ==> links[i].page < links[j].page)
      && (start > 1 ==> links != [] && links[0] == Prev(start - 1))
      && (start + show < n ==> links != [] && links[|links| - 1] == Next(start + show))
  {
    var end := PaneEnd(start, show, n);
    var links := Links(Range(start, end), current);
    LinksSay(start, end, current);
    PaneParts(links, start > 1, start - 1, HasNext(start, show, n), end);
  }

  lemma Positive(k: nat, show: nat)
    requires show > 0
    ensures k > 0 <==> k * show > 0
  {
    if k > 0 { Below(0, k, show); }
  }

  lemma LinksSay(start: nat, end: nat, current: nat)
    ensures var links := Links(Range(start, end), current);
      && (forall link :: link in links <==>
            link.Page? && start <= link.page < end && (link.current <==> link.page == current))
      && (forall i, j :: 0 <= i < j < |links| ==> links[i].page < links[j].page)
  {
    var links := Links(Range(start, end), current);
    forall link: Link | link.Page? && start <= link.page < end && (link.current <==> link.page == current)
      ensures link in links
    {
      assert links[link.page - start] == link;
    }
  }

  lemma PaneParts(links: seq<Link>, hasPrev: bool, prev: nat, hasNext: bool, next: nat)
    requires forall link :: link in links ==> link.Page?
    requires forall i, j :: 0 <= i < j < |links| ==> links[i].page < links[j].page
    ensures var withPrev := if hasPrev then [Prev(prev)] + links else links;
      var all := if hasNext then withPrev + [Next(next)] else withPrev;
      && (forall link :: link in all <==>
            link in links || (hasPrev && link == Prev(prev)) || (hasNext && link == Next(next)))
      && (forall i, j :: 0 <= i < j < |all| && all[i].Page? && all[j].Page? ==> all[i].page < all[j].page)
      && (hasPrev ==> all != [] && all[0] == Prev(prev))
      && (hasNext ==> all != [] && all[|all| - 1] == Next(next))
  {
  }

  class FluxPaginator {
    var total: nat
    var currentPage: nat
    var numberOfPages: nat
    var perPage: nat
    var pagesToShow: nat
    var showSinglePage: bool

    ghost predicate Valid()
      reads this
    {
      currentPage > 0 && perPage > 0 && pagesToShow > 0 && AreEnoughPages(numberOfPages, perPage, total)
    }

    /** A size of 0 stands for the default. */
    constructor (total: nat, page: int, perPage: nat, pagesToShow: nat, showSinglePage: bool)
      ensures Valid() && this.total == total && this.showSinglePage == showSinglePage
      ensures this.currentPage == if page > 0 then page else 1
      ensures this.perPage == (if perPage == 0 then 20 else perPage) &&
        this.pagesToShow == if pagesToShow == 0 then 10 else pagesToShow
    {
      this.total, this.showSinglePage := total, showSinglePage;
      this.perPage := if perPage == 0 then 20 else perPage;
      this.pagesToShow := if pagesToShow == 0 then 10 else pagesToShow;
      currentPage := if page > 0 then page else 1;
      numberOfPages := 0;
      new;
      CalculatePages();
    }

    method CalculatePages()
      requires perPage > 0
      modifies this`numberOfPages
      ensures AreEnoughPages(numberOfPages, perPage, total)
    {
      CeilIsEnough(total, perPage);
      numberOfPages := Ceil(total as real / perPage as real);
    }

    /** The `LIMIT` of `getSQL`: the rows of the current page and no others. */
    method GetLimit() returns (offset: nat, count: nat)
      requires Valid()
      ensures forall row: nat :: row < total ==>
        (InWindow(row, currentPage, perPage, total) <==> offset <= row < offset + count)
    {
      Below(0, currentPage, perPage);
      offset, count := perPage * currentPage - perPage, perPage;
    }

    /** The links `getHTML` prints; none at all for a single page that is not to
        be shown. */
    method GetHTML(displaySinglePages: bool) returns (pages: Option<seq<Link>>)
      requires Valid()
      ensures pages == if numberOfPages == 1 && !(displaySinglePages && showSinglePage) then None
        else Some(Pane(currentPage, pagesToShow, numberOfPages))
    {
      if !displaySinglePages && numberOfPages == 1 {
        return None;
      }
      var links: seq<Link> := [];
      var start := PaneStart(currentPage, pagesToShow);
      var end := start + pagesToShow + 1;
      if end > numberOfPages {
        end := numberOfPages + 1;
      } else {
        end := end - 1;
      }
      var hasPrev := start > 1;
      var hasNext := end < numberOfPages;
      var i := start;
      while i < end
        invariant start <= i && (i <= end || i == start)
        invariant links == Links(Range(start, i), currentPage)
      {
        assert Range(start, i + 1) == Range(start, i) + [i];
        links := links + [Page(i, i == currentPage)];
        i := i + 1;
      }
      assert Range(start, i) == Range(start, end);
      if hasPrev {
        links := [Prev(start - 1)] + links;
      }
      if hasNext {
        links := links + [Next(end)];
      }
      if !showSinglePage && numberOfPages == 1 {
        return None;
      }
      return Some(links);
    }
  }

  lemma FirstPane(show: nat)
    requires show > 0
    ensures Pane(1, show, show + 1) == Links(Range(1, show + 2), 1) && |Range(1, show + 2)| == show + 1
    ensures Pane(show + 1, show, show + 1) == [Prev(show), Page(show + 1, true)]
  {
    NextStart(1, show);
    StartOfPane(1, show);
    StartOfPane(show + 1, show);
    Multiple(1, show);
    assert Range(show + 1, show + 2) == [show + 1];
  }

  lemma OnePageMore(n: int, show: nat, perPage: nat)
    requires perPage > 0 && AreEnoughPages(n, perPage, perPage * show + 1)
    ensures n == show + 1
  {
    if n < show + 1 { Below(n, show + 1, perPage); }
    if n > show + 1 { Below(show, n - 1, perPage); }
  }

  /** One row more than a pane of full pages: a link more than a pane should
      show, and a last page that is also a pane of its own. */
  method OneLinkTooMany(perPage: nat, show: nat) returns (links: seq<Link>)
    requires perPage > 0 && show > 0
    ensures |links| == show + 1 && links[show] == Page(show + 1, false)
    ensures Pane(show + 1, show, show + 1) == [Prev(show), Page(show + 1, true)]
  {
    var paginator := new FluxPaginator(perPage * show + 1, 1, perPage, show, true);
    var pages := paginator.GetHTML(true);
    OnePageMore(paginator.numberOfPages, show, perPage);
    FirstPane(show);
    links := pages.value;
  }
}
