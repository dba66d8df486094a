/**
 * `VirtualCanvas` of placement.py: the placements collected page by page before anything is
 * rendered. Besides the source's fields (`canvas`, `current_page`, `length`) the model keeps
 * a ghost log of every placement in the order it was drawn, tagged with its page; the page
 * lists are exactly that log split by page.
 */
module Canvas {
  import opened Wrappers
  import opened Images

  /** `VirtualPlacement`: an image and the lower-left corner it is drawn at. */
  datatype VirtualPlacement = VirtualPlacement(image: VirtualImage, x: real, y: real)

  /** One drawn placement and the page it went to. */
  datatype Entry = Entry(page: nat, placement: VirtualPlacement)

  /** The placements of `log` that went to page `p`, in drawing order. */
  function OnPage(log: seq<Entry>, p: nat): (r: seq<VirtualPlacement>)
    ensures |r| <= |log|
  {
    if log == [] then []
    else
      var last := log[|log| - 1];
      OnPage(log[..|log| - 1], p) + (if last.page == p then [last.placement] else [])
  }

  /** The sum of the lengths of the page lists. */
  function TotalLength(pages: seq<seq<VirtualPlacement>>): nat {
    if pages == [] then 0
    else TotalLength(pages[..|pages| - 1]) + |pages[|pages| - 1]|
  }

  /** Appending one placement to one page adds one to the total, whichever page it is. */
  lemma {:induction false} TotalLengthAppend(pages: seq<seq<VirtualPlacement>>, q: nat, p: VirtualPlacement)
    requires q < |pages|
    ensures TotalLength(pages[q := pages[q] + [p]]) == TotalLength(pages) + 1
  {
    var n := |pages| - 1;
    var updated := pages[q := pages[q] + [p]];
    assert updated[..n] == if q == n then pages[..n] else pages[..n][q := pages[q] + [p]];
    if q < n {
      TotalLengthAppend(pages[..n], q, p);
    }
  }

  /** A page nothing was drawn on holds no placement. */
  lemma {:induction false} OnPageUnused(log: seq<Entry>, p: nat)
    requires forall e :: e in log ==> e.page != p
    ensures OnPage(log, p) == []
  {
    if log != [] {
      assert log[|log| - 1] in log;
      assert forall e :: e in log[..|log| - 1] ==> e in log;
      OnPageUnused(log[..|log| - 1], p);
    }
  }

  lemma OnPageAppend(log: seq<Entry>, e: Entry, p: nat)
    ensures OnPage(log + [e], p) == OnPage(log, p) + (if e.page == p then [e.placement] else [])
  {
    assert (log + [e])[..|log|] == log;
  }

  /** The first `n` pages of `log`: page `p` holds the placements drawn on it, in order. */
  function Split(log: seq<Entry>, n: nat): (r: seq<seq<VirtualPlacement>>)
    ensures |r| == n
  {
    seq(n, p requires 0 <= p < n => OnPage(log, p))
  }

  /** Every placement of `log` went to one of the first `n` pages. */
  ghost predicate PagesBelow(log: seq<Entry>, n: nat) {
    forall e :: e in log ==> e.page < n
  }

  /** Drawing `e` onto one of the first `n` pages adds its placement to the end of that page
    * and changes no other page. */
  lemma SplitAppend(log: seq<Entry>, n: nat, e: Entry)
    requires e.page < n
    ensures Split(log + [e], n) == Split(log, n)[e.page := Split(log, n)[e.page] + [e.placement]]
  {
    forall p | 0 <= p < n
      ensures Split(log + [e], n)[p] == Split(log, n)[e.page := Split(log, n)[e.page] + [e.placement]][p]
    {
      OnPageAppend(log, e, p);
    }
  }

  /** When nothing went to page `n`, opening it adds an empty page. */
  lemma SplitGrow(log: seq<Entry>, n: nat)
    requires PagesBelow(log, n)
    ensures Split(log, n + 1) == Split(log, n) + [[]]
  {
    OnPageUnused(log, n);
  }

  class VirtualCanvas {
    /** `canvas`: one list of placements per page opened so far. */
    var pages: seq<seq<VirtualPlacement>>
    var currentPage: nat
    var length: nat
    /** Every placement drawn so far, in order, with its page. */
    ghost var log: seq<Entry>

    ghost predicate Valid()
      reads this
    {
      |pages| == currentPage + 1 &&
      length == TotalLength(pages) &&
      length == |log| &&
      PagesBelow(log, |pages|) &&
      pages == Split(log, |pages|)
    }

    /** A fresh canvas has one empty page and nothing drawn. */
    constructor ()
      ensures Valid()
      ensures pages == [[]] && currentPage == 0 && length == 0 && log == []
    {
      pages := [[]];
      currentPage := 0;
      length := 0;
      log := [];
      assert Split([], 1)[0] == [];
    }

    /** `showPage`: opens one more, empty, page and makes it current. */
    method ShowPage()
      requires Valid()
      modifies this
      ensures Valid()
      ensures pages == old(pages) + [[]] && currentPage == old(currentPage) + 1
      ensures length == old(length) && log == old(log)
    {
      SplitGrow(log, |pages|);
      assert TotalLength(pages + [[]]) == TotalLength(pages) by {
        assert (pages + [[]])[..|pages|] == pages;
      }
      pages := pages + [[]];
      currentPage := currentPage + 1;
    }

    /** `drawImage`: appends the placement to page `page`, or to the current page when no page
      * is given; no other page changes. */
    method DrawImage(image: VirtualImage, x: real, y: real, page: Option<nat>)
      requires Valid()
      requires page.Some? ==> page.value < |pages|
      modifies this
      ensures Valid()
      ensures var q := if page.Some? then page.value else old(currentPage);
        pages == old(pages)[q := old(pages)[q] + [VirtualPlacement(image, x, y)]] &&
        log == old(log) + [Entry(q, VirtualPlacement(image, x, y))]
      ensures currentPage == old(currentPage) && length == old(length) + 1
    {
      var q := if page.Some? then page.value else currentPage;
      var placement := VirtualPlacement(image, x, y);
      TotalLengthAppend(pages, q, placement);
      SplitAppend(log, |pages|, Entry(q, placement));
      pages := pages[q := pages[q] + [placement]];
      log := log + [Entry(q, placement)];
      length := length + 1;
    }
  }
}
