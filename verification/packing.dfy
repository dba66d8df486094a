/**
 * The packing engine of placement.py. For every image, `place_images_on_pdf` first lets
 * `reposition` wrap the row or page (recording the gap left behind), then `use_unused` tries
 * the recorded gaps (best fit to the right of a row, then the first usable gap below a page's
 * last row, then both again with the image turned by 90 degrees), and only if none takes the
 * image does `draw_image` put it at the cursor.
 *
 * The decision each reuse step makes is given as a pure function of the gap list
 * (`RightReuse`, `BottomReuse`, `ReuseAny`); the methods that update the lists and the canvas
 * in place are proved to do exactly what those functions say.
 */
module Packing {
  import opened Wrappers
  import opened Images
  import opened Spaces
  import opened Canvas

  /** `VirtualPosition`: the cursor. `(x, y)` is where the next image's top-left corner goes,
    * `maxRowHeight` the height reserved for the current row (0 before the first image). */
  class VirtualPosition {
    var x: real
    var y: real
    var maxRowHeight: real
    var page: nat

    constructor (x: real, y: real, maxRowHeight: real, page: nat)
      ensures this.x == x && this.y == y && this.maxRowHeight == maxRowHeight && this.page == page
    {
      this.x := x;
      this.y := y;
      this.maxRowHeight := maxRowHeight;
      this.page := page;
    }
  }

  /** Where an image goes when it takes gap `g`: hanging from the gap's top-left corner, on
    * the gap's page. */
  function PlacedAt(image: VirtualImage, g: VirtualSpace): (e: Entry)
    ensures e.page == g.page && e.placement.image == image
    ensures e.placement.x == g.x && e.placement.y + image.height == g.y
  {
    Entry(g.page, VirtualPlacement(image, g.x, g.y - image.height))
  }

  /** The x just right of an image drawn at `x`, padding included. */
  function NextX(x: real, image: VirtualImage, doc: VirtualDocument): real {
    x + image.width + doc.Padding()
  }

  /** The outcome of one successful reuse: which entry of the list was taken, the placement
    * drawn, and the list afterwards. */
  datatype Reuse = Reuse(index: nat, entry: Entry, gaps: seq<VirtualSpace>)

  /** The gap `try_use_unused_right` puts back after using `g`: what is left of the row to
    * the right of the image. */
  function RightRemainder(g: VirtualSpace, image: VirtualImage, doc: VirtualDocument): VirtualSpace {
    var x := NextX(g.x, image, doc);
    VirtualSpace(doc.PageRight() - x, x, g.y, g.page)
  }

  /** The gap `try_use_unused_bottom` keeps after using `g`: the same strip, shortened from
    * the left. */
  function BottomRemainder(g: VirtualSpace, image: VirtualImage, doc: VirtualDocument): VirtualSpace {
    VirtualSpace(g.space, NextX(g.x, image, doc), g.y, g.page)
  }

  /** `try_use_unused_right` as a function of the gap list: the gap at the first position
    * whose `space` is at least the image's width leaves the list, the image hangs from its
    * corner, and what remains of the row to its right comes back only when at least
    * `minSize` is left. `RightReuseChoice` says which gap that is. */
  function RightReuse(gaps: seq<VirtualSpace>, image: VirtualImage, doc: VirtualDocument, minSize: real)
    : (r: Option<Reuse>)
    requires SortedBySpace(gaps)
    ensures r.Some? ==> r.value.index < |gaps|
  {
    var k := BisectLeft(gaps, image.width);
    if k < |gaps| then
      var g := gaps[k];
      RemoveAtKeeps(gaps, k);
      var rest := RemoveAt(gaps, k);
      var keep := NextX(g.x, image, doc) + minSize <= doc.PageRight();
      Some(Reuse(k, PlacedAt(image, g), if keep then InsortRight(rest, RightRemainder(g, image, doc)) else rest))
    else
      None
  }

  /** Right-gap reuse succeeds exactly when some gap is at least as wide as the image, and
    * then takes the first such gap, which is also the narrowest one. */
  lemma RightReuseChoice(gaps: seq<VirtualSpace>, image: VirtualImage, doc: VirtualDocument, minSize: real)
    requires SortedBySpace(gaps)
    ensures var r := RightReuse(gaps, image, doc, minSize);
      (r.Some? <==> exists g :: g in gaps && g.space >= image.width) &&
      (r.Some? ==>
        var k := r.value.index;
        gaps[k].space >= image.width &&
        (forall j :: 0 <= j < k ==> gaps[j].space < image.width) &&
        (forall g :: g in gaps && g.space >= image.width ==> gaps[k].space <= g.space) &&
        r.value.entry == PlacedAt(image, gaps[k]))
  {
    var k := BisectLeft(gaps, image.width);
    if k < |gaps| {
      assert gaps[k] in gaps;
      forall g | g in gaps && g.space >= image.width ensures gaps[k].space <= g.space {
        var j :| 0 <= j < |gaps| && gaps[j] == g;
        SortedAt(gaps, k, j);
      }
    }
  }

  /** `RightReuse` unfolded at the position `bisect_left` finds. */
  lemma RightReuseAt(gaps: seq<VirtualSpace>, image: VirtualImage, doc: VirtualDocument, minSize: real)
    requires SortedBySpace(gaps)
    ensures var k := BisectLeft(gaps, image.width);
      var r := RightReuse(gaps, image, doc, minSize);
      (k == |gaps| ==> r.None?) &&
      (k < |gaps| ==>
        var g := gaps[k];
        var rest := RemoveAt(gaps, k);
        SortedBySpace(rest) &&
        r == Some(Reuse(k, PlacedAt(image, g),
                        if NextX(g.x, image, doc) + minSize <= doc.PageRight()
                        then InsortRight(rest, RightRemainder(g, image, doc))
                        else rest)))
  {
    var k := BisectLeft(gaps, image.width);
    if k < |gaps| {
      RemoveAtKeeps(gaps, k);
    }
  }

  /** After right-gap reuse the list is still sorted and has lost exactly the gap used; the
    * remainder to the right of the image is added back only when at least `minSize` is left. */
  lemma RightReuseGaps(gaps: seq<VirtualSpace>, image: VirtualImage, doc: VirtualDocument, minSize: real)
    requires SortedBySpace(gaps)
    ensures var r := RightReuse(gaps, image, doc, minSize);
      r.Some? ==>
      var g := gaps[r.value.index];
      var keep := NextX(g.x, image, doc) + minSize <= doc.PageRight();
      SortedBySpace(r.value.gaps) &&
      multiset(r.value.gaps) ==
        multiset(gaps) - multiset{g} + (if keep then multiset{RightRemainder(g, image, doc)} else multiset{}) &&
      (forall e :: e in r.value.gaps ==> e in gaps || (keep && e == RightRemainder(g, image, doc)))
  {
    var k := BisectLeft(gaps, image.width);
    if k < |gaps| {
      RemoveAtKeeps(gaps, k);
      var g := gaps[k];
      if NextX(g.x, image, doc) + minSize <= doc.PageRight() {
        InsortRightPlace(RemoveAt(gaps, k), RightRemainder(g, image, doc));
      }
    }
  }

  /** The first index from `from` on whose gap leaves room for `width` before the right
    * margin, or `|gaps|` when there is none. */
  function FirstFit(gaps: seq<VirtualSpace>, from: nat, width: real, pageRight: real): (k: nat)
    requires from <= |gaps|
    ensures from <= k <= |gaps|
    ensures forall j :: from <= j < k ==> gaps[j].x + width > pageRight
    ensures k < |gaps| ==> gaps[k].x + width <= pageRight
    decreases |gaps| - from
  {
    if from == |gaps| || gaps[from].x + width <= pageRight then from
    else FirstFit(gaps, from + 1, width, pageRight)
  }

  /** A bottom gap can take the image when it is tall enough and the image, drawn from the
    * gap's left end, stays inside the right margin. */
  predicate BottomFits(g: VirtualSpace, image: VirtualImage, doc: VirtualDocument) {
    g.space >= image.height && g.x + image.width <= doc.PageRight()
  }

  /** `try_use_unused_bottom` as a function of the gap list: scanning from the first gap
    * tall enough, the image takes the first gap it also fits across; the gap stays in place
    * with its x moved right when at least `minSize` is left of the row, and is dropped
    * otherwise. `BottomReuseChoice` says which gap that is. */
  function BottomReuse(gaps: seq<VirtualSpace>, image: VirtualImage, doc: VirtualDocument, minSize: real)
    : (r: Option<Reuse>)
    requires SortedBySpace(gaps)
    ensures r.Some? ==> r.value.index < |gaps|
  {
    var start := BisectLeft(gaps, image.height);
    var k := FirstFit(gaps, start, image.width, doc.PageRight());
    if k < |gaps| then
      var g := gaps[k];
      var keep := NextX(g.x, image, doc) + minSize <= doc.PageRight();
      Some(Reuse(k, PlacedAt(image, g), if keep then gaps[k := BottomRemainder(g, image, doc)] else RemoveAt(gaps, k)))
    else
      None
  }

  /** Bottom-gap reuse succeeds exactly when some gap is tall enough and narrow enough, and
    * then takes the first such gap in the list. */
  lemma BottomReuseChoice(gaps: seq<VirtualSpace>, image: VirtualImage, doc: VirtualDocument, minSize: real)
    requires SortedBySpace(gaps)
    ensures var r := BottomReuse(gaps, image, doc, minSize);
      (r.Some? <==> exists g :: g in gaps && BottomFits(g, image, doc)) &&
      (r.Some? ==>
        var k := r.value.index;
        var g := gaps[k];
        var keep := NextX(g.x, image, doc) + minSize <= doc.PageRight();
        BottomFits(g, image, doc) &&
        (forall j :: 0 <= j < k ==> !BottomFits(gaps[j], image, doc)) &&
        r.value.entry == PlacedAt(image, g) &&
        (keep ==> r.value.gaps == gaps[k := BottomRemainder(g, image, doc)]) &&
        (!keep ==> r.value.gaps == RemoveAt(gaps, k)))
  {
    var start := BisectLeft(gaps, image.height);
    var k := FirstFit(gaps, start, image.width, doc.PageRight());
    if k < |gaps| {
      assert gaps[k] in gaps && BottomFits(gaps[k], image, doc);
    } else {
      forall g | g in gaps ensures !BottomFits(g, image, doc) {
        var j :| 0 <= j < |gaps| && gaps[j] == g;
        if g.space >= image.height { assert start <= j; }
      }
    }
  }

  /** After bottom-gap reuse the list is still sorted, nothing before the used gap has
    * moved, and every gap in it was there before or is the used gap shortened from the left. */
  lemma BottomReuseGaps(gaps: seq<VirtualSpace>, image: VirtualImage, doc: VirtualDocument, minSize: real)
    requires SortedBySpace(gaps)
    ensures var r := BottomReuse(gaps, image, doc, minSize);
      r.Some? ==>
      var k := r.value.index;
      var g := gaps[k];
      var keep := NextX(g.x, image, doc) + minSize <= doc.PageRight();
      SortedBySpace(r.value.gaps) &&
      r.value.gaps[..k] == gaps[..k] &&
      (forall e :: e in r.value.gaps ==> e in gaps || (keep && e == BottomRemainder(g, image, doc)))
  {
    var r := BottomReuse(gaps, image, doc, minSize);
    if r.Some? {
      var k := r.value.index;
      RemoveAtKeeps(gaps, k);
      ReplaceKeepsSorted(gaps, k, BottomRemainder(gaps[k], image, doc));
    }
  }

  /** The result of `use_unused`: the one placement drawn and both lists afterwards. */
  datatype Outcome = Outcome(entry: Entry, right: seq<VirtualSpace>, bottom: seq<VirtualSpace>)

  /** `use_unused`: right gaps, then bottom gaps, then both with the image rotated; the first
    * that succeeds decides and the others are not tried. */
  function ReuseAny(right: seq<VirtualSpace>, bottom: seq<VirtualSpace>, image: VirtualImage,
                    doc: VirtualDocument, minSize: real): (r: Option<Outcome>)
    requires SortedBySpace(right) && SortedBySpace(bottom)
    ensures r.Some? ==> r.value.right == right || r.value.bottom == bottom
  {
    match RightReuse(right, image, doc, minSize)
    case Some(u) => Some(Outcome(u.entry, u.gaps, bottom))
    case None =>
      match BottomReuse(bottom, image, doc, minSize)
      case Some(u) => Some(Outcome(u.entry, right, u.gaps))
      case None =>
        match RightReuse(right, Rotate(image), doc, minSize)
        case Some(u) => Some(Outcome(u.entry, u.gaps, bottom))
        case None =>
          match BottomReuse(bottom, Rotate(image), doc, minSize)
          case Some(u) => Some(Outcome(u.entry, right, u.gaps))
          case None => None
  }

  /** `use_unused` fails exactly when no gap takes the image either way round; it draws the
    * image or its rotation and changes at most one list; an upright fit in a right gap wins
    * and leaves the bottom list alone, and an upright fit in a bottom gap is used upright. */
  lemma ReuseAnyChoice(right: seq<VirtualSpace>, bottom: seq<VirtualSpace>, image: VirtualImage,
                       doc: VirtualDocument, minSize: real)
    requires SortedBySpace(right) && SortedBySpace(bottom)
    ensures var r := ReuseAny(right, bottom, image, doc, minSize);
      (r.None? <==>
        (forall g :: g in right ==> g.space < image.width && g.space < image.height) &&
        (forall g :: g in bottom ==> !BottomFits(g, image, doc) && !BottomFits(g, Rotate(image), doc))) &&
      (r.Some? ==>
        (r.value.entry.placement.image == image || r.value.entry.placement.image == Rotate(image))) &&
      ((exists g :: g in right && g.space >= image.width) ==>
        r.Some? && r.value.entry.placement.image == image && r.value.bottom == bottom) &&
      ((exists g :: g in bottom && BottomFits(g, image, doc)) ==>
        r.Some? && r.value.entry.placement.image == image)
  {
    RightReuseChoice(right, image, doc, minSize);
    BottomReuseChoice(bottom, image, doc, minSize);
    RightReuseChoice(right, Rotate(image), doc, minSize);
    BottomReuseChoice(bottom, Rotate(image), doc, minSize);
  }

  /** What every right gap satisfies: the list is sorted, each gap runs exactly to the right
    * margin, holds at least `minSize`, and lies on a page that exists. */
  ghost predicate RightGapsOk(gaps: seq<VirtualSpace>, doc: VirtualDocument, minSize: real, pages: nat) {
    SortedBySpace(gaps) &&
    forall g :: g in gaps ==> g.space == doc.PageRight() - g.x && g.space >= minSize && g.page < pages
  }

  /** What every bottom gap satisfies: the list is sorted, each gap holds at least `minSize`
    * and lies on a page that exists. */
  ghost predicate BottomGapsOk(gaps: seq<VirtualSpace>, doc: VirtualDocument, minSize: real, pages: nat) {
    SortedBySpace(gaps) &&
    forall g :: g in gaps ==> g.space >= minSize && g.page < pages
  }

  /** Every gap starts inside the left margin and below the top margin. */
  ghost predicate GapsInside(gaps: seq<VirtualSpace>, doc: VirtualDocument) {
    forall g :: g in gaps ==> doc.margin <= g.x && g.y <= doc.Top()
  }

  /** A placement inside the left, right and top margins. */
  ghost predicate Contained(e: Entry, doc: VirtualDocument) {
    doc.margin <= e.placement.x &&
    e.placement.x + e.placement.image.width <= doc.PageRight() &&
    e.placement.y + e.placement.image.height <= doc.Top()
  }

  /** Right-gap reuse keeps the right-gap invariant, and draws on an existing page. */
  lemma RightReuseKeeps(gaps: seq<VirtualSpace>, image: VirtualImage, doc: VirtualDocument, minSize: real, pages: nat)
    requires RightGapsOk(gaps, doc, minSize, pages)
    ensures var r := RightReuse(gaps, image, doc, minSize);
      r.Some? ==> RightGapsOk(r.value.gaps, doc, minSize, pages) && r.value.entry.page < pages
  {
    RightReuseGaps(gaps, image, doc, minSize);
    var r := RightReuse(gaps, image, doc, minSize);
    if r.Some? {
      assert gaps[r.value.index] in gaps;
    }
  }

  /** With non-negative padding and image width, right-gap reuse draws inside the margins and
    * keeps every gap inside them. */
  lemma RightReuseInside(gaps: seq<VirtualSpace>, image: VirtualImage, doc: VirtualDocument, minSize: real, pages: nat)
    requires RightGapsOk(gaps, doc, minSize, pages) && GapsInside(gaps, doc)
    requires doc.margin >= 0.0 && image.width >= 0.0
    ensures var r := RightReuse(gaps, image, doc, minSize);
      r.Some? ==> GapsInside(r.value.gaps, doc) && Contained(r.value.entry, doc)
  {
    RightReuseGaps(gaps, image, doc, minSize);
    var r := RightReuse(gaps, image, doc, minSize);
    if r.Some? {
      assert gaps[r.value.index] in gaps;
    }
  }

  /** Bottom-gap reuse keeps the bottom-gap invariant, and draws on an existing page. */
  lemma BottomReuseKeeps(gaps: seq<VirtualSpace>, image: VirtualImage, doc: VirtualDocument, minSize: real, pages: nat)
    requires BottomGapsOk(gaps, doc, minSize, pages)
    ensures var r := BottomReuse(gaps, image, doc, minSize);
      r.Some? ==> BottomGapsOk(r.value.gaps, doc, minSize, pages) && r.value.entry.page < pages
  {
    BottomReuseGaps(gaps, image, doc, minSize);
    var r := BottomReuse(gaps, image, doc, minSize);
    if r.Some? {
      assert gaps[r.value.index] in gaps;
    }
  }

  /** With non-negative padding and image width, bottom-gap reuse draws inside the margins
    * and keeps every gap inside them. */
  lemma BottomReuseInside(gaps: seq<VirtualSpace>, image: VirtualImage, doc: VirtualDocument, minSize: real)
    requires SortedBySpace(gaps) && GapsInside(gaps, doc)
    requires doc.margin >= 0.0 && image.width >= 0.0
    ensures var r := BottomReuse(gaps, image, doc, minSize);
      r.Some? ==> GapsInside(r.value.gaps, doc) && Contained(r.value.entry, doc)
  {
    BottomReuseGaps(gaps, image, doc, minSize);
    var r := BottomReuse(gaps, image, doc, minSize);
    if r.Some? {
      assert gaps[r.value.index] in gaps;
    }
  }

  /** `use_unused` keeps both gap invariants and draws on an existing page. */
  lemma ReuseAnyKeeps(right: seq<VirtualSpace>, bottom: seq<VirtualSpace>, image: VirtualImage,
                      doc: VirtualDocument, minSize: real, pages: nat)
    requires RightGapsOk(right, doc, minSize, pages) && BottomGapsOk(bottom, doc, minSize, pages)
    ensures var r := ReuseAny(right, bottom, image, doc, minSize);
      r.Some? ==>
        RightGapsOk(r.value.right, doc, minSize, pages) && BottomGapsOk(r.value.bottom, doc, minSize, pages) &&
        r.value.entry.page < pages
  {
    RightReuseKeeps(right, image, doc, minSize, pages);
    BottomReuseKeeps(bottom, image, doc, minSize, pages);
    RightReuseKeeps(right, Rotate(image), doc, minSize, pages);
    BottomReuseKeeps(bottom, Rotate(image), doc, minSize, pages);
  }

  /** With non-negative padding and image sides, `use_unused` draws inside the margins and
    * keeps every gap inside them. */
  lemma ReuseAnyInside(right: seq<VirtualSpace>, bottom: seq<VirtualSpace>, image: VirtualImage,
                       doc: VirtualDocument, minSize: real, pages: nat)
    requires RightGapsOk(right, doc, minSize, pages) && BottomGapsOk(bottom, doc, minSize, pages)
    requires GapsInside(right, doc) && GapsInside(bottom, doc)
    requires doc.margin >= 0.0 && image.width >= 0.0 && image.height >= 0.0
    ensures var r := ReuseAny(right, bottom, image, doc, minSize);
      r.Some? ==> GapsInside(r.value.right, doc) && GapsInside(r.value.bottom, doc) && Contained(r.value.entry, doc)
  {
    RightReuseInside(right, image, doc, minSize, pages);
    BottomReuseInside(bottom, image, doc, minSize);
    RightReuseInside(right, Rotate(image), doc, minSize, pages);
    BottomReuseInside(bottom, Rotate(image), doc, minSize);
  }

  /** `try_use_unused_right`, updating the right-gap list and the canvas in place. */
  method TryUseRight(canvas: VirtualCanvas, right: SpaceList, image: VirtualImage, doc: VirtualDocument, minSize: real)
    returns (used: bool)
    requires canvas.Valid() && SortedBySpace(right.items)
    requires forall g :: g in right.items ==> g.page < |canvas.pages|
    modifies canvas, right
    ensures canvas.Valid() && canvas.currentPage == old(canvas.currentPage) && |canvas.pages| == old(|canvas.pages|)
    ensures var r := RightReuse(old(right.items), image, doc, minSize);
      used == r.Some? &&
      (used ==> right.items == r.value.gaps && canvas.log == old(canvas.log) + [r.value.entry]) &&
      (!used ==> right.items == old(right.items) && unchanged(canvas))
  {
    RightReuseAt(right.items, image, doc, minSize);
    var wideIndex := BisectLeft(right.items, image.width);
    var wideCount := |right.items|;
    if wideIndex < wideCount {
      UseRightGap(canvas, right, wideIndex, image, doc, minSize);
      return true;
    }
    return false;
  }

  /** The body of `try_use_unused_right` once gap `k` is chosen: the gap is popped, the image
    * drawn hanging from its corner, and the remainder of the row kept when large enough. */
  method UseRightGap(canvas: VirtualCanvas, right: SpaceList, k: nat, image: VirtualImage,
                     doc: VirtualDocument, minSize: real)
    requires canvas.Valid() && SortedBySpace(right.items)
    requires k < |right.items| && right.items[k].page < |canvas.pages|
    modifies canvas, right
    ensures canvas.Valid() && canvas.currentPage == old(canvas.currentPage) && |canvas.pages| == old(|canvas.pages|)
    ensures canvas.log == old(canvas.log) + [PlacedAt(image, old(right.items[k]))]
    ensures var g := old(right.items[k]);
      var rest := RemoveAt(old(right.items), k);
      SortedBySpace(rest) &&
      right.items == if NextX(g.x, image, doc) + minSize <= doc.PageRight()
                     then InsortRight(rest, RightRemainder(g, image, doc))
                     else rest
  {
    RemoveAtKeeps(right.items, k);
    var putHere := right.Pop(k);
    canvas.DrawImage(image, putHere.x, putHere.y - image.height, Some(putHere.page));
    KeepRightRemainder(right, putHere, image, doc, minSize);
  }

  /** The end of `try_use_unused_right`: what is left of the row to the right of the image
    * drawn in gap `g` goes back into the list, in order, when it holds at least `minSize`. */
  method KeepRightRemainder(right: SpaceList, g: VirtualSpace, image: VirtualImage, doc: VirtualDocument, minSize: real)
    requires SortedBySpace(right.items)
    modifies right
    ensures right.items == if NextX(g.x, image, doc) + minSize <= doc.PageRight()
                           then InsortRight(old(right.items), RightRemainder(g, image, doc))
                           else old(right.items)
  {
    var newX := g.x + image.width + doc.Padding();
    var newSpace := doc.PageRight() - newX;
    if newX + minSize <= doc.PageRight() {
      right.Insort(VirtualSpace(newSpace, newX, g.y, g.page));
    }
  }

  /** `try_use_unused_bottom`: scans the bottom-gap list from the first gap tall enough,
    * updating the list and the canvas in place at the first gap that also fits across. */
  method TryUseBottom(canvas: VirtualCanvas, bottom: SpaceList, image: VirtualImage, doc: VirtualDocument, minSize: real)
    returns (used: bool)
    requires canvas.Valid() && SortedBySpace(bottom.items)
    requires forall g :: g in bottom.items ==> g.page < |canvas.pages|
    modifies canvas, bottom
    ensures canvas.Valid() && canvas.currentPage == old(canvas.currentPage) && |canvas.pages| == old(|canvas.pages|)
    ensures var r := BottomReuse(old(bottom.items), image, doc, minSize);
      used == r.Some? &&
      (used ==> bottom.items == r.value.gaps && canvas.log == old(canvas.log) + [r.value.entry]) &&
      (!used ==> bottom.items == old(bottom.items) && unchanged(canvas))
  {
    ghost var start := BisectLeft(bottom.items, image.height);
    var heightIndex := BisectLeft(bottom.items, image.height);
    var heightCount := |bottom.items|;
    while heightIndex < heightCount
      invariant start <= heightIndex <= heightCount == |old(bottom.items)|
      invariant bottom.items == old(bottom.items) && unchanged(canvas)
      invariant FirstFit(bottom.items, start, image.width, doc.PageRight())
             == FirstFit(bottom.items, heightIndex, image.width, doc.PageRight())
      decreases heightCount - heightIndex
    {
      var putHere := bottom.items[heightIndex];
      if putHere.x + image.width <= doc.PageRight() {
        UseBottomGap(canvas, bottom, heightIndex, image, doc, minSize);
        break;
      } else {
        heightIndex := heightIndex + 1;
      }
    }
    used := heightIndex < heightCount;
  }

  /** The body of the scan in `try_use_unused_bottom` once gap `k` fits: the image is drawn
    * hanging from the gap's corner, and the gap either moves right or leaves the list. */
  method UseBottomGap(canvas: VirtualCanvas, bottom: SpaceList, k: nat, image: VirtualImage,
                      doc: VirtualDocument, minSize: real)
    requires canvas.Valid() && k < |bottom.items| && bottom.items[k].page < |canvas.pages|
    modifies canvas, bottom
    ensures canvas.Valid() && canvas.currentPage == old(canvas.currentPage)
    ensures canvas.log == old(canvas.log) + [PlacedAt(image, old(bottom.items[k]))]
    ensures var g := old(bottom.items[k]);
      bottom.items == if NextX(g.x, image, doc) + minSize <= doc.PageRight()
                      then old(bottom.items)[k := BottomRemainder(g, image, doc)]
                      else RemoveAt(old(bottom.items), k)
  {
    var putHere := bottom.items[k];
    canvas.DrawImage(image, putHere.x, putHere.y - image.height, Some(putHere.page));
    var newX := putHere.x + image.width + doc.Padding();
    if newX + minSize <= doc.PageRight() {
      bottom.Set(k, VirtualSpace(putHere.space, newX, putHere.y, putHere.page));
    } else {
      var _ := bottom.Pop(k);
    }
  }

  /** `use_unused`: the four attempts in order, stopping at the first that succeeds. */
  method UseUnused(canvas: VirtualCanvas, right: SpaceList, bottom: SpaceList, image: VirtualImage,
                   doc: VirtualDocument, minSize: real) returns (used: bool)
    requires right != bottom && canvas.Valid()
    requires SortedBySpace(right.items) && SortedBySpace(bottom.items)
    requires forall g :: g in right.items ==> g.page < |canvas.pages|
    requires forall g :: g in bottom.items ==> g.page < |canvas.pages|
    modifies canvas, right, bottom
    ensures canvas.Valid() && canvas.currentPage == old(canvas.currentPage) && |canvas.pages| == old(|canvas.pages|)
    ensures var r := ReuseAny(old(right.items), old(bottom.items), image, doc, minSize);
      used == r.Some? &&
      (used ==> right.items == r.value.right && bottom.items == r.value.bottom &&
                canvas.log == old(canvas.log) + [r.value.entry]) &&
      (!used ==> right.items == old(right.items) && bottom.items == old(bottom.items) && unchanged(canvas))
  {
    used := TryUseRight(canvas, right, image, doc, minSize);
    if !used {
      used := TryUseBottom(canvas, bottom, image, doc, minSize);
    }
    if !used {
      used := TryUseRight(canvas, right, Rotate(image), doc, minSize);
    }
    if !used {
      used := TryUseBottom(canvas, bottom, Rotate(image), doc, minSize);
    }
  }

  /** The cursor's fields as a value. */
  datatype Cursor = Cursor(x: real, y: real, maxRowHeight: real, page: nat)

  /** What `place_images_on_pdf` carries from one image to the next besides the canvas: the
    * cursor and the two gap lists. */
  datatype Packer = Packer(cursor: Cursor, right: seq<VirtualSpace>, bottom: seq<VirtualSpace>)

  /** The current values of the cursor and of both lists. */
  ghost function Snapshot(pos: VirtualPosition, right: SpaceList, bottom: SpaceList): Packer
    reads pos, right, bottom
  {
    Packer(Cursor(pos.x, pos.y, pos.maxRowHeight, pos.page), right.items, bottom.items)
  }

  /** The gap a row wrap leaves: from the cursor to the right margin. */
  function RowGap(c: Cursor, doc: VirtualDocument): VirtualSpace {
    VirtualSpace(doc.PageRight() - c.x, c.x, c.y, c.page)
  }

  /** The gap a page break leaves: from the would-be row at `y` down to the bottom margin. */
  function PageGap(y: real, page: nat, doc: VirtualDocument): VirtualSpace {
    VirtualSpace(y - doc.margin, doc.margin, y, page)
  }

  /** `reposition` records a gap only when it holds at least `minSize`. */
  function Record(gaps: seq<VirtualSpace>, vs: VirtualSpace, minSize: real): (r: seq<VirtualSpace>)
    requires SortedBySpace(gaps)
    ensures SortedBySpace(r)
    ensures forall e :: e in r <==> e in gaps || (vs.space >= minSize && e == vs)
    ensures |r| == |gaps| + (if vs.space >= minSize then 1 else 0)
  {
    if vs.space >= minSize then InsortRight(gaps, vs) else gaps
  }

  /** A row wrap is due when a row has been started and the image does not fit across. */
  predicate Wraps(c: Cursor, image: VirtualImage, doc: VirtualDocument) {
    c.maxRowHeight != 0.0 && c.x + image.width > doc.PageRight()
  }

  /** The y of the row after the current one. */
  function NextRowY(c: Cursor, doc: VirtualDocument): real {
    c.y - (c.maxRowHeight + doc.Padding())
  }

  /** `reposition` on values. The first image only sets the row height; an image that fits
    * across changes nothing; otherwise the row wraps: the right gap is recorded, the cursor
    * goes to the left margin one row height plus padding lower, and the row height becomes the
    * image's. When the image then does not fit above the bottom margin the page breaks too:
    * the bottom gap is recorded, the page number goes up by exactly one and the cursor goes to
    * the top-left corner; the row height is kept. */
  function Repositioned(p: Packer, image: VirtualImage, doc: VirtualDocument, minSize: real): (r: Packer)
    requires SortedBySpace(p.right) && SortedBySpace(p.bottom)
    ensures SortedBySpace(r.right) && SortedBySpace(r.bottom)
    ensures p.cursor.maxRowHeight == 0.0 ==>
      r == Packer(p.cursor.(maxRowHeight := image.height), p.right, p.bottom)
    ensures p.cursor.maxRowHeight != 0.0 && !Wraps(p.cursor, image, doc) ==> r == p
    ensures Wraps(p.cursor, image, doc) ==>
      r.cursor.x == doc.margin && r.cursor.maxRowHeight == image.height &&
      var gap := RowGap(p.cursor, doc);
      |r.right| == |p.right| + (if gap.space >= minSize then 1 else 0) &&
      (forall e :: e in r.right <==> e in p.right || (gap.space >= minSize && e == gap))
    ensures Wraps(p.cursor, image, doc) ==>
      var y := NextRowY(p.cursor, doc);
      if y - image.height < doc.margin then
        var gap := PageGap(y, p.cursor.page, doc);
        r.cursor.page == p.cursor.page + 1 && r.cursor.y == doc.Top() &&
        |r.bottom| == |p.bottom| + (if gap.space >= minSize then 1 else 0) &&
        (forall e :: e in r.bottom <==> e in p.bottom || (gap.space >= minSize && e == gap))
      else
        r.cursor.page == p.cursor.page && r.cursor.y == y && r.bottom == p.bottom
  {
    var c := p.cursor;
    if c.maxRowHeight == 0.0 then
      Packer(c.(maxRowHeight := image.height), p.right, p.bottom)
    else if c.x + image.width > doc.PageRight() then
      var right := Record(p.right, RowGap(c, doc), minSize);
      var y := NextRowY(c, doc);
      if y - image.height < doc.margin then
        Packer(Cursor(doc.margin, doc.Top(), image.height, c.page + 1), right,
               Record(p.bottom, PageGap(y, c.page, doc), minSize))
      else
        Packer(Cursor(doc.margin, y, image.height, c.page), right, p.bottom)
    else
      p
  }

  /** The bookkeeping invariant: both gap lists keep their invariants, with the pages opened so
    * far being those up to the cursor's. */
  ghost predicate PackerOk(p: Packer, doc: VirtualDocument, minSize: real) {
    RightGapsOk(p.right, doc, minSize, p.cursor.page + 1) &&
    BottomGapsOk(p.bottom, doc, minSize, p.cursor.page + 1)
  }

  /** The geometric invariant: the cursor and every gap start inside the left and top margins,
    * and a row height of 0 only occurs at the left margin. */
  ghost predicate PackerInside(p: Packer, doc: VirtualDocument) {
    doc.margin <= p.cursor.x && p.cursor.y <= doc.Top() && 0.0 <= p.cursor.maxRowHeight &&
    (p.cursor.maxRowHeight == 0.0 ==> p.cursor.x == doc.margin) &&
    GapsInside(p.right, doc) && GapsInside(p.bottom, doc)
  }

  /** The sizes under which the packer keeps to the margins: non-negative padding, a
    * positive height, and a width that fits between the side margins. */
  predicate ImageOk(image: VirtualImage, doc: VirtualDocument) {
    doc.margin >= 0.0 && 0.0 < image.height && 0.0 <= image.width <= doc.PageRight() - doc.margin
  }

  /** `reposition` keeps the bookkeeping invariant; under `ImageOk` it keeps the geometric one
    * and leaves the cursor where the image fits across, with a positive row height. */
  lemma RepositionedKeeps(p: Packer, image: VirtualImage, doc: VirtualDocument, minSize: real)
    requires PackerOk(p, doc, minSize)
    ensures var r := Repositioned(p, image, doc, minSize);
      PackerOk(r, doc, minSize) && p.cursor.page <= r.cursor.page <= p.cursor.page + 1
    ensures var r := Repositioned(p, image, doc, minSize);
      PackerInside(p, doc) && ImageOk(image, doc) ==>
        PackerInside(r, doc) && r.cursor.x + image.width <= doc.PageRight() && r.cursor.maxRowHeight > 0.0
  {
    var r := Repositioned(p, image, doc, minSize);
    if Wraps(p.cursor, image, doc) {
      assert forall g :: g in r.right ==> g in p.right || g == RowGap(p.cursor, doc);
      if NextRowY(p.cursor, doc) - image.height < doc.margin {
        assert forall g :: g in r.bottom ==> g in p.bottom || g == PageGap(NextRowY(p.cursor, doc), p.cursor.page, doc);
      }
    }
  }

  /** How `reposition` records a gap it leaves behind: inserted in order when it holds at
    * least `minSize`, dropped otherwise. */
  method RecordGap(list: SpaceList, vs: VirtualSpace, minSize: real)
    requires SortedBySpace(list.items)
    modifies list
    ensures list.items == Record(old(list.items), vs, minSize)
  {
    if vs.space >= minSize {
      list.Insort(vs);
    }
  }

  /** The page break at the end of `reposition`: the strip below the cursor becomes a bottom
    * gap when it holds at least `minSize`, a new page is opened and the cursor moves to its
    * top-left corner, keeping its row height. */
  method BreakPage(canvas: VirtualCanvas, pos: VirtualPosition, bottom: SpaceList, doc: VirtualDocument, minSize: real)
    requires canvas.Valid() && pos.page == canvas.currentPage && SortedBySpace(bottom.items)
    modifies canvas, pos, bottom
    ensures bottom.items == Record(old(bottom.items), PageGap(old(pos.y), old(pos.page), doc), minSize)
    ensures pos.x == doc.margin && pos.y == doc.Top() && pos.page == old(pos.page) + 1
    ensures pos.maxRowHeight == old(pos.maxRowHeight)
    ensures canvas.Valid() && canvas.currentPage == pos.page && canvas.log == old(canvas.log)
  {
    RecordGap(bottom, PageGap(pos.y, pos.page, doc), minSize);
    canvas.ShowPage();
    pos.page := pos.page + 1;
    pos.x, pos.y := doc.margin, doc.Top();
  }

  /** `reposition`, updating the cursor, the gap lists and the canvas in place; the canvas
    * follows the cursor to its page and nothing is drawn. */
  method Reposition(canvas: VirtualCanvas, pos: VirtualPosition, right: SpaceList, bottom: SpaceList,
                    image: VirtualImage, doc: VirtualDocument, minSize: real)
    requires right != bottom && canvas.Valid() && pos.page == canvas.currentPage
    requires SortedBySpace(right.items) && SortedBySpace(bottom.items)
    modifies canvas, pos, right, bottom
    ensures Snapshot(pos, right, bottom) == Repositioned(old(Snapshot(pos, right, bottom)), image, doc, minSize)
    ensures canvas.Valid() && canvas.currentPage == pos.page && canvas.log == old(canvas.log)
  {
    ghost var p := Snapshot(pos, right, bottom);
    ghost var r := Repositioned(p, image, doc, minSize);
    if pos.maxRowHeight == 0.0 {
      pos.maxRowHeight := image.height;
    } else if pos.x + image.width > doc.PageRight() {
      RecordGap(right, RowGap(Cursor(pos.x, pos.y, pos.maxRowHeight, pos.page), doc), minSize);
      pos.x := doc.margin;
      pos.y := pos.y - (pos.maxRowHeight + doc.Padding());
      pos.maxRowHeight := image.height;
      if pos.y - image.height < doc.margin {
        BreakPage(canvas, pos, bottom, doc, minSize);
      }
    }
  }

  /** `draw_image`: draws the image hanging from the cursor on the current page and moves the
    * cursor right past it; the row height is left as it is. */
  method DrawImage(canvas: VirtualCanvas, pos: VirtualPosition, image: VirtualImage, doc: VirtualDocument)
    requires canvas.Valid()
    modifies canvas, pos
    ensures canvas.Valid() && canvas.currentPage == old(canvas.currentPage) && |canvas.pages| == old(|canvas.pages|)
    ensures canvas.log ==
      old(canvas.log) + [Entry(old(canvas.currentPage), VirtualPlacement(image, old(pos.x), old(pos.y) - image.height))]
    ensures pos.x == NextX(old(pos.x), image, doc)
    ensures pos.y == old(pos.y) && pos.maxRowHeight == old(pos.maxRowHeight) && pos.page == old(pos.page)
  {
    canvas.DrawImage(image, pos.x, pos.y - image.height, None);
    pos.x := pos.x + image.width + doc.Padding();
  }

  /** Every image of `images` meets `ImageOk`. */
  ghost predicate AllImagesOk(images: seq<VirtualImage>, doc: VirtualDocument) {
    forall i :: 0 <= i < |images| ==> ImageOk(images[i], doc)
  }

  /** `use_unused` reorders nothing: both lists stay sorted, and the image drawn is the image
    * or its rotation. */
  lemma ReuseAnySorted(right: seq<VirtualSpace>, bottom: seq<VirtualSpace>, image: VirtualImage,
                       doc: VirtualDocument, minSize: real)
    requires SortedBySpace(right) && SortedBySpace(bottom)
    ensures var r := ReuseAny(right, bottom, image, doc, minSize);
      r.Some? ==>
        SortedBySpace(r.value.right) && SortedBySpace(r.value.bottom) &&
        (r.value.entry.placement.image == image || r.value.entry.placement.image == Rotate(image))
  {
    RightReuseGaps(right, image, doc, minSize);
    BottomReuseGaps(bottom, image, doc, minSize);
    RightReuseGaps(right, Rotate(image), doc, minSize);
    BottomReuseGaps(bottom, Rotate(image), doc, minSize);
    ReuseAnyChoice(right, bottom, image, doc, minSize);
  }

  /** What one pass of the main loop leaves: the cursor and both lists, and the placement
    * it drew. */
  datatype Pass = Pass(packer: Packer, entry: Entry)

  /** The second half of a pass on values: `use_unused`, and only when that fails
    * `draw_image` at the cursor. */
  function Put(q: Packer, image: VirtualImage, doc: VirtualDocument, minSize: real): (r: Pass)
    requires SortedBySpace(q.right) && SortedBySpace(q.bottom)
    ensures SortedBySpace(r.packer.right) && SortedBySpace(r.packer.bottom)
    ensures r.entry.placement.image == image || r.entry.placement.image == Rotate(image)
  {
    ReuseAnySorted(q.right, q.bottom, image, doc, minSize);
    match ReuseAny(q.right, q.bottom, image, doc, minSize)
    case Some(o) => Pass(Packer(q.cursor, o.right, o.bottom), o.entry)
    case None =>
      Pass(Packer(q.cursor.(x := NextX(q.cursor.x, image, doc)), q.right, q.bottom),
           Entry(q.cursor.page, VirtualPlacement(image, q.cursor.x, q.cursor.y - image.height)))
  }

  /** One pass of the loop of `place_images_on_pdf` on values: `reposition`, then `use_unused`,
    * and only when that fails `draw_image` at the cursor. */
  function Step(p: Packer, image: VirtualImage, doc: VirtualDocument, minSize: real): (r: Pass)
    requires SortedBySpace(p.right) && SortedBySpace(p.bottom)
    ensures SortedBySpace(r.packer.right) && SortedBySpace(r.packer.bottom)
    ensures r.entry.placement.image == image || r.entry.placement.image == Rotate(image)
  {
    Put(Repositioned(p, image, doc, minSize), image, doc, minSize)
  }

  /** No recorded gap takes the image, upright or turned. */
  ghost predicate NoGapTakes(right: seq<VirtualSpace>, bottom: seq<VirtualSpace>, image: VirtualImage,
                             doc: VirtualDocument) {
    (forall g :: g in right ==> g.space < image.width && g.space < image.height) &&
    (forall g :: g in bottom ==> !BottomFits(g, image, doc) && !BottomFits(g, Rotate(image), doc))
  }

  /** Where a pass puts the image once `reposition` has left the cursor and lists `q`. When
    * some gap takes it, the image or its rotation hangs from the corner of a gap of one of
    * the lists, and the cursor stays put. Only when no gap takes it either way round is the
    * upright image drawn at the cursor on the cursor's page; then the cursor moves right
    * past it and neither list changes. */
  lemma PutChoice(q: Packer, image: VirtualImage, doc: VirtualDocument, minSize: real)
    requires SortedBySpace(q.right) && SortedBySpace(q.bottom)
    ensures var r := Put(q, image, doc, minSize);
      (NoGapTakes(q.right, q.bottom, image, doc) ==>
        r.entry == Entry(q.cursor.page, VirtualPlacement(image, q.cursor.x, q.cursor.y - image.height)) &&
        r.packer == Packer(q.cursor.(x := NextX(q.cursor.x, image, doc)), q.right, q.bottom)) &&
      (!NoGapTakes(q.right, q.bottom, image, doc) ==>
        r.packer.cursor == q.cursor &&
        exists g :: (g in q.right || g in q.bottom) &&
          (r.entry == PlacedAt(image, g) || r.entry == PlacedAt(Rotate(image), g)))
  {
    ReuseAnyChoice(q.right, q.bottom, image, doc, minSize);
    var u1 := RightReuse(q.right, image, doc, minSize);
    var u2 := BottomReuse(q.bottom, image, doc, minSize);
    var u3 := RightReuse(q.right, Rotate(image), doc, minSize);
    var u4 := BottomReuse(q.bottom, Rotate(image), doc, minSize);
    if u1.Some? {
      RightReuseChoice(q.right, image, doc, minSize);
      assert q.right[u1.value.index] in q.right;
    } else if u2.Some? {
      BottomReuseChoice(q.bottom, image, doc, minSize);
      assert q.bottom[u2.value.index] in q.bottom;
    } else if u3.Some? {
      RightReuseChoice(q.right, Rotate(image), doc, minSize);
      assert q.right[u3.value.index] in q.right;
    } else if u4.Some? {
      BottomReuseChoice(q.bottom, Rotate(image), doc, minSize);
      assert q.bottom[u4.value.index] in q.bottom;
    }
  }

  /** A pass keeps the bookkeeping invariant, opens at most one page, and draws on a page
    * that exists. */
  lemma StepKeeps(p: Packer, image: VirtualImage, doc: VirtualDocument, minSize: real)
    requires PackerOk(p, doc, minSize)
    ensures var r := Step(p, image, doc, minSize);
      PackerOk(r.packer, doc, minSize) &&
      p.cursor.page <= r.packer.cursor.page <= p.cursor.page + 1 &&
      r.entry.page <= r.packer.cursor.page
  {
    var q := Repositioned(p, image, doc, minSize);
    RepositionedKeeps(p, image, doc, minSize);
    ReuseAnyKeeps(q.right, q.bottom, image, doc, minSize, q.cursor.page + 1);
  }

  /** Under `ImageOk` a pass keeps the geometric invariant and draws inside the left, right
    * and top margins. */
  lemma StepInside(p: Packer, image: VirtualImage, doc: VirtualDocument, minSize: real)
    requires PackerOk(p, doc, minSize) && PackerInside(p, doc) && ImageOk(image, doc)
    ensures var r := Step(p, image, doc, minSize);
      PackerInside(r.packer, doc) && Contained(r.entry, doc)
  {
    var q := Repositioned(p, image, doc, minSize);
    RepositionedKeeps(p, image, doc, minSize);
    ReuseAnyInside(q.right, q.bottom, image, doc, minSize, q.cursor.page + 1);
  }

  /** The cursor, both lists and every placement drawn so far. */
  datatype Trace = Trace(packer: Packer, log: seq<Entry>)

  /** The state before the first image: the top-left corner of the first page, no row
    * started, no gaps. */
  function Start(doc: VirtualDocument): Packer {
    Packer(Cursor(doc.margin, doc.Top(), 0.0, 0), [], [])
  }

  /** The main loop of `place_images_on_pdf` on values: `Step` for each image in turn. One
    * placement per image, in order, of the image or of its rotation. */
  function Run(images: seq<VirtualImage>, doc: VirtualDocument, minSize: real): (t: Trace)
    ensures SortedBySpace(t.packer.right) && SortedBySpace(t.packer.bottom)
    ensures |t.log| == |images|
    ensures forall k :: 0 <= k < |images| ==>
      t.log[k].placement.image == images[k] || t.log[k].placement.image == Rotate(images[k])
    decreases |images|
  {
    if images == [] then Trace(Start(doc), [])
    else
      var t := Run(images[..|images| - 1], doc, minSize);
      var s := Step(t.packer, images[|images| - 1], doc, minSize);
      Trace(s.packer, t.log + [s.entry])
  }

  /** Over the whole loop the gap lists keep their invariant and every placement is on a
    * page up to the cursor's. */
  lemma {:induction false} RunKeeps(images: seq<VirtualImage>, doc: VirtualDocument, minSize: real)
    ensures var t := Run(images, doc, minSize);
      PackerOk(t.packer, doc, minSize) && forall e :: e in t.log ==> e.page <= t.packer.cursor.page
  {
    if images != [] {
      var front := images[..|images| - 1];
      var t := Run(front, doc, minSize);
      RunKeeps(front, doc, minSize);
      StepKeeps(t.packer, images[|images| - 1], doc, minSize);
    }
  }

  /** When every image meets `ImageOk`, every placement of the loop lies inside the left,
    * right and top margins. */
  lemma {:induction false} RunInside(images: seq<VirtualImage>, doc: VirtualDocument, minSize: real)
    requires AllImagesOk(images, doc)
    ensures var t := Run(images, doc, minSize);
      PackerInside(t.packer, doc) && forall e :: e in t.log ==> Contained(e, doc)
  {
    if images != [] {
      var front := images[..|images| - 1];
      assert AllImagesOk(front, doc) by {
        forall i | 0 <= i < |front| ensures ImageOk(front[i], doc) {
          assert front[i] == images[i];
        }
      }
      var t := Run(front, doc, minSize);
      RunInside(front, doc, minSize);
      RunKeeps(front, doc, minSize);
      assert ImageOk(images[|images| - 1], doc);
      StepInside(t.packer, images[|images| - 1], doc, minSize);
    }
  }

  /** The second half of a pass: the image goes into a gap when `use_unused` finds one, and
    * is drawn at the cursor otherwise; the cursor, the lists and the placement are those of
    * `Put`. */
  method PutImage(canvas: VirtualCanvas, pos: VirtualPosition, right: SpaceList, bottom: SpaceList,
                  image: VirtualImage, doc: VirtualDocument, minSize: real)
    requires right != bottom && canvas.Valid() && pos.page == canvas.currentPage
    requires SortedBySpace(right.items) && SortedBySpace(bottom.items)
    requires forall g :: g in right.items ==> g.page < |canvas.pages|
    requires forall g :: g in bottom.items ==> g.page < |canvas.pages|
    modifies canvas, pos, right, bottom
    ensures canvas.Valid() && pos.page == canvas.currentPage
    ensures var r := Put(old(Snapshot(pos, right, bottom)), image, doc, minSize);
      Snapshot(pos, right, bottom) == r.packer && canvas.log == old(canvas.log) + [r.entry]
  {
    ghost var q := Snapshot(pos, right, bottom);
    var used := UseUnused(canvas, right, bottom, image, doc, minSize);
    if !used {
      DrawImage(canvas, pos, image, doc);
      assert Snapshot(pos, right, bottom) == Packer(q.cursor.(x := NextX(q.cursor.x, image, doc)), q.right, q.bottom);
    }
  }

  /** One pass of the loop of `place_images_on_pdf`: reposition, then reuse a gap or else
    * draw at the cursor. The cursor, the lists and the placement drawn are those of `Step`. */
  method PlaceOne(canvas: VirtualCanvas, pos: VirtualPosition, right: SpaceList, bottom: SpaceList,
                  image: VirtualImage, doc: VirtualDocument, minSize: real)
    requires right != bottom && canvas.Valid() && pos.page == canvas.currentPage
    requires PackerOk(Snapshot(pos, right, bottom), doc, minSize)
    modifies canvas, pos, right, bottom
    ensures canvas.Valid() && pos.page == canvas.currentPage
    ensures var r := Step(old(Snapshot(pos, right, bottom)), image, doc, minSize);
      Snapshot(pos, right, bottom) == r.packer && canvas.log == old(canvas.log) + [r.entry]
  {
    ghost var p0 := Snapshot(pos, right, bottom);
    Reposition(canvas, pos, right, bottom, image, doc, minSize);
    RepositionedKeeps(p0, image, doc, minSize);
    assert |canvas.pages| == pos.page + 1;
    PutImage(canvas, pos, right, bottom, image, doc, minSize);
  }

  /** The placement loop of `place_images_on_pdf`, up to the rendering of the canvas: the
    * placements drawn and both gap lists are those of `Run`; so there is exactly one
    * placement per image, in order, each of the image itself or of the image rotated; the
    * gap lists keep their invariants; and when every image meets `ImageOk` every placement
    * lies inside the left, right and top margins. */
  method PlaceImages(images: seq<VirtualImage>, margin: real, minSize: real, pageWidth: real, pageHeight: real)
    returns (canvas: VirtualCanvas, right: SpaceList, bottom: SpaceList)
    ensures var t := Run(images, VirtualDocument(margin, pageWidth, pageHeight), minSize);
      canvas.log == t.log && right.items == t.packer.right && bottom.items == t.packer.bottom &&
      canvas.currentPage == t.packer.cursor.page
    ensures canvas.Valid() && canvas.length == |images|
    ensures forall k :: 0 <= k < |images| ==>
      canvas.log[k].placement.image == images[k] || canvas.log[k].placement.image == Rotate(images[k])
    ensures RightGapsOk(right.items, VirtualDocument(margin, pageWidth, pageHeight), minSize, |canvas.pages|)
    ensures BottomGapsOk(bottom.items, VirtualDocument(margin, pageWidth, pageHeight), minSize, |canvas.pages|)
    ensures AllImagesOk(images, VirtualDocument(margin, pageWidth, pageHeight)) ==>
      forall e :: e in canvas.log ==> Contained(e, VirtualDocument(margin, pageWidth, pageHeight))
  {
    canvas := new VirtualCanvas();
    var doc := VirtualDocument(margin, pageWidth, pageHeight);
    var pos := new VirtualPosition(doc.margin, doc.Top(), 0.0, 0);
    right := new SpaceList();
    bottom := new SpaceList();
    for i := 0 to |images|
      invariant right != bottom && canvas.Valid() && pos.page == canvas.currentPage
      invariant Snapshot(pos, right, bottom) == Run(images[..i], doc, minSize).packer
      invariant canvas.log == Run(images[..i], doc, minSize).log
    {
      assert images[..i + 1][..i] == images[..i];
      RunKeeps(images[..i], doc, minSize);
      PlaceOne(canvas, pos, right, bottom, images[i], doc, minSize);
    }
    assert images[..|images|] == images;
    RunKeeps(images, doc, minSize);
    if AllImagesOk(images, doc) {
      RunInside(images, doc, minSize);
    }
  }
}
