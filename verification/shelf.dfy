/**
 * The older packer of CollagePDFCreator.py: `resize_image` without rotation, and the shelf
 * loop of `place_images_on_pdf`, which lays images out left to right in rows, top to bottom,
 * page after page, with no reuse of leftover space. The reportlab canvas is replaced by the
 * list of draws the loop emits, each tagged with the number of pages shown before it.
 */
module Shelf {
  import Sizing
  import opened Spaces

  /** The `(path, new_width, new_height)` triple `resize_image` returns. */
  datatype Resized = Resized(path: string, width: real, height: real)

  /** `resize_image` of CollagePDFCreator.py, given the decoded pixel dimensions: the shared
    * fitting arithmetic with no rotation; the result fits the box, is never larger than the
    * image, and keeps one side exactly at the smaller of the image's side and the box's. */
  function ResizeImage(path: string, pixelWidth: int, pixelHeight: int, maxW: real, maxH: real): (r: Resized)
    requires pixelWidth > 0 && pixelHeight > 0 && maxW > 0.0 && maxH > 0.0
    ensures r.path == path
    ensures 0.0 <= r.width <= maxW && 0.0 <= r.height <= maxH
    ensures r.width <= pixelWidth as real && r.height <= pixelHeight as real
    ensures r.width == Sizing.Min(pixelWidth as real, maxW) || r.height == Sizing.Min(pixelHeight as real, maxH)
  {
    var size := Sizing.Scale(pixelWidth as real, pixelHeight as real, maxW, maxH);
    Resized(path, size.width, size.height)
  }

  /** The two `resize_image`s agree whenever the one in placement.py does not rotate. */
  lemma ResizeAgreesUnrotated(path: string, pixelWidth: int, pixelHeight: int, maxW: real, maxH: real)
    requires pixelWidth > 0 && pixelHeight > 0 && maxW > 0.0 && maxH > 0.0
    ensures var turned := Sizing.ResizeImage(path, pixelWidth, pixelHeight, maxW, maxH);
      var upright := ResizeImage(path, pixelWidth, pixelHeight, maxW, maxH);
      !turned.rotated ==> turned.width == upright.width && turned.height == upright.height
  {
  }

  function Max(a: real, b: real): real { if a >= b then a else b }

  /** One `c.drawImage` call: the image's path, its lower-left corner and size, and the
    * number of `showPage` calls made before it. */
  datatype Draw = Draw(path: string, x: real, y: real, width: real, height: real, page: nat)

  /** The loop's local state: `x`, `y`, `max_row_height`, and the pages shown so far. */
  datatype Cursor = Cursor(x: real, y: real, maxRowHeight: real, page: nat)

  /** The cursor together with every draw emitted so far. */
  datatype Sheet = Sheet(cursor: Cursor, draws: seq<Draw>)

  /** The state before the first image: top-left corner of the first page, empty row. */
  function Start(doc: VirtualDocument): Cursor {
    Cursor(doc.margin, doc.Top(), 0.0, 0)
  }

  /** The row wrap: when the image does not fit across, the cursor moves to the left margin
    * one row height plus the margin lower, and the new row is empty. */
  function Wrapped(c: Cursor, image: Resized, doc: VirtualDocument): Cursor {
    if c.x + image.width > doc.PageRight() then
      Cursor(doc.margin, c.y - (c.maxRowHeight + doc.margin), 0.0, c.page)
    else c
  }

  /** The page break: when the image does not fit above the bottom margin, a new page is
    * shown and the cursor goes to its top-left corner with an empty row. */
  function Broken(c: Cursor, image: Resized, doc: VirtualDocument): Cursor {
    if c.y - image.height < doc.margin then
      Cursor(doc.margin, doc.Top(), 0.0, c.page + 1)
    else c
  }

  /** One pass of the loop: wrap, break, draw hanging from the cursor, move right. The image
    * is drawn once, with its own path and size, on the current page or the next one; a
    * draw at the cursor itself when it fits there; the cursor ends one margin right of the
    * draw, level with its top. A wrap starts a new row at the left margin, one row height
    * plus the margin lower; a break, taken exactly when the image does not fit above the
    * bottom margin of that row, starts the next page at its top-left corner; either one
    * empties the row before the image's height is counted in it. */
  function Place(s: Sheet, image: Resized, doc: VirtualDocument): (r: Sheet)
    ensures |r.draws| == |s.draws| + 1 && r.draws[..|s.draws|] == s.draws
    ensures var d := r.draws[|s.draws|];
      d.path == image.path && d.width == image.width && d.height == image.height &&
      (d.page == s.cursor.page || d.page == s.cursor.page + 1) &&
      r.cursor.x == d.x + image.width + doc.margin && r.cursor.y == d.y + image.height &&
      r.cursor.page == d.page && r.cursor.maxRowHeight >= image.height &&
      (s.cursor.x + image.width <= doc.PageRight() && s.cursor.y - image.height >= doc.margin ==>
        d.x == s.cursor.x && d.y == s.cursor.y - image.height && d.page == s.cursor.page)
    ensures var c := s.cursor;
      var d := r.draws[|s.draws|];
      var wraps := c.x + image.width > doc.PageRight();
      var rowTop := if wraps then c.y - (c.maxRowHeight + doc.margin) else c.y;
      var breaks := rowTop - image.height < doc.margin;
      (wraps || breaks ==> d.x == doc.margin) &&
      (d.page == c.page + 1 <==> breaks) &&
      (breaks ==> d.y + image.height == doc.Top()) &&
      (!breaks ==> d.y + image.height == rowTop) &&
      r.cursor.maxRowHeight == Max(if wraps || breaks then 0.0 else c.maxRowHeight, image.height)
  {
    var c := Broken(Wrapped(s.cursor, image, doc), image, doc);
    var d := Draw(image.path, c.x, c.y - image.height, image.width, image.height, c.page);
    assert (s.draws + [d])[..|s.draws|] == s.draws;
    Sheet(Cursor(c.x + image.width + doc.margin, c.y, Max(c.maxRowHeight, image.height), c.page), s.draws + [d])
  }

  /** The whole loop as a function of the image list: one draw per image, in order, each
    * with that image's path and size. */
  function Run(images: seq<Resized>, doc: VirtualDocument): (r: Sheet)
    ensures |r.draws| == |images|
    ensures forall k :: 0 <= k < |images| ==>
      r.draws[k].path == images[k].path && r.draws[k].width == images[k].width &&
      r.draws[k].height == images[k].height
    decreases |images|
  {
    if images == [] then Sheet(Start(doc), [])
    else Place(Run(images[..|images| - 1], doc), images[|images| - 1], doc)
  }

  /** Two draws do not overlap: they are on different pages or apart along one axis
    * (touching edges allowed). */
  predicate Disjoint(a: Draw, b: Draw) {
    a.page != b.page ||
    a.x + a.width <= b.x || b.x + b.width <= a.x ||
    a.y + a.height <= b.y || b.y + b.height <= a.y
  }

  /** A draw lies inside the four margins of its page. */
  predicate Inside(d: Draw, doc: VirtualDocument) {
    doc.margin <= d.x && d.x + d.width <= doc.PageRight() &&
    doc.margin <= d.y && d.y + d.height <= doc.Top()
  }

  /** An earlier draw on the cursor's page is either in a row above the cursor's, or in the
    * cursor's row: top-aligned with it, no taller than the row height, and at least one
    * margin left of the cursor. */
  predicate Settled(d: Draw, c: Cursor, doc: VirtualDocument) {
    c.y <= d.y ||
    (d.y + d.height == c.y && d.height <= c.maxRowHeight && d.x + d.width + doc.margin <= c.x)
  }

  /** What the loop keeps: the cursor is right of the left margin and below the top one; no
    * draw is on a later page than the cursor's; the draws on its page are settled; and no
    * two draws overlap. */
  ghost predicate Layout(s: Sheet, doc: VirtualDocument) {
    doc.margin <= s.cursor.x && s.cursor.y <= doc.Top() && 0.0 <= s.cursor.maxRowHeight &&
    (forall i :: 0 <= i < |s.draws| ==> s.draws[i].page <= s.cursor.page) &&
    (forall i :: 0 <= i < |s.draws| && s.draws[i].page == s.cursor.page ==>
      Settled(s.draws[i], s.cursor, doc)) &&
    (forall i, j :: 0 <= i < j < |s.draws| ==> Disjoint(s.draws[i], s.draws[j]))
  }

  /** Images with no negative side. */
  ghost predicate NonNegative(images: seq<Resized>) {
    forall k :: 0 <= k < |images| ==> 0.0 <= images[k].width && 0.0 <= images[k].height
  }

  /** An image fits an empty page: no wider than the page less two margins, no taller than
    * the page less two margins. */
  predicate Fits(image: Resized, doc: VirtualDocument) {
    0.0 <= image.width <= doc.PageRight() - doc.margin &&
    0.0 <= image.height <= doc.Top() - doc.margin
  }

  /** One pass of the loop keeps the layout invariant. */
  lemma PlaceKeeps(s: Sheet, image: Resized, doc: VirtualDocument)
    requires Layout(s, doc) && doc.margin >= 0.0
    requires image.width >= 0.0 && image.height >= 0.0
    ensures Layout(Place(s, image, doc), doc)
  {
    var c0 := s.cursor;
    var c1 := Wrapped(c0, image, doc);
    var c := Broken(c1, image, doc);
    var r := Place(s, image, doc);
    var n := |s.draws|;
    var d := r.draws[n];
    assert d.x == c.x && d.y == c.y - image.height && d.page == c.page;
    // Every earlier draw is settled against the cursor the new draw hangs from.
    forall i | 0 <= i < n && s.draws[i].page == c.page
      ensures c.y <= s.draws[i].y || Settled(s.draws[i], c, doc)
    {
      var e := s.draws[i];
      assert e.page == c0.page;
      if c1 != c0 {
        assert c0.y <= e.y || e.y >= c0.y - c0.maxRowHeight;
      }
    }
    forall i | 0 <= i < n ensures Disjoint(s.draws[i], d) {
      var e := s.draws[i];
      if e.page == d.page {
        assert Settled(e, c, doc) || c.y <= e.y;
      }
    }
    forall i, j | 0 <= i < j < |r.draws| ensures Disjoint(r.draws[i], r.draws[j]) {
      if j < n {
        assert r.draws[i] == s.draws[i] && r.draws[j] == s.draws[j];
      } else {
        assert r.draws[i] == s.draws[i];
      }
    }
    forall i | 0 <= i < |r.draws| && r.draws[i].page == r.cursor.page
      ensures Settled(r.draws[i], r.cursor, doc)
    {
      if i < n {
        assert r.draws[i] == s.draws[i];
      }
    }
  }

  /** The draw a pass emits for an image that fits an empty page lies inside the margins. */
  lemma PlaceInside(s: Sheet, image: Resized, doc: VirtualDocument)
    requires Layout(s, doc) && doc.margin >= 0.0 && Fits(image, doc)
    ensures Inside(Place(s, image, doc).draws[|s.draws|], doc)
  {
  }

  /** The loop keeps the layout invariant from the start, whatever the (non-negative) sizes:
    * in particular no two draws ever overlap. */
  lemma {:induction false} RunLayout(images: seq<Resized>, doc: VirtualDocument)
    requires doc.margin >= 0.0 && NonNegative(images)
    ensures Layout(Run(images, doc), doc)
  {
    if images != [] {
      var front := images[..|images| - 1];
      assert NonNegative(front) by {
        forall k | 0 <= k < |front| ensures 0.0 <= front[k].width && 0.0 <= front[k].height {
          assert front[k] == images[k];
        }
      }
      RunLayout(front, doc);
      PlaceKeeps(Run(front, doc), images[|images| - 1], doc);
    }
  }

  /** When every image fits an empty page, every draw lies inside the four margins. */
  lemma {:induction false} RunInside(images: seq<Resized>, doc: VirtualDocument)
    requires doc.margin >= 0.0 && forall k :: 0 <= k < |images| ==> Fits(images[k], doc)
    ensures forall d :: d in Run(images, doc).draws ==> Inside(d, doc)
  {
    if images != [] {
      var front := images[..|images| - 1];
      assert forall k :: 0 <= k < |front| ==> front[k] == images[k];
      RunInside(front, doc);
      assert NonNegative(front) by {
        forall k | 0 <= k < |front| ensures 0.0 <= front[k].width && 0.0 <= front[k].height {
          assert Fits(images[k], doc);
        }
      }
      RunLayout(front, doc);
      PlaceInside(Run(front, doc), images[|images| - 1], doc);
      var r := Run(images, doc);
      assert r.draws == Run(front, doc).draws + [r.draws[|front|]];
    }
  }

  /** What the whole loop promises: one draw per image, in order, with its path and size;
    * no two draws overlap; and when every image fits an empty page every draw lies inside
    * the margins. */
  lemma RunSound(images: seq<Resized>, doc: VirtualDocument)
    ensures var draws := Run(images, doc).draws;
      |draws| == |images| &&
      (forall k :: 0 <= k < |images| ==>
        draws[k].path == images[k].path && draws[k].width == images[k].width &&
        draws[k].height == images[k].height) &&
      (doc.margin >= 0.0 && NonNegative(images) ==>
        forall i, j :: 0 <= i < j < |draws| ==> Disjoint(draws[i], draws[j])) &&
      (doc.margin >= 0.0 && (forall k :: 0 <= k < |images| ==> Fits(images[k], doc)) ==>
        forall d :: d in draws ==> Inside(d, doc))
  {
    if doc.margin >= 0.0 && NonNegative(images) {
      RunLayout(images, doc);
    }
    if doc.margin >= 0.0 && (forall k :: 0 <= k < |images| ==> Fits(images[k], doc)) {
      RunInside(images, doc);
    }
  }

  /** One pass of the loop of `place_images_on_pdf` on its local variables: the draw it
    * emits and the variables it leaves are those of `Place`. */
  method Advance(x0: real, y0: real, maxRowHeight0: real, page0: nat, image: Resized, doc: VirtualDocument)
    returns (x: real, y: real, maxRowHeight: real, page: nat, d: Draw)
    ensures forall draws :: (Place(Sheet(Cursor(x0, y0, maxRowHeight0, page0), draws), image, doc) ==
      Sheet(Cursor(x, y, maxRowHeight, page), draws + [d]))
  {
    x, y, maxRowHeight, page := x0, y0, maxRowHeight0, page0;
    if x + image.width > doc.pageWidth - doc.margin {
      x := doc.margin;
      y := y - (maxRowHeight + doc.margin);
      maxRowHeight := 0.0;
    }
    if y - image.height < doc.margin {
      page := page + 1;
      x, y := doc.margin, doc.pageHeight - doc.margin;
      maxRowHeight := 0.0;
    }
    d := Draw(image.path, x, y - image.height, image.width, image.height, page);
    x := x + image.width + doc.margin;
    maxRowHeight := Max(maxRowHeight, image.height);
  }

  /** `place_images_on_pdf` of CollagePDFCreator.py, with the document's geometry given and
    * the canvas calls turned into emitted draws: exactly one draw per image, in order, with
    * its path and size; no two draws overlap; and when every image fits an empty page every
    * draw lies inside the margins. */
  method PlaceImagesOnPdf(images: seq<Resized>, doc: VirtualDocument) returns (placed: seq<Draw>)
    ensures placed == Run(images, doc).draws
    ensures |placed| == |images|
    ensures forall k :: 0 <= k < |images| ==>
      placed[k].path == images[k].path && placed[k].width == images[k].width && placed[k].height == images[k].height
    ensures doc.margin >= 0.0 && NonNegative(images) ==>
      forall i, j :: 0 <= i < j < |placed| ==> Disjoint(placed[i], placed[j])
    ensures doc.margin >= 0.0 && (forall k :: 0 <= k < |images| ==> Fits(images[k], doc)) ==>
      forall d :: d in placed ==> Inside(d, doc)
  {
    var x, y := doc.margin, doc.pageHeight - doc.margin;
    var maxRowHeight := 0.0;
    var page: nat := 0;
    placed := [];
    for i := 0 to |images|
      invariant Sheet(Cursor(x, y, maxRowHeight, page), placed) == Run(images[..i], doc)
    {
      assert images[..i + 1][..i] == images[..i];
      ghost var before := Sheet(Cursor(x, y, maxRowHeight, page), placed);
      var d;
      x, y, maxRowHeight, page, d := Advance(x, y, maxRowHeight, page, images[i], doc);
      placed := placed + [d];
      assert Sheet(Cursor(x, y, maxRowHeight, page), placed) == Place(before, images[i], doc);
    }
    assert images[..|images|] == images;
    RunSound(images, doc);
  }
}
