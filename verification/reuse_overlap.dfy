/**
 * An overlap the packer of placement.py can produce. `try_use_unused_right` looks only at a
 * right gap's width, but the gap is as tall as the row it was cut from: an image taller than
 * that row reaches down into the next row, where later images are drawn on top of it.
 * `ReuseOverlaps` follows `Packing.Run` image by image on an A4 page to such a pair.
 */
module ReuseOverlap {
  import opened Wrappers
  import opened Images
  import opened Spaces
  import opened Canvas
  import opened Packing

  /** Two placements share some area of the page. */
  predicate Overlap(a: VirtualPlacement, b: VirtualPlacement) {
    a.x < b.x + b.image.width && b.x < a.x + a.image.width &&
    a.y < b.y + b.image.height && b.y < a.y + a.image.height
  }

  /** A4 in points (21 cm by 29.7 cm) with the given margin. */
  function A4(margin: real): VirtualDocument {
    VirtualDocument(margin, 21.0 * 72.0 / 2.54, 29.7 * 72.0 / 2.54)
  }

  /** Five images in the order the collector sorts them: by height, then width, largest first. */
  function Witness(): (s: seq<VirtualImage>)
    ensures NonIncreasing(s)
  {
    [VirtualImage("a", 400.0, 100.0, false), VirtualImage("b", 300.0, 90.0, false),
     VirtualImage("c", 200.0, 80.0, false), VirtualImage("d", 200.0, 80.0, false),
     VirtualImage("e", 150.0, 80.0, false)]
  }

  /** The first pass only sets the row height, then draws the image in the top-left corner. */
  lemma FirstPass(image: VirtualImage, doc: VirtualDocument, minSize: real)
    ensures Step(Start(doc), image, doc, minSize) ==
      Pass(Packer(Cursor(NextX(doc.margin, image, doc), doc.Top(), image.height, 0), [], []),
           Entry(0, VirtualPlacement(image, doc.margin, doc.Top() - image.height)))
  {
  }

  /** The first image starts the top row; the cursor moves past it. */
  lemma WitnessFirst(s: seq<VirtualImage>, doc: VirtualDocument)
    requires s == Witness() && doc == A4(10.0)
    ensures Run(s[..1], doc, 80.0) ==
      Trace(Packer(Cursor(420.0, doc.Top(), 100.0, 0), [], []), [TopRow(s, doc)[0]])
  {
    assert s[..1] == [] + [s[0]];
    RunSnoc([], s[0], doc, 80.0);
    FirstPass(s[0], doc, 80.0);
  }

  /** The gap the first row leaves at its right end. */
  function FirstGap(doc: VirtualDocument): VirtualSpace {
    VirtualSpace(doc.PageRight() - 420.0, 420.0, doc.Top(), 0)
  }

  /** The second image does not fit across the first row: the row wraps and its right end is
    * recorded as a gap. */
  lemma SecondWraps(s: seq<VirtualImage>, doc: VirtualDocument)
    requires s == Witness() && doc == A4(10.0)
    ensures Repositioned(Packer(Cursor(420.0, doc.Top(), 100.0, 0), [], []), s[1], doc, 80.0) ==
      Packer(SecondRow(doc, 10.0), [FirstGap(doc)], [])
  {
  }

  /** Upright, the second image is too wide for that gap; turned, it takes it, and too little
    * is left to its right to keep. */
  lemma SecondTurns(s: seq<VirtualImage>, doc: VirtualDocument)
    requires s == Witness() && doc == A4(10.0)
    ensures Put(Packer(SecondRow(doc, 10.0), [FirstGap(doc)], []), s[1], doc, 80.0) ==
      Pass(Packer(SecondRow(doc, 10.0), [], []), TopRow(s, doc)[1])
  {
    var g := FirstGap(doc);
    assert RightReuse([g], s[1], doc, 80.0).None?;
    assert RemoveAt([g], 0) == [];
    assert RightReuse([g], Rotate(s[1]), doc, 80.0) == Some(Reuse(0, TopRow(s, doc)[1], []));
  }

  /** The second image wraps the row, leaving the gap right of the first image, and fits that
    * gap only when turned: 300 points tall, it hangs from the top of a 100-point row. */
  lemma WitnessSecond(s: seq<VirtualImage>, doc: VirtualDocument)
    requires s == Witness() && doc == A4(10.0)
    ensures Run(s[..2], doc, 80.0) ==
      Trace(Packer(SecondRow(doc, 10.0), [], []), TopRow(s, doc))
  {
    WitnessFirst(s, doc);
    assert TopRow(s, doc) == [TopRow(s, doc)[0]] + [TopRow(s, doc)[1]];
    PrefixSnoc(s, 1);
    RunSnoc(s[..1], s[1], doc, 80.0);
    SecondWraps(s, doc);
    SecondTurns(s, doc);
  }

  /** The placements of the first two images. */
  function TopRow(s: seq<VirtualImage>, doc: VirtualDocument): seq<Entry>
    requires |s| >= 2
  {
    [Entry(0, VirtualPlacement(s[0], 10.0, doc.Top() - 100.0)),
     Entry(0, VirtualPlacement(Rotate(s[1]), 420.0, doc.Top() - 300.0))]
  }

  /** `Run` takes the images one at a time. */
  lemma RunSnoc(images: seq<VirtualImage>, image: VirtualImage, doc: VirtualDocument, minSize: real)
    ensures var t := Run(images, doc, minSize);
      var s := Step(t.packer, image, doc, minSize);
      Run(images + [image], doc, minSize) == Trace(s.packer, t.log + [s.entry])
  {
    assert (images + [image])[..|images|] == images;
  }

  /** A prefix one longer is the shorter prefix and the next element. */
  lemma PrefixSnoc<T>(s: seq<T>, k: nat)
    requires k < |s|
    ensures s[..k + 1] == s[..k] + [s[k]]
  {
  }

  /** With no gaps recorded and room left in the row, the next pass draws the image at the
    * cursor and moves the cursor past it: `next` is the cursor after it and `e` its entry. */
  lemma RunDraws(images: seq<VirtualImage>, more: seq<VirtualImage>, image: VirtualImage,
                 doc: VirtualDocument, minSize: real, c: Cursor, log: seq<Entry>, next: Cursor, e: Entry)
    requires Run(images, doc, minSize) == Trace(Packer(c, [], []), log)
    requires more == images + [image]
    requires c.maxRowHeight != 0.0 && c.x + image.width <= doc.PageRight()
    requires next == c.(x := NextX(c.x, image, doc))
    requires e == Entry(c.page, VirtualPlacement(image, c.x, c.y - image.height))
    ensures Run(more, doc, minSize) == Trace(Packer(next, [], []), log + [e])
  {
    RunSnoc(images, image, doc, minSize);
    DrawsAtCursor(c, image, doc, minSize);
  }

  /** With no gaps recorded and room left in the row, a pass draws the image at the cursor. */
  lemma DrawsAtCursor(c: Cursor, image: VirtualImage, doc: VirtualDocument, minSize: real)
    requires c.maxRowHeight != 0.0 && c.x + image.width <= doc.PageRight()
    ensures Step(Packer(c, [], []), image, doc, minSize) ==
      Pass(Packer(c.(x := NextX(c.x, image, doc)), [], []),
           Entry(c.page, VirtualPlacement(image, c.x, c.y - image.height)))
  {
  }

  /** The cursor of the second row, at `x`. */
  function SecondRow(doc: VirtualDocument, x: real): Cursor {
    Cursor(x, doc.Top() - 110.0, 90.0, 0)
  }

  /** Where the second row's images go: their top edge on the row's. */
  function InSecondRow(image: VirtualImage, x: real, doc: VirtualDocument): Entry {
    Entry(0, VirtualPlacement(image, x, doc.Top() - 190.0))
  }

  /** The third image starts the second row at the left margin. */
  lemma WitnessThird(s: seq<VirtualImage>, doc: VirtualDocument)
    requires s == Witness() && doc == A4(10.0)
    ensures Run(s[..3], doc, 80.0) ==
      Trace(Packer(SecondRow(doc, 220.0), [], []), TopRow(s, doc) + [InSecondRow(s[2], 10.0, doc)])
  {
    WitnessSecond(s, doc);
    PrefixSnoc(s, 2);
    RunDraws(s[..2], s[..3], s[2], doc, 80.0, SecondRow(doc, 10.0), TopRow(s, doc),
             SecondRow(doc, 220.0), InSecondRow(s[2], 10.0, doc));
  }

  /** The fourth image follows it. */
  lemma WitnessFourth(s: seq<VirtualImage>, doc: VirtualDocument)
    requires s == Witness() && doc == A4(10.0)
    ensures Run(s[..4], doc, 80.0) ==
      Trace(Packer(SecondRow(doc, 430.0), [], []),
            TopRow(s, doc) + [InSecondRow(s[2], 10.0, doc)] + [InSecondRow(s[3], 220.0, doc)])
  {
    WitnessThird(s, doc);
    PrefixSnoc(s, 3);
    RunDraws(s[..3], s[..4], s[3], doc, 80.0, SecondRow(doc, 220.0), TopRow(s, doc) + [InSecondRow(s[2], 10.0, doc)],
             SecondRow(doc, 430.0), InSecondRow(s[3], 220.0, doc));
  }

  /** The fifth image still fits across the second row, and ends under the turned second
    * image. */
  lemma WitnessRest(s: seq<VirtualImage>, doc: VirtualDocument)
    requires s == Witness() && doc == A4(10.0)
    ensures var t := Run(s, doc, 80.0);
      t.log[4] == InSecondRow(s[4], 430.0, doc) && t.log[1] == TopRow(s, doc)[1]
  {
    WitnessFourth(s, doc);
    var log := TopRow(s, doc) + [InSecondRow(s[2], 10.0, doc)] + [InSecondRow(s[3], 220.0, doc)];
    PrefixSnoc(s, 4);
    assert s[..5] == s;
    RunDraws(s[..4], s, s[4], doc, 80.0, SecondRow(doc, 430.0), log,
             SecondRow(doc, 590.0), InSecondRow(s[4], 430.0, doc));
    assert (log + [InSecondRow(s[4], 430.0, doc)])[1] == log[1] == TopRow(s, doc)[1];
  }

  /** As written, the packer draws the fifth image over the turned second one, both on the
    * first page, although every image is in sort order and inside the margins. */
  lemma ReuseOverlaps()
    ensures var doc := A4(10.0);
      var t := Run(Witness(), doc, 80.0);
      AllImagesOk(Witness(), doc) &&
      t.log[1].page == t.log[4].page == 0 &&
      Overlap(t.log[1].placement, t.log[4].placement)
  {
    WitnessRest(Witness(), A4(10.0));
    WitnessFits();
  }

  /** Every image of the witness fits between the side margins of an A4 page. */
  lemma WitnessFits()
    ensures AllImagesOk(Witness(), A4(10.0))
  {
    var s := Witness();
    assert forall i :: 0 <= i < |s| ==> s[i].width <= 400.0 && 80.0 <= s[i].height;
  }
}
