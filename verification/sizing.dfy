/**
 * The sizing side of placement.py (and the scaling it shares with CollagePDFCreator.py):
 * centimetres to points, fitting decoded pixel dimensions into the user's box, the file-name
 * filter, and `collect_and_resize_images`, which sizes every matching file, tracks the
 * smallest dimension seen and sorts the images largest first.
 */
module Sizing {
  import opened Images

  function Min(a: real, b: real): real { if a <= b then a else b }

  /** `cm_to_points`: 2.54 cm make an inch, and an inch is 72 points. */
  function CmToPoints(cm: real): (points: real)
    ensures points * 2.54 == cm * 72.0
    ensures cm > 0.0 <==> points > 0.0
  {
    cm / 2.54 * 72.0
  }

  /** Python's `int()` on a non-negative value: the largest integer not above it. */
  function Truncate(v: real): (n: int)
    requires v >= 0.0
    ensures 0 <= n && n as real <= v < n as real + 1.0 && n == v.Floor
  {
    v.Floor
  }

  datatype Size = Size(width: real, height: real)

  /**
   * The fitting arithmetic of both `resize_image`s: keep the aspect ratio, never enlarge, and
   * let the axis whose ratio is tighter decide. The constrained side becomes the smaller of its
   * own length and the box's; the other side is the aspect-correct length for it, truncated
   * to an integer.
   */
  function Scale(w: real, h: real, maxW: real, maxH: real): (r: Size)
    requires w > 0.0 && h > 0.0 && maxW > 0.0 && maxH > 0.0
    ensures 0.0 <= r.width <= maxW && 0.0 <= r.height <= maxH
    ensures r.width <= w && r.height <= h
    ensures w / h > maxW / maxH ==>
      r.width == Min(w, maxW) && r.height == (Min(w, maxW) / (w / h)).Floor as real &&
      r.height <= r.width / (w / h) < r.height + 1.0
    ensures w / h <= maxW / maxH ==>
      r.height == Min(h, maxH) && r.width == (Min(h, maxH) * (w / h)).Floor as real &&
      r.width <= r.height * (w / h) < r.width + 1.0
  {
    if w / h > maxW / maxH then
      WidthCase(w, h, maxW, maxH);
      Size(Min(w, maxW), Truncate(Min(w, maxW) / (w / h)) as real)
    else
      HeightCase(w, h, maxW, maxH);
      Size(Truncate(Min(h, maxH) * (w / h)) as real, Min(h, maxH))
  }

  /** The width-constrained branch of `Scale`. */
  lemma WidthCase(w: real, h: real, maxW: real, maxH: real)
    requires w > 0.0 && h > 0.0 && maxW > 0.0 && maxH > 0.0
    requires w / h > maxW / maxH
    ensures var width := Min(w, maxW);
      var q := width / (w / h);
      q >= 0.0 &&
      var height := Truncate(q) as real;
      0.0 <= width <= maxW && width <= w && 0.0 <= height <= maxH && height <= h &&
      height <= q < height + 1.0
  {
    var width := Min(w, maxW);
    WidthBound(w, h, maxW, maxH, width);
  }

  /** The height-constrained branch of `Scale`. */
  lemma HeightCase(w: real, h: real, maxW: real, maxH: real)
    requires w > 0.0 && h > 0.0 && maxW > 0.0 && maxH > 0.0
    requires w / h <= maxW / maxH
    ensures var height := Min(h, maxH);
      var q := height * (w / h);
      q >= 0.0 &&
      var width := Truncate(q) as real;
      0.0 <= height <= maxH && height <= h && 0.0 <= width <= maxW && width <= w &&
      width <= q < width + 1.0
  {
    var height := Min(h, maxH);
    HeightBound(w, h, maxW, maxH, height);
  }

  lemma MulLess(a: real, b: real, c: real)
    requires a < b && c > 0.0
    ensures a * c < b * c
  {
  }

  lemma MulAtMost(a: real, b: real, c: real)
    requires a <= b && c >= 0.0
    ensures a * c <= b * c
  {
  }

  /** Comparing the two aspect ratios is comparing the cross products. */
  lemma RatioCross(w: real, h: real, maxW: real, maxH: real)
    requires w > 0.0 && h > 0.0 && maxW > 0.0 && maxH > 0.0
    ensures w / h > maxW / maxH <==> w * maxH > maxW * h
  {
    var r, s := w / h, maxW / maxH;
    assert r * h == w;
    assert s * maxH == maxW;
    assert w * maxH == r * (h * maxH);
    assert maxW * h == s * (h * maxH);
    if r > s { MulLess(s, r, h * maxH); }
    if r <= s { MulAtMost(r, s, h * maxH); }
  }

  /** Dividing out a positive factor. */
  lemma ScaledAtMost(q: real, c: real, bound: real)
    requires c > 0.0 && q * c <= bound * c
    ensures q <= bound
  {
    if q > bound { MulLess(bound, q, c); }
  }

  lemma ScaledBelow(q: real, c: real, bound: real)
    requires c > 0.0 && q * c < bound * c
    ensures q < bound
  {
    if q >= bound { MulAtMost(bound, q, c); }
  }

  /** The width-constrained case: the height computed from the width stays inside the box
    * and below the original height. */
  lemma WidthBound(w: real, h: real, maxW: real, maxH: real, newWidth: real)
    requires w > 0.0 && h > 0.0 && maxW > 0.0 && maxH > 0.0
    requires w / h > maxW / maxH
    requires 0.0 < newWidth <= w && newWidth <= maxW
    ensures var q := newWidth / (w / h); 0.0 <= q < maxH && q <= h
  {
    RatioCross(w, h, maxW, maxH);
    var r := w / h;
    var q := newWidth / r;
    assert r * h == w;
    assert q * r == newWidth;
    assert q * w == newWidth * h by {
      assert q * w == q * (r * h) == (q * r) * h;
    }
    MulAtMost(newWidth, maxW, h);
    assert maxW * h < maxH * w;
    ScaledBelow(q, w, maxH);
    MulAtMost(newWidth, w, h);
    assert w * h == h * w;
    ScaledAtMost(q, w, h);
    MulAtMost(0.0, newWidth, h);
    assert 0.0 * w == 0.0;
    ScaledAtMost(0.0, w, q);
  }

  /** The height-constrained case, symmetric to `WidthBound`. */
  lemma HeightBound(w: real, h: real, maxW: real, maxH: real, newHeight: real)
    requires w > 0.0 && h > 0.0 && maxW > 0.0 && maxH > 0.0
    requires w / h <= maxW / maxH
    requires 0.0 < newHeight <= h && newHeight <= maxH
    ensures var q := newHeight * (w / h); 0.0 <= q <= maxW && q <= w
  {
    RatioCross(w, h, maxW, maxH);
    var r := w / h;
    var q := newHeight * r;
    assert r * h == w;
    assert q * h == newHeight * w by {
      assert q * h == newHeight * (r * h);
    }
    MulAtMost(newHeight, maxH, w);
    assert maxH * w == w * maxH;
    ScaledAtMost(q, h, maxW);
    MulAtMost(newHeight, h, w);
    assert h * w == w * h;
    ScaledAtMost(q, h, w);
    MulAtMost(0.0, newHeight, w);
    assert 0.0 * h == 0.0;
    ScaledAtMost(0.0, h, q);
  }

  /**
   * `resize_image` of placement.py, given the decoded pixel dimensions: when the image's
   * orientation disagrees with the box's, its axes are swapped first and `rotated` is set;
   * the result then fits the box and is never larger than the (swapped) pixel size.
   */
  function ResizeImage(path: string, pixelWidth: int, pixelHeight: int, maxW: real, maxH: real): (r: VirtualImage)
    requires pixelWidth > 0 && pixelHeight > 0 && maxW > 0.0 && maxH > 0.0
    ensures r.path == path
    ensures r.rotated <==>
      (pixelWidth > pixelHeight && maxW < maxH) || (pixelWidth < pixelHeight && maxW > maxH)
    ensures 0.0 <= r.width <= maxW && 0.0 <= r.height <= maxH
    ensures r.width <= (if r.rotated then pixelHeight else pixelWidth) as real
    ensures r.height <= (if r.rotated then pixelWidth else pixelHeight) as real
  {
    var rotated := (pixelWidth - pixelHeight) as real * (maxW - maxH) < 0.0;
    SignOfProduct((pixelWidth - pixelHeight) as real, maxW - maxH);
    var (width, height) := if rotated then (pixelHeight, pixelWidth) else (pixelWidth, pixelHeight);
    var size := Scale(width as real, height as real, maxW, maxH);
    VirtualImage(path, size.width, size.height, rotated)
  }

  /** A product is negative exactly when its factors have strictly opposite signs. */
  lemma SignOfProduct(a: real, b: real)
    ensures a * b < 0.0 <==> (a > 0.0 && b < 0.0) || (a < 0.0 && b > 0.0)
  {
    if a > 0.0 && b > 0.0 { assert a * b > 0.0; }
    if a < 0.0 && b < 0.0 { assert (-a) * (-b) > 0.0; }
    if a > 0.0 && b < 0.0 { assert a * (-b) > 0.0; }
    if a < 0.0 && b > 0.0 { assert (-a) * b > 0.0; }
  }

  /** ASCII case folding, the part of `str.lower` file extensions need. */
  function LowerChar(c: char): char {
    if 'A' <= c <= 'Z' then (c as int + 32) as char else c
  }

  function Lower(s: string): (r: string)
    ensures |r| == |s|
  {
    if s == [] then [] else [LowerChar(s[0])] + Lower(s[1..])
  }

  predicate EndsWith(s: string, suffix: string) {
    |suffix| <= |s| && s[|s| - |suffix|..] == suffix
  }

  /** The filter `filename.lower().endswith(('png', 'jpg', 'jpeg', 'gif', 'bmp'))`. */
  predicate HasImageExtension(name: string) {
    var n := Lower(name);
    EndsWith(n, "png") || EndsWith(n, "jpg") || EndsWith(n, "jpeg") || EndsWith(n, "gif") || EndsWith(n, "bmp")
  }

  /** Folding twice folds no further. */
  lemma {:induction false} LowerIdempotent(s: string)
    ensures Lower(Lower(s)) == Lower(s)
  {
    if s != [] {
      LowerIdempotent(s[1..]);
      assert Lower(s)[1..] == Lower(s[1..]);
    }
  }

  /** The filter ignores case: a name is accepted exactly when its lower-cased form is. */
  lemma ExtensionIgnoresCase(name: string)
    ensures HasImageExtension(Lower(name)) == HasImageExtension(name)
  {
    LowerIdempotent(name);
  }

  /** A file found while walking the directory, with the pixel size its decoder reports. */
  datatype SourceFile = SourceFile(name: string, path: string, pixelWidth: int, pixelHeight: int)

  predicate Decodable(f: SourceFile) {
    f.pixelWidth > 0 && f.pixelHeight > 0
  }

  /** Every file the filter accepts can be opened and has a positive pixel size. */
  predicate AllDecodable(files: seq<SourceFile>) {
    forall f :: f in files && HasImageExtension(f.name) ==> Decodable(f)
  }

  /** The images the collector's loop appends, in walk order, before sorting. */
  function Sized(files: seq<SourceFile>, maxW: real, maxH: real): (r: seq<VirtualImage>)
    requires AllDecodable(files) && maxW > 0.0 && maxH > 0.0
    ensures |r| <= |files|
  {
    if files == [] then []
    else
      var f := files[|files| - 1];
      var front := Sized(files[..|files| - 1], maxW, maxH);
      if HasImageExtension(f.name) then front + [ResizeImage(f.path, f.pixelWidth, f.pixelHeight, maxW, maxH)]
      else front
  }

  /** The image the collector makes of a file the filter accepts. */
  predicate MadeFrom(y: VirtualImage, f: SourceFile, maxW: real, maxH: real)
    requires maxW > 0.0 && maxH > 0.0
  {
    HasImageExtension(f.name) && Decodable(f) &&
    y == ResizeImage(f.path, f.pixelWidth, f.pixelHeight, maxW, maxH)
  }

  /** The collected images are exactly the resized files the filter accepts. */
  lemma {:induction false} SizedMembers(files: seq<SourceFile>, maxW: real, maxH: real)
    requires AllDecodable(files) && maxW > 0.0 && maxH > 0.0
    ensures forall y :: y in Sized(files, maxW, maxH) <==>
      exists f :: f in files && MadeFrom(y, f, maxW, maxH)
    decreases |files|
  {
    if files != [] {
      var front := files[..|files| - 1];
      var last := files[|files| - 1];
      assert files == front + [last];
      assert AllDecodable(front);
      SizedMembers(front, maxW, maxH);
      forall y ensures y in Sized(files, maxW, maxH) <==> exists f :: f in files && MadeFrom(y, f, maxW, maxH) {
        if y in Sized(files, maxW, maxH) {
          if y !in Sized(front, maxW, maxH) {
            assert MadeFrom(y, last, maxW, maxH);
          } else {
            var f :| f in front && MadeFrom(y, f, maxW, maxH);
            assert f in files;
          }
        }
        if exists f :: f in files && MadeFrom(y, f, maxW, maxH) {
          var f :| f in files && MadeFrom(y, f, maxW, maxH);
          if f != last {
            assert f in front;
          }
        }
      }
    }
  }

  /** The loop over one more file appends that file's image when the filter accepts it. */
  lemma SizedSnoc(files: seq<SourceFile>, i: nat, maxW: real, maxH: real)
    requires AllDecodable(files) && maxW > 0.0 && maxH > 0.0 && i < |files|
    ensures AllDecodable(files[..i]) && AllDecodable(files[..i + 1])
    ensures Sized(files[..i + 1], maxW, maxH) ==
      Sized(files[..i], maxW, maxH) +
      (if HasImageExtension(files[i].name)
       then [ResizeImage(files[i].path, files[i].pixelWidth, files[i].pixelHeight, maxW, maxH)]
       else [])
  {
    assert files[..i + 1][..i] == files[..i];
  }

  /** One pass of the collector's loop over a file the filter accepts keeps its invariant. */
  lemma CollectStep(files: seq<SourceFile>, i: nat, maxW: real, maxH: real,
                    collected: seq<VirtualImage>, m: real, image: VirtualImage)
    requires AllDecodable(files) && maxW > 0.0 && maxH > 0.0 && i < |files|
    requires HasImageExtension(files[i].name) && Decodable(files[i])
    requires image == ResizeImage(files[i].path, files[i].pixelWidth, files[i].pixelHeight, maxW, maxH)
    requires AllDecodable(files[..i]) && collected == Sized(files[..i], maxW, maxH)
    requires Smallest(m, collected, Min(maxW, maxH))
    ensures AllDecodable(files[..i + 1]) && collected + [image] == Sized(files[..i + 1], maxW, maxH)
    ensures Smallest(Min(Min(m, image.width), image.height), collected + [image], Min(maxW, maxH))
  {
    SizedSnoc(files, i, maxW, maxH);
    SmallestAppend(m, collected, Min(maxW, maxH), image);
  }

  /** `min_size` as the loop keeps it: no larger than `bound` or any side of `images`, and
    * equal to `bound` or to one of those sides. */
  ghost predicate Smallest(m: real, images: seq<VirtualImage>, bound: real) {
    m <= bound &&
    (forall image :: image in images ==> m <= image.width && m <= image.height) &&
    (m == bound || exists image :: image in images && (m == image.width || m == image.height))
  }

  /** Taking the minimum with a new image's sides keeps `Smallest` for the longer list. */
  lemma SmallestAppend(m: real, images: seq<VirtualImage>, bound: real, image: VirtualImage)
    requires Smallest(m, images, bound)
    ensures Smallest(Min(Min(m, image.width), image.height), images + [image], bound)
  {
    var next := Min(Min(m, image.width), image.height);
    var more := images + [image];
    assert image in more;
    assert forall y :: y in images ==> y in more;
    if next != m {
      assert next == image.width || next == image.height;
    }
  }

  /** Sorting the images keeps `Smallest`: the sort neither drops nor adds one. */
  lemma SmallestSorted(m: real, images: seq<VirtualImage>, bound: real)
    requires Smallest(m, images, bound)
    ensures Smallest(m, SortDescending(images), bound)
  {
    SortDescendingMembers(images);
  }

  /**
   * `collect_and_resize_images` over an already enumerated list of files: the result holds
   * exactly the sized matching files, largest first, and `minSize` is the smallest of the box's
   * two sides and every returned width and height.
   */
  method CollectAndResizeImages(files: seq<SourceFile>, maxWidthCm: real, maxHeightCm: real)
    returns (images: seq<VirtualImage>, minSize: real)
    requires maxWidthCm > 0.0 && maxHeightCm > 0.0
    requires AllDecodable(files)
    ensures images == SortDescending(Sized(files, CmToPoints(maxWidthCm), CmToPoints(maxHeightCm)))
    ensures NonIncreasing(images)
    ensures multiset(images) == multiset(Sized(files, CmToPoints(maxWidthCm), CmToPoints(maxHeightCm)))
    ensures minSize <= Min(CmToPoints(maxWidthCm), CmToPoints(maxHeightCm))
    ensures forall image :: image in images ==> minSize <= image.width && minSize <= image.height
    ensures minSize == Min(CmToPoints(maxWidthCm), CmToPoints(maxHeightCm)) ||
            exists image :: image in images && (minSize == image.width || minSize == image.height)
  {
    var maxWidthPoints := CmToPoints(maxWidthCm);
    var maxHeightPoints := CmToPoints(maxHeightCm);
    var collected: seq<VirtualImage> := [];
    minSize := Min(maxWidthPoints, maxHeightPoints);
    for i := 0 to |files|
      invariant collected == Sized(files[..i], maxWidthPoints, maxHeightPoints)
      invariant Smallest(minSize, collected, Min(maxWidthPoints, maxHeightPoints))
    {
      var f := files[i];
      if HasImageExtension(f.name) {
        var image := ResizeImage(f.path, f.pixelWidth, f.pixelHeight, maxWidthPoints, maxHeightPoints);
        CollectStep(files, i, maxWidthPoints, maxHeightPoints, collected, minSize, image);
        minSize := Min(Min(minSize, image.width), image.height);
        collected := collected + [image];
      } else {
        SizedSnoc(files, i, maxWidthPoints, maxHeightPoints);
      }
    }
    assert files[..|files|] == files;
    images := SortDescending(collected);
    SmallestSorted(minSize, collected, Min(maxWidthPoints, maxHeightPoints));
  }
}
