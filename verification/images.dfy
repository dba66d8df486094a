/**
 * `VirtualImage` of placement.py: an image already scaled to document points, with the
 * comparison operators the collector sorts by, the 90-degree turn the packer tries when an
 * upright image fits no gap, and the descending sort of `list.sort(reverse=True)`.
 */
module Images {

  /** An image ready for packing: `width` and `height` in points, `rotated` when its axes
    * were swapped relative to the decoded file. */
  datatype VirtualImage = VirtualImage(path: string, width: real, height: real, rotated: bool)

  /** `__eq__`: two images compare equal when their sizes agree, whatever their paths. */
  predicate SameSize(a: VirtualImage, b: VirtualImage) {
    a.width == b.width && a.height == b.height
  }

  /** `__lt__`: ordered by height, ties broken by width. */
  predicate Less(a: VirtualImage, b: VirtualImage) {
    a.height < b.height || (a.height == b.height && a.width < b.width)
  }

  /** `Less` is a strict total order on sizes: `SameSize` is its only notion of a tie. */
  lemma LessIsStrictTotalOrder(a: VirtualImage, b: VirtualImage, c: VirtualImage)
    ensures !Less(a, a)
    ensures Less(a, b) && Less(b, c) ==> Less(a, c)
    ensures Less(a, b) ==> !Less(b, a) && !SameSize(a, b)
    ensures Less(a, b) || SameSize(a, b) || Less(b, a)
  {
  }

  /** `rotate`: the same file turned by 90 degrees. */
  function Rotate(image: VirtualImage): VirtualImage {
    VirtualImage(image.path, image.height, image.width, !image.rotated)
  }

  /** Turning twice gives back the original image, field by field; one turn never does,
    * because it flips the `rotated` flag, and it keeps the area. */
  lemma RotateInvolution(image: VirtualImage)
    ensures Rotate(Rotate(image)) == image
    ensures Rotate(image) != image
    ensures Rotate(image).path == image.path
    ensures Rotate(image).width * Rotate(image).height == image.width * image.height
  {
  }

  /** The order `sort(reverse=True)` produces: no image is smaller than one after it. */
  ghost predicate NonIncreasing(s: seq<VirtualImage>) {
    forall i, j :: 0 <= i < j < |s| ==> !Less(s[i], s[j])
  }

  /** Inserts `x` into a non-increasing list, ahead of every image it is not smaller than
    * (so ahead of the images that compare equal to it). */
  function Insert(x: VirtualImage, s: seq<VirtualImage>): (r: seq<VirtualImage>)
    requires NonIncreasing(s)
    ensures NonIncreasing(r)
    ensures multiset(r) == multiset(s) + multiset{x}
  {
    if s == [] then [x]
    else if Less(x, s[0]) then
      var rest := Insert(x, s[1..]);
      assert s == [s[0]] + s[1..];
      HeadBoundsInsert(x, s, rest);
      [s[0]] + rest
    else
      assert forall j :: 0 <= j < |s| ==> !Less(x, s[j]) by {
        forall j | 0 <= j < |s| ensures !Less(x, s[j]) {
          if j > 0 { assert !Less(s[0], s[j]); }
        }
      }
      [x] + s
  }

  /** The head of `s`, which `x` is smaller than, may stay in front of `Insert(x, s[1..])`. */
  lemma HeadBoundsInsert(x: VirtualImage, s: seq<VirtualImage>, rest: seq<VirtualImage>)
    requires s != [] && NonIncreasing(s) && Less(x, s[0])
    requires NonIncreasing(rest) && multiset(rest) == multiset(s[1..]) + multiset{x}
    ensures NonIncreasing([s[0]] + rest)
  {
    var r := [s[0]] + rest;
    forall i, j | 0 <= i < j < |r| ensures !Less(r[i], r[j]) {
      if i == 0 {
        var y := rest[j - 1];
        assert y in multiset(rest);
        if y != x {
          assert y in multiset(s[1..]);
          var k :| 0 <= k < |s[1..]| && s[1..][k] == y;
          assert s[k + 1] == y;
        }
      } else {
        assert r[i] == rest[i - 1] && r[j] == rest[j - 1];
      }
    }
  }

  /** `images.sort(reverse=True)`: largest first by `Less`, equal images kept in input order. */
  function SortDescending(s: seq<VirtualImage>): (r: seq<VirtualImage>)
    ensures NonIncreasing(r)
    ensures multiset(r) == multiset(s)
  {
    if s == [] then []
    else
      assert s == [s[0]] + s[1..];
      Insert(s[0], SortDescending(s[1..]))
  }

  /** The images of `s` of the same size as `z`, in their order in `s`: the images the sort
    * compares as equal to `z`. */
  function SizeClass(s: seq<VirtualImage>, z: VirtualImage): (r: seq<VirtualImage>)
    ensures |r| <= |s|
  {
    if s == [] then []
    else (if SameSize(s[0], z) then [s[0]] else []) + SizeClass(s[1..], z)
  }

  /** Sorting neither drops nor adds an image. */
  lemma SortDescendingMembers(s: seq<VirtualImage>)
    ensures forall y :: y in SortDescending(s) <==> y in s
  {
    var r := SortDescending(s);
    forall y ensures y in r <==> y in s {
      assert y in r <==> y in multiset(r);
      assert y in s <==> y in multiset(s);
    }
  }

  /** `SizeClass` of a list with a given head. */
  lemma SizeClassCons(y: VirtualImage, t: seq<VirtualImage>, z: VirtualImage)
    ensures SizeClass([y] + t, z) == (if SameSize(y, z) then [y] else []) + SizeClass(t, z)
  {
    assert ([y] + t)[1..] == t;
  }

  /** An image that stays in front of `x` is of a different size than `x`, so the two never
    * both belong to one size class, and their order there does not matter. */
  lemma SizeClassPastHead(x: VirtualImage, s: seq<VirtualImage>, rest: seq<VirtualImage>, z: VirtualImage)
    requires s != [] && Less(x, s[0])
    requires SizeClass(rest, z) == (if SameSize(x, z) then [x] else []) + SizeClass(s[1..], z)
    ensures SizeClass([s[0]] + rest, z) == (if SameSize(x, z) then [x] else []) + SizeClass(s, z)
  {
    var tail := SizeClass(s[1..], z);
    SizeClassCons(s[0], rest, z);
    assert SizeClass(s, z) == (if SameSize(s[0], z) then [s[0]] else []) + tail;
    if SameSize(s[0], z) {
      LessIsStrictTotalOrder(x, s[0], z);
      assert SizeClass(rest, z) == tail;
      assert SizeClass([s[0]] + rest, z) == [s[0]] + tail == SizeClass(s, z);
    } else {
      assert SizeClass(s, z) == tail;
      assert SizeClass([s[0]] + rest, z) == SizeClass(rest, z);
    }
  }

  /** `Insert` puts `x` ahead of the images of its size and moves no other image past one of
    * the same size. */
  lemma {:induction false} InsertStable(x: VirtualImage, s: seq<VirtualImage>, z: VirtualImage)
    requires NonIncreasing(s)
    ensures SizeClass(Insert(x, s), z) == (if SameSize(x, z) then [x] else []) + SizeClass(s, z)
    decreases |s|
  {
    if s == [] {
    } else if Less(x, s[0]) {
      InsertStable(x, s[1..], z);
      SizeClassPastHead(x, s, Insert(x, s[1..]), z);
    } else {
      SizeClassCons(x, s, z);
    }
  }

  /** The sort is stable: images of the same size come out in their input order. */
  lemma {:induction false} SortDescendingStable(s: seq<VirtualImage>, z: VirtualImage)
    ensures SizeClass(SortDescending(s), z) == SizeClass(s, z)
    decreases |s|
  {
    if s != [] {
      SortDescendingStable(s[1..], z);
      InsertStable(s[0], SortDescending(s[1..]), z);
    }
  }
}
