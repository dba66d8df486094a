/**
 * Right-gap reuse as `try_use_unused_right` evidently intends it: each right gap carries the
 * height of the row it was cut from, and an image takes a gap only when it is both narrow
 * enough and no taller than that row, so whatever it is drawn in stays inside the row.
 */
module RowReuse {
  import opened Wrappers
  import opened Images
  import opened Spaces
  import opened Canvas
  import opened Packing

  /** A right gap and the height of the row it belongs to. */
  datatype RowSpace = RowSpace(gap: VirtualSpace, height: real)

  /** The gaps kept in ascending order of width. */
  ghost predicate SortedRows(rs: seq<RowSpace>) {
    forall i, j :: 0 <= i < j < |rs| ==> rs[i].gap.space <= rs[j].gap.space
  }

  /** The image fits gap `r` across and down. */
  predicate Takes(r: RowSpace, image: VirtualImage) {
    r.gap.space >= image.width && image.height <= r.height
  }

  /** The first index from `from` on whose gap takes the image, or `|rs|` when there is none. */
  function FirstTaker(rs: seq<RowSpace>, from: nat, image: VirtualImage): (k: nat)
    requires from <= |rs|
    ensures from <= k <= |rs|
    ensures forall j :: from <= j < k ==> !Takes(rs[j], image)
    ensures k < |rs| ==> Takes(rs[k], image)
    decreases |rs| - from
  {
    if from == |rs| || Takes(rs[from], image) then from else FirstTaker(rs, from + 1, image)
  }

  /** Inserts `v` after every gap not wider than it, as `insort_right` does. */
  function InsortRow(rs: seq<RowSpace>, v: RowSpace): (r: seq<RowSpace>)
    requires SortedRows(rs)
    ensures SortedRows(r)
    ensures multiset(r) == multiset(rs) + multiset{v}
  {
    if rs == [] then [v]
    else if v.gap.space < rs[0].gap.space then [v] + rs
    else
      var tail := InsortRow(rs[1..], v);
      assert rs == [rs[0]] + rs[1..];
      HeadBelowInsortRow(rs, v, tail);
      [rs[0]] + tail
  }

  /** The narrowest gap may stay in front when `v`, no narrower, goes into the rest. */
  lemma HeadBelowInsortRow(rs: seq<RowSpace>, v: RowSpace, tail: seq<RowSpace>)
    requires rs != [] && SortedRows(rs) && rs[0].gap.space <= v.gap.space
    requires SortedRows(tail) && multiset(tail) == multiset(rs[1..]) + multiset{v}
    ensures SortedRows([rs[0]] + tail)
  {
    forall i | 0 <= i < |tail| ensures rs[0].gap.space <= tail[i].gap.space {
      assert tail[i] in multiset(rs[1..]) + multiset{v};
      if tail[i] != v {
        var j :| 0 <= j < |rs[1..]| && rs[1..][j] == tail[i];
        assert rs[j + 1] == tail[i];
      }
    }
    var r := [rs[0]] + tail;
    forall i, j | 0 <= i < j < |r| ensures r[i].gap.space <= r[j].gap.space {
      if i > 0 {
        assert r[i] == tail[i - 1] && r[j] == tail[j - 1];
      }
    }
  }

  /** The outcome of one reuse: the entry drawn and the list afterwards. */
  datatype RowOutcome = RowOutcome(index: nat, entry: Entry, rows: seq<RowSpace>)

  /** The corrected `try_use_unused_right`: the narrowest gap that takes the image is used, and
    * what is left of it to the right comes back, with the same row height, when at least
    * `minSize` remains. */
  function RowReuseAt(rs: seq<RowSpace>, image: VirtualImage, doc: VirtualDocument, minSize: real)
    : (r: Option<RowOutcome>)
    requires SortedRows(rs)
    ensures r.Some? ==> r.value.index < |rs| && SortedRows(r.value.rows)
  {
    var k := FirstTaker(rs, 0, image);
    if k < |rs| then
      var row := rs[k];
      var rest := rs[..k] + rs[k + 1..];
      assert SortedRows(rest) by {
        forall i, j | 0 <= i < j < |rest| ensures rest[i].gap.space <= rest[j].gap.space {
          var i' := if i < k then i else i + 1;
          var j' := if j < k then j else j + 1;
          assert rest[i] == rs[i'] && rest[j] == rs[j'];
        }
      }
      var keep := NextX(row.gap.x, image, doc) + minSize <= doc.PageRight();
      Some(RowOutcome(k, PlacedAt(image, row.gap),
                      if keep then InsortRow(rest, RowSpace(RightRemainder(row.gap, image, doc), row.height))
                      else rest))
    else
      None
  }

  /** Corrected reuse succeeds exactly when some gap takes the image, then uses the narrowest
    * such gap, and draws the image inside that gap's row: no lower than the row's bottom and
    * no further right than the gap reaches. */
  lemma {:induction false} RowReuseInRow(rs: seq<RowSpace>, image: VirtualImage, doc: VirtualDocument, minSize: real)
    requires SortedRows(rs)
    ensures var r := RowReuseAt(rs, image, doc, minSize);
      (r.Some? <==> exists row :: row in rs && Takes(row, image)) &&
      (r.Some? ==>
        var row := rs[r.value.index];
        var e := r.value.entry;
        Takes(row, image) && e == PlacedAt(image, row.gap) &&
        row.gap.y - row.height <= e.placement.y &&
        e.placement.x + image.width <= row.gap.x + row.gap.space &&
        (forall other :: other in rs && Takes(other, image) ==> row.gap.space <= other.gap.space))
  {
    var k := FirstTaker(rs, 0, image);
    if k < |rs| {
      assert rs[k] in rs;
      forall other | other in rs && Takes(other, image) ensures rs[k].gap.space <= other.gap.space {
        var j :| 0 <= j < |rs| && rs[j] == other;
        assert k <= j;
      }
    } else {
      forall row | row in rs ensures !Takes(row, image) {
        var j :| 0 <= j < |rs| && rs[j] == row;
      }
    }
  }

  /** On the gap the first image of `ReuseOverlap.Witness` leaves, with its row height of 100
    * points, the turned second image is refused: it is 300 points tall. */
  lemma RowReuseRefusesTallImage(doc: VirtualDocument)
    requires doc == VirtualDocument(10.0, 21.0 * 72.0 / 2.54, 29.7 * 72.0 / 2.54)
    ensures var g := RowSpace(VirtualSpace(doc.PageRight() - 420.0, 420.0, doc.Top(), 0), 100.0);
      var image := Rotate(VirtualImage("b", 300.0, 90.0, false));
      RowReuseAt([g], image, doc, 80.0).None? && !Takes(g, image)
  {
    var g := RowSpace(VirtualSpace(doc.PageRight() - 420.0, 420.0, doc.Top(), 0), 100.0);
    var image := Rotate(VirtualImage("b", 300.0, 90.0, false));
    RowReuseInRow([g], image, doc, 80.0);
  }
}
