/**
 * The leftover-space bookkeeping of placement.py: the document's fixed geometry, a
 * `VirtualSpace` (a gap at the end of a row or below the last row of a page), and the two
 * lists of gaps the packer keeps ordered by `space` with `bisect_left`, `insort_right`,
 * `pop` and index assignment.
 */
module Spaces {

  /** `VirtualDocument`: the page size, the margin on every side, and the padding between
    * images, which the source sets equal to the margin. */
  datatype VirtualDocument = VirtualDocument(margin: real, pageWidth: real, pageHeight: real) {
    function Padding(): real { margin }
    /** `page_right`: the rightmost x an image may reach. */
    function PageRight(): real { pageWidth - margin }
    /** The y of the top edge of the usable area, where each page's first row starts. */
    function Top(): real { pageHeight - margin }
  }

  /** A free gap: `space` is its usable extent (width for a right gap, height for a bottom
    * gap), `(x, y)` its top-left corner and `page` the page it is on. */
  datatype VirtualSpace = VirtualSpace(space: real, x: real, y: real, page: nat)

  /** A Python list of gaps that the packer updates in place. */
  class SpaceList {
    var items: seq<VirtualSpace>

    constructor ()
      ensures items == []
    {
      items := [];
    }

    /** `list.pop(i)`: removes and returns the entry at `i`. */
    method Pop(i: nat) returns (e: VirtualSpace)
      requires i < |items|
      modifies this
      ensures e == old(items)[i] && items == RemoveAt(old(items), i)
    {
      e := items[i];
      items := RemoveAt(items, i);
    }

    /** `bisect.insort_right(list, v, key=lambda vs: vs.space)`. */
    method Insort(v: VirtualSpace)
      requires SortedBySpace(items)
      modifies this
      ensures items == InsortRight(old(items), v)
    {
      items := InsortRight(items, v);
    }

    /** `list[i] = v`. */
    method Set(i: nat, v: VirtualSpace)
      requires i < |items|
      modifies this
      ensures items == old(items)[i := v]
    {
      items := items[i := v];
    }
  }

  /** The `space` of entry `i`. The order below is stated through it rather than through
    * `s[i].space`, so that the order is only brought to bear on the entries a proof names. */
  function SpaceAt(s: seq<VirtualSpace>, i: nat): real
    requires i < |s|
  {
    s[i].space
  }

  /** The order the bisect calls rely on: ascending by `space`. */
  ghost predicate SortedBySpace(s: seq<VirtualSpace>) {
    forall i, j :: 0 <= i < j < |s| ==> SpaceAt(s, i) <= SpaceAt(s, j)
  }

  /** Two entries of a sorted list are in order. */
  lemma SortedAt(s: seq<VirtualSpace>, i: nat, j: nat)
    requires SortedBySpace(s) && i <= j < |s|
    ensures s[i].space <= s[j].space
  {
    if i < j {
      assert SpaceAt(s, i) <= SpaceAt(s, j);
    }
  }

  /** The head of a non-empty sorted list is its smallest entry, and its tail is sorted. */
  lemma SortedHead(s: seq<VirtualSpace>)
    requires SortedBySpace(s) && s != []
    ensures forall k :: 0 <= k < |s| ==> s[0].space <= s[k].space
    ensures SortedBySpace(s[1..])
  {
    forall k | 0 <= k < |s| ensures s[0].space <= s[k].space {
      SortedAt(s, 0, k);
    }
    forall i, j | 0 <= i < j < |s| - 1 ensures SpaceAt(s[1..], i) <= SpaceAt(s[1..], j) {
      SortedAt(s, i + 1, j + 1);
    }
  }

  /** `bisect_left(s, key, key=lambda vs: vs.space)`: the first position whose gap is at
    * least `key`; everything before it is smaller, everything from it on is not. */
  function BisectLeft(s: seq<VirtualSpace>, key: real): (i: nat)
    requires SortedBySpace(s)
    ensures i <= |s|
    ensures forall k :: 0 <= k < i ==> s[k].space < key
    ensures forall k :: i <= k < |s| ==> s[k].space >= key
  {
    if s == [] then 0
    else
      SortedHead(s);
      if s[0].space >= key then 0
      else 1 + BisectLeft(s[1..], key)
  }

  /** `bisect_right(s, key, key=lambda vs: vs.space)`: the first position whose gap exceeds
    * `key`. */
  function BisectRight(s: seq<VirtualSpace>, key: real): (i: nat)
    requires SortedBySpace(s)
    ensures i <= |s|
    ensures forall k :: 0 <= k < i ==> s[k].space <= key
    ensures forall k :: i <= k < |s| ==> s[k].space > key
  {
    if s == [] then 0
    else
      SortedHead(s);
      if s[0].space > key then 0
      else 1 + BisectRight(s[1..], key)
  }

  /** `insort_right(s, v, key=lambda vs: vs.space)`: the list stays sorted and gains `v` and
    * nothing else. */
  function InsortRight(s: seq<VirtualSpace>, v: VirtualSpace): (r: seq<VirtualSpace>)
    requires SortedBySpace(s)
    ensures SortedBySpace(r)
    ensures |r| == |s| + 1
    ensures forall e :: e in r <==> e in s || e == v
  {
    var k := BisectRight(s, v.space);
    InsertAtKeeps(s, k, v);
    s[..k] + [v] + s[k..]
  }

  /** Where `insort_right` puts `v`: after every gap no larger than it, before every larger
    * one, with the others in their old order; as a multiset the list gains exactly `v`. */
  lemma InsortRightPlace(s: seq<VirtualSpace>, v: VirtualSpace)
    requires SortedBySpace(s)
    ensures var r := InsortRight(s, v);
      multiset(r) == multiset(s) + multiset{v} &&
      exists k :: 0 <= k <= |s| && r == s[..k] + [v] + s[k..] &&
        (forall i :: 0 <= i < k ==> s[i].space <= v.space) &&
        (forall i :: k <= i < |s| ==> s[i].space > v.space)
  {
    var k := BisectRight(s, v.space);
    InsertAtKeeps(s, k, v);
  }

  /** Inserting `v` at `k` keeps the order when everything before `k` is no larger and
    * everything from `k` on is no smaller, and adds exactly `v`. */
  lemma InsertAtKeeps(s: seq<VirtualSpace>, k: nat, v: VirtualSpace)
    requires SortedBySpace(s) && k <= |s|
    requires forall i :: 0 <= i < k ==> s[i].space <= v.space
    requires forall i :: k <= i < |s| ==> s[i].space > v.space
    ensures SortedBySpace(s[..k] + [v] + s[k..])
    ensures multiset(s[..k] + [v] + s[k..]) == multiset(s) + multiset{v}
    ensures forall e :: e in s[..k] + [v] + s[k..] <==> e in s || e == v
  {
    var r := s[..k] + [v] + s[k..];
    forall i, j | 0 <= i < j < |r| ensures SpaceAt(r, i) <= SpaceAt(r, j) {
      if j < k {
        assert r[i] == s[i] && r[j] == s[j];
        SortedAt(s, i, j);
      } else if j == k {
        assert r[i] == s[i];
      } else if i < k {
        assert r[i] == s[i] && r[j] == s[j - 1];
      } else if i == k {
        assert r[j] == s[j - 1];
      } else {
        assert r[i] == s[i - 1] && r[j] == s[j - 1];
        SortedAt(s, i - 1, j - 1);
      }
    }
    calc {
      multiset(r);
      multiset(s[..k]) + multiset{v} + multiset(s[k..]);
      { assert s == s[..k] + s[k..]; }
      multiset(s) + multiset{v};
    }
  }

  /** `s.pop(i)`: drops the entry at `i` and keeps the others in order. */
  function RemoveAt(s: seq<VirtualSpace>, i: nat): (r: seq<VirtualSpace>)
    requires i < |s|
    ensures |r| == |s| - 1
    ensures forall k :: 0 <= k < i ==> r[k] == s[k]
    ensures forall k :: i <= k < |r| ==> r[k] == s[k + 1]
  {
    s[..i] + s[i + 1..]
  }

  /** Dropping an entry keeps the order and loses exactly that entry. */
  lemma RemoveAtKeeps(s: seq<VirtualSpace>, i: nat)
    requires i < |s|
    ensures SortedBySpace(s) ==> SortedBySpace(RemoveAt(s, i))
    ensures multiset(RemoveAt(s, i)) == multiset(s) - multiset{s[i]}
    ensures forall e :: e in RemoveAt(s, i) ==> e in s
  {
    assert s == s[..i] + [s[i]] + s[i + 1..];
    assert multiset(s) == multiset(s[..i]) + multiset{s[i]} + multiset(s[i + 1..]);
    if SortedBySpace(s) {
      var r := RemoveAt(s, i);
      forall a, b | 0 <= a < b < |r| ensures SpaceAt(r, a) <= SpaceAt(r, b) {
        SortedAt(s, if a < i then a else a + 1, if b < i then b else b + 1);
      }
    }
  }

  /** Replacing an entry by one with the same `space` keeps the order. */
  lemma ReplaceKeepsSorted(s: seq<VirtualSpace>, i: nat, v: VirtualSpace)
    requires i < |s| && SortedBySpace(s) && v.space == s[i].space
    ensures SortedBySpace(s[i := v])
    ensures forall e :: e in s[i := v] ==> e in s || e == v
  {
    var r := s[i := v];
    forall a, b | 0 <= a < b < |r| ensures SpaceAt(r, a) <= SpaceAt(r, b) {
      SortedAt(s, a, b);
    }
    forall e | e in s[i := v] ensures e in s || e == v {
      var k :| 0 <= k < |s| && s[i := v][k] == e;
      if k != i { assert s[k] == e; }
    }
  }
}
