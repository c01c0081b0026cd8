/** The packed-buffer collaborator (`ol.structs.Buffer`), reduced to the part
    of its contract that a point collection relies on: a raw array, a count of
    live elements, and the sorted, disjoint live ranges that `forEachRange`
    visits.  Its free-space bookkeeping is not modelled; `Add` always appends
    after the last live range and `Remove` cuts a hole out of a live range. */
module Buffers {

  /** A half-open live range `[start, stop)` of the raw array. */
  datatype Range = Range(start: nat, stop: nat)

  /** Total number of elements covered by `rs`. */
  function SumLengths(rs: seq<Range>): (total: int)

  {
    if rs == [] then 0 else (rs[0].stop - rs[0].start) + SumLengths(rs[1..])
  }

  /** Well-formed ranges cover a non-negative number of elements. */
  lemma {:induction false} SumLengthsNonNegative(rs: seq<Range>)
    requires forall k :: 0 <= k < |rs| ==> rs[k].start <= rs[k].stop
    ensures SumLengths(rs) >= 0
  {
    if rs != [] {
      SumLengthsNonNegative(rs[1..]);
    }
  }

  lemma {:induction false} SumLengthsConcat(a: seq<Range>, b: seq<Range>)
    ensures SumLengths(a + b) == SumLengths(a) + SumLengths(b)
  {
    if a == [] {
      assert a + b == b;
    } else {
      assert (a + b)[0] == a[0];
      assert (a + b)[1..] == a[1..] + b;
      SumLengthsConcat(a[1..], b);
    }
  }

  lemma SumLengthsSnoc(rs: seq<Range>, r: Range)
    ensures SumLengths(rs + [r]) == SumLengths(rs) + (r.stop - r.start)
  {
    SumLengthsConcat(rs, [r]);
    assert SumLengths([r]) == r.stop - r.start;
  }

  lemma SumLengthsLast(rs: seq<Range>)
    requires |rs| > 0
    ensures SumLengths(rs) == SumLengths(rs[..|rs| - 1]) + (rs[|rs| - 1].stop - rs[|rs| - 1].start)
  {
    assert rs == rs[..|rs| - 1] + [rs[|rs| - 1]];
    SumLengthsSnoc(rs[..|rs| - 1], rs[|rs| - 1]);
  }

  /** The ranges are well formed, in ascending order and pairwise disjoint. */
  ghost predicate SortedRanges(rs: seq<Range>)
  {
    (forall k :: 0 <= k < |rs| ==> rs[k].start <= rs[k].stop) &&
    (forall k, l :: 0 <= k < l < |rs| ==> rs[k].stop <= rs[l].start)
  }

  /** The ranges obtained by cutting the hole `[offset, offset + width)`
      out of range `k`. When the hole starts or ends range `k`, one of the two
      pieces is empty and is kept, so `forEachRange` in this model may visit
      an empty range that a real buffer would have merged away; the stride
      loops do nothing on an empty range, so no scan result changes. */
  function Split(rs: seq<Range>, k: nat, offset: nat, width: nat): seq<Range>
    requires k < |rs|
  {
    rs[..k] + [Range(rs[k].start, offset), Range(offset + width, rs[k].stop)] + rs[k + 1..]
  }

  /** Cutting a hole out of a range removes exactly `width` live elements. */
  lemma {:induction false} SplitSum(rs: seq<Range>, k: nat, offset: nat, width: nat)
    requires k < |rs|
    requires rs[k].start <= offset && offset + width <= rs[k].stop
    ensures SumLengths(Split(rs, k, offset, width)) == SumLengths(rs) - width
  {
    var rs' := Split(rs, k, offset, width);
    if k == 0 {
      assert rs'[1..][1..] == rs[1..];
    } else {
      assert rs'[0] == rs[0];
      assert rs'[1..] == Split(rs[1..], k - 1, offset, width);
      SplitSum(rs[1..], k - 1, offset, width);
    }
  }

  /** Cutting a hole out of a range keeps the ranges sorted and disjoint and
      keeps the end of the last range. */
  lemma SplitSorted(rs: seq<Range>, k: nat, offset: nat, width: nat)
    requires SortedRanges(rs) && k < |rs|
    requires rs[k].start <= offset && offset + width <= rs[k].stop
    ensures SortedRanges(Split(rs, k, offset, width))
    ensures |Split(rs, k, offset, width)| == |rs| + 1
    ensures Split(rs, k, offset, width)[|rs|].stop == rs[|rs| - 1].stop
  {
    var rs' := Split(rs, k, offset, width);
    assert |rs'| == |rs| + 1;
    assert forall i :: 0 <= i < k ==> rs'[i] == rs[i];
    assert rs'[k] == Range(rs[k].start, offset);
    assert rs'[k + 1] == Range(offset + width, rs[k].stop);
    assert forall i :: k + 1 < i < |rs'| ==> rs'[i] == rs[i - 1];
    forall i, j | 0 <= i < j < |rs'|
      ensures rs'[i].stop <= rs'[j].start
    {
      var i' := if i <= k then i else i - 1;
      var j' := if j <= k then j else j - 1;
      if i' < j' { assert rs[i'].stop <= rs[j'].start; }
    }
  }

  /** The buffer's invariant on its ranges: at least one (possibly empty)
      range, sorted and disjoint, all below `length`, covering `count`
      elements. */
  ghost predicate ValidRanges(rs: seq<Range>, length: nat, count: int)
  {
    |rs| > 0 &&
    SortedRanges(rs) &&
    rs[|rs| - 1].stop <= length &&
    SumLengths(rs) == count
  }

  /** Cutting a hole out of a live range leaves valid ranges with `width`
      fewer live elements. */
  lemma SplitValid(rs: seq<Range>, length: nat, count: int, k: nat, offset: nat, width: nat)
    requires ValidRanges(rs, length, count) && k < |rs|
    requires rs[k].start <= offset && offset + width <= rs[k].stop
    ensures width <= count
    ensures ValidRanges(Split(rs, k, offset, width), length, count - width)
  {
    SplitSum(rs, k, offset, width);
    SplitSorted(rs, k, offset, width);
    SumLengthsNonNegative(Split(rs, k, offset, width));
  }

  /** A prefix of a copy's prefix is the same prefix of the original. */
  lemma PrefixOfPrefix(a: seq<int>, b: seq<int>, n: nat)
    requires |b| <= |a| && a[..|b|] == b && n <= |b|
    ensures a[..n] == b[..n]
  {
    assert a[..n] == a[..|b|][..n];
  }

  /** Splicing `v` into `a` at `o` keeps what lies before `o` and puts `v`
      at `o`. */
  lemma SpliceSlices(b: seq<int>, a: seq<int>, o: nat, v: seq<int>)
    requires o + |v| <= |a| && b == a[..o] + v + a[o + |v|..]
    ensures |b| == |a| && b[..o] == a[..o] && b[o..o + |v|] == v
  {
  }

  /** The ranges after appending `w` elements to the last one. */
  function ExtendLast(rs: seq<Range>, w: nat): seq<Range>
    requires |rs| > 0
  {
    rs[..|rs| - 1] + [Range(rs[|rs| - 1].start, rs[|rs| - 1].stop + w)]
  }

  /** Appending to the last range keeps the ranges sorted and disjoint. */
  lemma ExtendLastSorted(rs: seq<Range>, w: nat)
    requires |rs| > 0 && SortedRanges(rs)
    ensures SortedRanges(ExtendLast(rs, w))
  {
    var rs' := ExtendLast(rs, w);
    forall i | 0 <= i < |rs'|
      ensures rs'[i].start <= rs'[i].stop
    {
      if i < |rs| - 1 {
        assert rs'[i] == rs[i];
      }
    }
    forall i, j | 0 <= i < j < |rs'|
      ensures rs'[i].stop <= rs'[j].start
    {
      assert rs'[i] == rs[i];
      if j < |rs| - 1 {
        assert rs'[j] == rs[j];
      } else {
        assert rs'[j].start == rs[j].start;
      }
    }
  }

  /** Appending `w` elements to the last range adds `w` live elements. */
  lemma ExtendLastSum(rs: seq<Range>, w: nat)
    requires |rs| > 0
    ensures SumLengths(ExtendLast(rs, w)) == SumLengths(rs) + w
  {
    SumLengthsLast(rs);
    SumLengthsSnoc(rs[..|rs| - 1], Range(rs[|rs| - 1].start, rs[|rs| - 1].stop + w));
  }

  /** Appending `w` elements to the last range keeps the ranges valid, for
      `w` more live elements, provided the array reaches that far. */
  lemma ExtendLastValid(rs: seq<Range>, length: nat, count: int, w: nat)
    requires |rs| > 0 && SortedRanges(rs) && SumLengths(rs) == count
    requires rs[|rs| - 1].stop + w <= length
    ensures ValidRanges(ExtendLast(rs, w), length, count + w)
  {
    ExtendLastSorted(rs, w);
    ExtendLastSum(rs, w);
    assert |ExtendLast(rs, w)| == |rs|;
  }

  class Buffer {
    var arr: array<int>
    var count: nat
    var ranges: seq<Range>

    /** The buffer's invariant: at least one (possibly empty) range, sorted and
        disjoint, inside the array, and their lengths add up to the count. */
    ghost predicate Valid()
      reads this
    {
      ValidRanges(ranges, arr.Length, count)
    }

    /** One past the last live element: where `Add` appends. */
    function End(): (e: nat)
      reads this
      requires Valid()
      ensures e <= arr.Length
      ensures forall k :: 0 <= k < |ranges| ==> ranges[k].stop <= e
    {
      ranges[|ranges| - 1].stop
    }

    /** `new ol.structs.Buffer(arr, used)`: the first `used` elements are live. */
    constructor (a: array<int>, used: nat)
      requires used <= a.Length
      ensures Valid()
      ensures arr == a && count == used && ranges == [Range(0, used)]
    {
      arr := a;
      count := used;
      ranges := [Range(0, used)];
      assert SumLengths([Range(0, used)]) == used;
    }

    /** `set(values, offset)`: overwrite `|values|` elements starting at `offset`. */
    method Set(values: seq<int>, offset: nat)
      requires Valid()
      requires offset + |values| <= arr.Length
      modifies arr
      ensures Valid()
      ensures arr[..] == old(arr[..offset]) + values + old(arr[offset + |values|..])
    {
      var i := 0;
      while i < |values|
        invariant 0 <= i <= |values|
        invariant arr[..offset] == old(arr[..offset])
        invariant arr[offset..offset + i] == values[..i]
        invariant arr[offset + i..] == old(arr[offset + i..])
      {
        arr[offset + i] := values[i];
        i := i + 1;
        assert arr[offset..offset + i] == arr[offset..offset + i - 1] + [arr[offset + i - 1]];
      }
      assert arr[..] == arr[..offset] + arr[offset..offset + |values|] + arr[offset + |values|..];
    }

    /** Replaces the array by a longer copy of itself. */
    method Grow(length: nat)
      requires Valid() && arr.Length <= length
      modifies this`arr
      ensures Valid() && fresh(arr)
      ensures arr.Length == length && arr[..old(arr.Length)] == old(arr[..])
    {
      var grown := new int[length];
      var i := 0;
      while i < arr.Length
        modifies grown
        invariant 0 <= i <= arr.Length
        invariant grown[..i] == arr[..i]
      {
        grown[i] := arr[i];
        i := i + 1;
      }
      arr := grown;
    }

    /** `add(values)`: append after the last live range, growing the array when
        it is too short, and return the offset of the first value written. */
    method Add(values: seq<int>) returns (offset: nat)
      requires Valid()
      modifies this, arr
      ensures Valid()
      ensures offset == old(End())
      ensures count == old(count) + |values|
      ensures ranges == ExtendLast(old(ranges), |values|)
      ensures offset + |values| <= arr.Length
      ensures arr[..offset] == old(arr[..offset])
      ensures arr[offset..offset + |values|] == values
      ensures old(End()) + |values| <= old(arr.Length) ==> arr == old(arr)
      ensures arr == old(arr) || fresh(arr)
    {
      offset := End();
      ghost var before := arr[..];
      if arr.Length < offset + |values| {
        Grow(offset + |values|);
        PrefixOfPrefix(arr[..], before, offset);
      }
      ghost var mid := arr[..];
      Set(values, offset);
      SpliceSlices(arr[..], mid, offset, values);
      ExtendLastValid(ranges, arr.Length, count, |values|);
      ranges := ExtendLast(ranges, |values|);
      count := count + |values|;
    }

    /** `remove(width, offset)`: the `width` elements at `offset`, which lie in
        live range `k`, become a hole.  Range `k` is replaced by the parts
        before and after the hole. */
    method Remove(width: nat, offset: nat) returns (ghost k: nat)
      requires Valid()
      requires exists k :: 0 <= k < |ranges| &&
                 ranges[k].start <= offset && offset + width <= ranges[k].stop
      modifies this
      ensures Valid()
      ensures arr == old(arr) && count == old(count) - width
      ensures k < |old(ranges)|
      ensures old(ranges[k].start) <= offset && offset + width <= old(ranges[k].stop)
      ensures ranges == Split(old(ranges), k, offset, width)
    {
      ghost var w :| 0 <= w < |ranges| && ranges[w].start <= offset && offset + width <= ranges[w].stop;
      var i := 0;
      while !(ranges[i].start <= offset && offset + width <= ranges[i].stop)
        modifies {}
        invariant 0 <= i <= w
        decreases w - i
      {
        i := i + 1;
      }
      k := i;
      SplitValid(ranges, arr.Length, count, i, offset, width);
      ranges := Split(ranges, i, offset, width);
      count := count - width;
    }
  }
}
