/** Concrete uses of a point collection, checked end to end against the
    contracts of `Pack`, `Add`, `Remove`, `Unpack` and `GetExtent`. */
module Scenarios {

  import opened Options
  import opened Extents
  import opened Buffers
  import opened Layout
  import opened PointCollections

  /** Pack three points, remove the middle one, and read the rest back. */
  method RemoveMiddlePoint() returns (points: seq<seq<int>>, extent: Extent)
    ensures points == [[1, 2], [5, 6]]
    ensures extent == Some(Box(1, 2, 5, 6))
  {
    var c := PackThreeRemoveMiddle();
    c.OffsetsFit();
    assert c.Offsets()[0] == 0 && c.Offsets()[1] == 4;
    assert c.Points()[0] == c.buf.arr[..][0..2];
    assert c.Points()[1] == c.buf.arr[..][4..6];
    XYsOfTwo(c.buf.arr[..], 0, 4);
    TwoPairsExtent();
    points := c.Unpack();
    extent := c.GetExtent();
  }

  /** After the removal the last point ends exactly at the end of the array:
      the intended bounds check reads it, the one as written refuses it. */
  method ReadLastPoint() returns (last: seq<int>)
    ensures last == [5, 6]
  {
    var c := PackThreeRemoveMiddle();
    c.OffsetsFit();
    assert c.Offsets()[1] == 4;
    assert c.Points()[1] == c.buf.arr[..][4..6];
    assert !GetAllowedAsWritten(c.buf.arr.Length, c.dim, 4);
    last := c.GetInclusive(4);
  }

  /** `pack([[1, 2], [3, 4], [5, 6]])` followed by `remove(2)`. */
  method PackThreeRemoveMiddle() returns (c: PointCollection)
    ensures fresh(c.buf) && c.Valid() && c.dim == 2 && c.buf.arr.Length == 6
    ensures c.Offsets() == [0, 4] && c.Points() == [[1, 2], [5, 6]]
  {
    c := Pack([[1, 2], [3, 4], [5, 6]], None, None);
    assert c.buf.ranges == [Range(0, 6)];
    assert StrideOffsets(6, 6, 2) == [];
    assert StrideOffsets(4, 6, 2) == [4];
    assert StrideOffsets(2, 6, 2) == [2, 4];
    assert c.Offsets() == [0, 2, 4];
    ghost var offs, pts := c.Offsets(), c.Points();
    c.Remove(2);
    ghost var j :| 0 <= j < |offs| && offs[j] == 2 &&
                   c.Offsets() == offs[..j] + offs[j + 1..] && c.Points() == pts[..j] + pts[j + 1..];
    assert j == 1;
    assert pts == [[1, 2], [3, 4], [5, 6]];
    assert pts[..1] + pts[2..] == [[1, 2], [5, 6]];
    assert offs[..1] + offs[2..] == [0, 4];
  }

  lemma XYsOfTwo(a: seq<int>, o1: nat, o2: nat)
    requires o1 + 1 < |a| && o2 + 1 < |a|
    ensures XYs(a, [o1, o2]) == [(a[o1], a[o1 + 1]), (a[o2], a[o2 + 1])]
  {
  }

  lemma TwoPairsExtent()
    ensures ExtentOf([(1, 2), (5, 6)]) == Some(Box(1, 2, 5, 6))
  {
    assert [(1, 2), (5, 6)][..1] == [(1, 2)];
    assert [(1, 2)][..0] == [];
  }

  /** Build a collection one `add` at a time, after packing its first point. */
  method PackThenAddTwice() returns (points: seq<seq<int>>)
    ensures points == [[1, 2], [3, 4], [5, 6]]
  {
    var c := Pack([[1, 2]], None, None);
    var o1 := c.Add([3, 4]);
    var o2 := c.Add([5, 6]);
    assert o1 == 2 && o2 == 4;
    points := c.Unpack();
  }

  /** Packing no points gives an empty collection with an empty extent. */
  method PackNothing() returns (count: nat, points: seq<seq<int>>, extent: Extent)
    ensures count == 0 && points == [] && extent == None
  {
    var c := Pack([], None, None);
    count := c.buf.count;
    points := c.Unpack();
    extent := c.GetExtent();
  }
}
