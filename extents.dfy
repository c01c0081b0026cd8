/** The bounding extent collaborator (`ol.Extent`): an empty extent, grown by
    `extendXY(x, y)` to cover every point passed to it.  The source builds the
    empty extent from floating-point infinities; here "empty" is `None` and a
    non-empty extent is an integer box. */
module Extents {

  import opened Options

  datatype Box = Box(minX: int, minY: int, maxX: int, maxY: int)

  type Extent = Option<Box>

  predicate Contains(b: Box, x: int, y: int)
  {
    b.minX <= x <= b.maxX && b.minY <= y <= b.maxY
  }

  /** `outer` covers every point that `inner` covers. */
  predicate Covers(outer: Box, inner: Box)
  {
    outer.minX <= inner.minX && inner.maxX <= outer.maxX &&
    outer.minY <= inner.minY && inner.maxY <= outer.maxY
  }

  function Min(a: int, b: int): int { if a <= b then a else b }
  function Max(a: int, b: int): int { if a <= b then b else a }

  /** `extendXY`: the least box that covers the old extent and (x, y). */
  function ExtendXY(e: Extent, x: int, y: int): (r: Extent)
    ensures r.Some? && Contains(r.value, x, y)
    ensures e.Some? ==> Covers(r.value, e.value)
  {
    match e
    case None => Some(Box(x, y, x, y))
    case Some(b) => Some(Box(Min(b.minX, x), Min(b.minY, y), Max(b.maxX, x), Max(b.maxY, y)))
  }

  /** `extendXY` grows the extent no more than it must: any box covering the
      old extent and (x, y) covers the new one. */
  lemma ExtendXYLeast(e: Extent, x: int, y: int, b: Box)
    requires Contains(b, x, y) && (e.Some? ==> Covers(b, e.value))
    ensures Covers(b, ExtendXY(e, x, y).value)
  {
  }

  /** Extending twice by the same pair is the same as extending once. */
  lemma ExtendXYIdempotent(e: Extent, x: int, y: int)
    ensures ExtendXY(ExtendXY(e, x, y), x, y) == ExtendXY(e, x, y)
  {
  }

  /** The extent obtained by starting empty and extending by each pair in turn. */
  function ExtentOf(pts: seq<(int, int)>): Extent
    decreases |pts|
  {
    if pts == [] then None
    else
      var last := pts[|pts| - 1];
      ExtendXY(ExtentOf(pts[..|pts| - 1]), last.0, last.1)
  }

  /** Reference definition: `e` is the smallest box containing every pair of
      `pts`, and empty exactly when there are no pairs. */
  ghost predicate IsSmallestBox(e: Extent, pts: seq<(int, int)>)
  {
    if |pts| == 0 then e.None?
    else
      e.Some? &&
      (forall k :: 0 <= k < |pts| ==> Contains(e.value, pts[k].0, pts[k].1)) &&
      (exists k :: 0 <= k < |pts| && pts[k].0 == e.value.minX) &&
      (exists k :: 0 <= k < |pts| && pts[k].1 == e.value.minY) &&
      (exists k :: 0 <= k < |pts| && pts[k].0 == e.value.maxX) &&
      (exists k :: 0 <= k < |pts| && pts[k].1 == e.value.maxY)
  }

  /** Accumulating with `ExtendXY` yields exactly the smallest covering box. */
  lemma {:induction false} ExtentOfIsSmallestBox(pts: seq<(int, int)>)
    ensures IsSmallestBox(ExtentOf(pts), pts)
    decreases |pts|
  {
    if pts != [] {
      var n := |pts| - 1;
      var init := pts[..n];
      ExtentOfIsSmallestBox(init);
      var last := pts[n];
      var e := ExtentOf(init);
      var r := ExtendXY(e, last.0, last.1);
      assert ExtentOf(pts) == r;
      if n == 0 {
        assert pts[0] == last;
      } else {
        var b := e.value;
        var rb := r.value;
        forall k | 0 <= k < |pts|
          ensures Contains(rb, pts[k].0, pts[k].1)
        {
          if k < n { assert pts[k] == init[k]; }
        }
        var k1 :| 0 <= k1 < n && init[k1].0 == b.minX;
        var k2 :| 0 <= k2 < n && init[k2].1 == b.minY;
        var k3 :| 0 <= k3 < n && init[k3].0 == b.maxX;
        var k4 :| 0 <= k4 < n && init[k4].1 == b.maxY;
        assert pts[k1] == init[k1] && pts[k2] == init[k2];
        assert pts[k3] == init[k3] && pts[k4] == init[k4];
        assert pts[if rb.minX == b.minX then k1 else n].0 == rb.minX;
        assert pts[if rb.minY == b.minY then k2 else n].1 == rb.minY;
        assert pts[if rb.maxX == b.maxX then k3 else n].0 == rb.maxX;
        assert pts[if rb.maxY == b.maxY then k4 else n].1 == rb.maxY;
      }
    }
  }
}
