/** `ol.geom2.PointCollection`: points of a fixed dimension `dim` stored back
    to back in one packed buffer.  A point is addressed by the offset of its
    first coordinate, a multiple of `dim`; removed points leave holes that the
    buffer's live ranges skip, so whole-collection scans (`GetExtent`,
    `Unpack`) only ever see live points. */
module PointCollections {

  import opened Options
  import opened Extents
  import opened Buffers
  import opened Layout

  /** `pack`'s dimension: the explicit one, else the first point's length,
      else 2. */
  function PackDim(points: seq<seq<int>>, optDim: Option<nat>): nat
  {
    if optDim.Some? then optDim.value else if |points| > 0 then |points[0]| else 2
  }

  /** `pack`'s capacity: the explicit one, else room for exactly the points. */
  function PackCapacity(points: seq<seq<int>>, optCapacity: Option<nat>, optDim: Option<nat>): nat
  {
    if optCapacity.Some? then optCapacity.value else |points| * PackDim(points, optDim)
  }

  /** The offsets `get` accepts, as written: it demands `offset + dim` to be
      strictly below the array length, so the last point of a completely full
      array cannot be read (see `LastPointRejectedAsWritten`). */
  predicate GetAllowedAsWritten(length: nat, dim: nat, offset: int)
  {
    0 <= offset && offset + dim < length && dim > 0 && offset % dim == 0
  }

  /** The offsets at which a whole aligned point lies inside the array. */
  predicate GetAllowed(length: nat, dim: nat, offset: int)
  {
    0 <= offset && offset + dim <= length && dim > 0 && offset % dim == 0
  }

  class PointCollection {
    const buf: Buffer
    const dim: nat

    /** `new ol.geom2.PointCollection(buf, opt_dim)`: the dimension defaults to 2. */
    constructor (buf: Buffer, optDim: Option<nat>)
      ensures this.buf == buf
      ensures optDim.Some? ==> dim == optDim.value
      ensures optDim.None? ==> dim == 2
    {
      this.buf := buf;
      dim := if optDim.Some? then optDim.value else 2;
    }

    /** The collection's invariant: a valid buffer whose live ranges start and
        stop on multiples of a positive dimension. */
    ghost predicate Valid()
      reads buf
    {
      buf.Valid() && dim > 0 && AlignedRanges(buf.ranges, dim)
    }

    /** The offsets of the live points, in the order `forEachRange` visits them. */
    ghost function Offsets(): seq<nat>
      reads buf
      requires Valid()
    {
      LiveOffsets(buf.ranges, dim)
    }

    /** Every live point lies below the end of the live ranges, and live
        points do not overlap. */
    lemma OffsetsFit()
      requires Valid()
      ensures Fits(Offsets(), dim, buf.End()) && Fits(Offsets(), dim, buf.arr.Length)
      ensures Spread(Offsets(), dim)
    {
      LiveOffsetsBelow(buf.ranges, dim, buf.End());
      LiveOffsetsSorted(buf.ranges, dim);
    }

    /** The live points, in order. */
    ghost function Points(): seq<seq<int>>
      reads buf, buf.arr
      requires Valid()
    {
      OffsetsFit();
      Unpacked(buf.arr[..], Offsets(), dim)
    }

    /** Coordinates 0 and 1 of every live point, in order. */
    ghost function XYPairs(): seq<(int, int)>
      reads buf, buf.arr
      requires Valid() && dim >= 2
    {
      OffsetsFit();
      XYs(buf.arr[..], Offsets())
    }

    /** There are exactly `count / dim` live points. */
    lemma OffsetsCount()
      requires Valid()
      ensures |Offsets()| == buf.count / dim
      ensures buf.count == 0 <==> |Offsets()| == 0
    {
      LiveOffsetsCountDiv(buf.ranges, dim, buf.count);
    }

    /** `add(point)`: append a point of the collection's dimension and return
        its offset. */
    method Add(point: seq<int>) returns (offset: nat)
      requires Valid() && |point| == dim
      modifies buf, buf.arr
      ensures Valid()
      ensures buf.arr == old(buf.arr) || fresh(buf.arr)
      ensures old(buf.End()) + dim <= old(buf.arr.Length) ==> buf.arr == old(buf.arr)
      ensures offset == old(buf.End())
      ensures buf.count == old(buf.count) + dim
      ensures buf.ranges == ExtendLast(old(buf.ranges), dim)
      ensures Offsets() == old(Offsets()) + [offset]
      ensures Points() == old(Points()) + [point]
      ensures GetAllowed(buf.arr.Length, dim, offset)
      ensures buf.arr[offset..offset + dim] == point
    {
      ghost var oldOffsets, oldArr := Offsets(), buf.arr[..];
      OffsetsFit();
      LiveOffsetsExtendLast(buf.ranges, dim);
      assert Aligned(buf.ranges[|buf.ranges| - 1].start, buf.End(), dim);
      MultipleOfMod(buf.End(), dim);
      offset := buf.Add(point);
      assert Offsets() == oldOffsets + [offset];
      UnpackedFrame(buf.arr[..], oldArr, oldOffsets, dim, offset);
      UnpackedSnoc(buf.arr[..], oldOffsets, offset, dim);
      assert buf.arr[..][offset..offset + dim] == point;
    }

    /** `get(offset)`, as written: a copy of the `dim` coordinates at `offset`.
        Its bounds check is strict, so it refuses the last point of a full
        array; `GetInclusive` is the intended check. */
    method Get(offset: int) returns (p: seq<int>)
      requires GetAllowedAsWritten(buf.arr.Length, dim, offset)
      ensures |p| == dim
      ensures forall j :: 0 <= j < dim ==> p[j] == buf.arr[offset + j]
    {
      p := buf.arr[offset..offset + dim];
    }

    /** `get(offset)` with the bounds check it evidently intends: every whole
        aligned point inside the array can be read. */
    method GetInclusive(offset: int) returns (p: seq<int>)
      requires GetAllowed(buf.arr.Length, dim, offset)
      ensures |p| == dim
      ensures forall j :: 0 <= j < dim ==> p[j] == buf.arr[offset + j]
    {
      p := buf.arr[offset..offset + dim];
    }

    /** `set(offset, point)`: overwrite the coordinates at `offset`; the live
        offsets stay the same, and overwriting a live point with one of the
        collection's dimension replaces just that point. */
    method Set(offset: nat, point: seq<int>)
      requires Valid() && offset + |point| <= buf.arr.Length
      modifies buf.arr
      ensures Valid() && Offsets() == old(Offsets())
      ensures buf.arr[..] == old(buf.arr[..offset]) + point + old(buf.arr[offset + |point|..])
      ensures forall j :: 0 <= j < |Offsets()| && Offsets()[j] == offset && |point| == dim ==>
                Points() == old(Points())[j := point]
    {
      ghost var before := buf.arr[..];
      OffsetsFit();
      buf.Set(point, offset);
      UnpackedSplice(before, buf.arr[..], Offsets(), dim, offset, point);
    }

    /** `remove(offset)`: the live point at `offset` becomes a hole of width
        `dim`; it drops out of the live offsets and points, the count falls by
        `dim`, and the raw array is untouched. */
    method Remove(offset: nat)
      requires Valid() && offset in Offsets()
      modifies buf
      ensures Valid() && buf.arr == old(buf.arr)
      ensures buf.count == old(buf.count) - dim
      ensures offset !in Offsets()
      ensures exists j :: 0 <= j < |old(Offsets())| && old(Offsets())[j] == offset &&
                Offsets() == old(Offsets())[..j] + old(Offsets())[j + 1..] &&
                Points() == old(Points())[..j] + old(Points())[j + 1..]
    {
      ghost var oldRanges := buf.ranges;
      OffsetsFit();
      LiveOffsetInRange(buf.ranges, dim, offset);
      ghost var k := buf.Remove(dim, offset);
      ghost var j := RemoveLive(oldRanges, k, offset, dim, buf.arr[..]);
    }

    /** `unpack()`: the live points, read range by range in strides of `dim`;
        exactly `count / dim` of them. */
    method Unpack() returns (points: seq<seq<int>>)
      requires Valid()
      ensures points == Points()
      ensures |points| == buf.count / dim
    {
      OffsetsCount();
      OffsetsFit();
      points := UnpackRanges(buf.arr, buf.ranges, dim, buf.count / dim, Offsets());
    }

    /** `getExtent()`: the smallest box containing coordinates 0 and 1 of every
        live point, or the empty extent when no point is live. */
    method GetExtent() returns (extent: Extent)
      requires Valid() && dim >= 2
      ensures extent == ExtentOf(XYPairs())
      ensures IsSmallestBox(extent, XYPairs())
      ensures extent.None? <==> buf.count == 0
    {
      OffsetsFit();
      extent := ExtentOfRanges(buf.arr, buf.ranges, dim, Offsets());
      ExtentUpToIsExtentOf(buf.arr[..], Offsets(), |Offsets()|);
      assert XYPairs()[..|Offsets()|] == XYPairs();
      ExtentOfIsSmallestBox(XYPairs());
      OffsetsCount();
    }
  }

  /** The body of `unpack`: visit the live ranges in order, copying each
      point into an array of `n` points; `n` is exactly the number of live
      points, so every slot gets filled. */
  method UnpackRanges(bufArr: array<int>, ranges: seq<Range>, dim: nat, n: nat, ghost offs: seq<nat>)
    returns (points: seq<seq<int>>)
    requires dim > 0 && offs == LiveOffsets(ranges, dim) && Fits(offs, dim, bufArr.Length) && n == |offs|
    ensures points == Unpacked(bufArr[..], offs, dim)
  {
    ghost var a := bufArr[..];
    var pts := new seq<int>[n];
    var pointsIndex: nat := 0;
    var k := 0;
    while k < |ranges|
      invariant 0 <= k <= |ranges| && pointsIndex <= n
      invariant offs[pointsIndex..] == LiveOffsets(ranges[k..], dim)
      invariant forall m :: 0 <= m < pointsIndex ==> pts[m] == a[offs[m]..offs[m] + dim]
    {
      LiveOffsetsHead(ranges, k, dim);
      pointsIndex := UnpackRange(bufArr, ranges[k].start, ranges[k].stop, dim, pts, pointsIndex,
                                 a, offs, LiveOffsets(ranges[k + 1..], dim));
      k := k + 1;
    }
    assert ranges[k..] == [];
    assert pointsIndex == n;
    points := pts[..];
  }

  /** The body of `getExtent`: visit the live ranges in order, extending an
      initially empty extent by every live point. */
  method ExtentOfRanges(bufArr: array<int>, ranges: seq<Range>, dim: nat, ghost offs: seq<nat>)
    returns (extent: Extent)
    requires dim >= 2 && offs == LiveOffsets(ranges, dim) && Fits(offs, dim, bufArr.Length)
    ensures Fits(offs, 2, bufArr.Length)
    ensures extent == ExtentUpTo(bufArr[..], offs, |offs|)
  {
    ghost var a := bufArr[..];
    assert Fits(offs, 2, |a|);
    extent := None;
    ghost var seen: nat := 0;
    var k := 0;
    while k < |ranges|
      invariant 0 <= k <= |ranges| && seen <= |offs|
      invariant offs[seen..] == LiveOffsets(ranges[k..], dim)
      invariant extent == ExtentUpTo(a, offs, seen)
    {
      LiveOffsetsHead(ranges, k, dim);
      ghost var rest := LiveOffsets(ranges[k + 1..], dim);
      extent := ExtendByRange(bufArr, ranges[k].start, ranges[k].stop, dim, extent, a, offs, seen, rest);
      seen := |offs| - |rest|;
      k := k + 1;
    }
    assert ranges[k..] == [];
  }

  /** The `forEachRange` callback of `unpack`: copy each point of the live
      range `[start, stop)` into `pts`, from `pointsIndex` on, and return the
      index after the last one written. The range's offsets are the ones of
      `offs` from `pointsIndex` on, up to `rest`. */
  method UnpackRange(bufArr: array<int>, start: nat, stop: nat, dim: nat,
                     pts: array<seq<int>>, pointsIndex: nat,
                     ghost a: seq<int>, ghost offs: seq<nat>, ghost rest: seq<nat>) returns (next: nat)
    requires a == bufArr[..] && dim > 0 && Fits(offs, dim, |a|) && |offs| <= pts.Length
    requires pointsIndex <= |offs| && offs[pointsIndex..] == StrideOffsets(start, stop, dim) + rest
    modifies pts
    ensures pointsIndex <= next <= |offs| && offs[next..] == rest
    ensures forall m :: 0 <= m < pointsIndex ==> pts[m] == old(pts[m])
    ensures forall m :: pointsIndex <= m < next ==> pts[m] == a[offs[m]..offs[m] + dim]
  {
    next := pointsIndex;
    var i := start;
    while i < stop
      invariant pointsIndex <= next <= |offs|
      invariant offs[next..] == StrideOffsets(i, stop, dim) + rest
      invariant forall m :: 0 <= m < pointsIndex ==> pts[m] == old(pts[m])
      invariant forall m :: pointsIndex <= m < next ==> pts[m] == a[offs[m]..offs[m] + dim]
      decreases stop - i
    {
      StrideHead(offs, next, i, stop, dim, rest);
      pts[next] := bufArr[i..i + dim];
      next := next + 1;
      i := i + dim;
    }
  }

  /** The `forEachRange` callback of `getExtent`: extend `extent`, the extent
      of the points at the first `seen` offsets of `offs`, by coordinates 0 and
      1 of each point of the live range `[start, stop)`, whose offsets come
      next in `offs`, up to `rest`. */
  method ExtendByRange(bufArr: array<int>, start: nat, stop: nat, dim: nat, extent: Extent,
                       ghost a: seq<int>, ghost offs: seq<nat>, ghost seen: nat, ghost rest: seq<nat>)
    returns (r: Extent)
    requires a == bufArr[..] && dim >= 2 && Fits(offs, 2, |a|)
    requires seen <= |offs| && offs[seen..] == StrideOffsets(start, stop, dim) + rest
    requires extent == ExtentUpTo(a, offs, seen)
    ensures |rest| <= |offs| && offs[|offs| - |rest|..] == rest
    ensures r == ExtentUpTo(a, offs, |offs| - |rest|)
  {
    ghost var cur: nat := seen;
    r := extent;
    var i := start;
    while i < stop
      invariant seen <= cur <= |offs| && offs[cur..] == StrideOffsets(i, stop, dim) + rest
      invariant r == ExtentUpTo(a, offs, cur)
      decreases stop - i
    {
      StrideHead(offs, cur, i, stop, dim, rest);
      r := ExtendXY(r, bufArr[i], bufArr[i + 1]);
      cur := cur + 1;
      i := i + dim;
    }
    assert |offs| - |rest| == cur;
  }

  /** The extent of the points at the first `n` offsets of `offs`, extended
      one offset at a time, as the scan of `getExtent` does. */
  ghost function ExtentUpTo(a: seq<int>, offs: seq<nat>, n: nat): Extent
    requires Fits(offs, 2, |a|) && n <= |offs|
  {
    if n == 0 then None
    else ExtendXY(ExtentUpTo(a, offs, n - 1), a[offs[n - 1]], a[offs[n - 1] + 1])
  }

  /** Scanning the first `n` offsets yields the extent of their pairs. */
  lemma {:induction false} ExtentUpToIsExtentOf(a: seq<int>, offs: seq<nat>, n: nat)
    requires Fits(offs, 2, |a|) && n <= |offs|
    ensures ExtentUpTo(a, offs, n) == ExtentOf(XYs(a, offs)[..n])
  {
    if n > 0 {
      ExtentUpToIsExtentOf(a, offs, n - 1);
      assert XYs(a, offs)[..n][..n - 1] == XYs(a, offs)[..n - 1];
    }
  }

  /** `PointCollection.pack(points, opt_capacity, opt_dim)`: lay the points out
      back to back in a fresh array of the resolved capacity, and wrap it in a
      buffer whose first `n * dim` elements are live. */
  method Pack(points: seq<seq<int>>, optCapacity: Option<nat>, optDim: Option<nat>)
    returns (c: PointCollection)
    requires PackCapacity(points, optCapacity, optDim) >= |points| * PackDim(points, optDim)
    requires forall i :: 0 <= i < |points| ==> |points[i]| == PackDim(points, optDim)
    ensures fresh(c) && fresh(c.buf) && fresh(c.buf.arr)
    ensures c.dim == PackDim(points, optDim)
    ensures c.buf.Valid()
    ensures c.buf.arr.Length == PackCapacity(points, optCapacity, optDim)
    ensures c.buf.count == |points| * c.dim
    ensures c.buf.ranges == [Range(0, |points| * c.dim)]
    ensures c.buf.arr[..|points| * c.dim] == Flatten(points)
    ensures c.dim > 0 ==> c.Valid() && c.Points() == points
  {
    var n := |points|;
    var dim := PackDim(points, optDim);
    var arr := PackArray(points, dim, PackCapacity(points, optCapacity, optDim));
    var buf := new Buffer(arr, n * dim);
    c := new PointCollection(buf, Some(dim));
    if dim > 0 {
      UnpackFlatten(arr[..], points, dim);
    }
  }

  /** The layout loop of `pack`: copy the coordinates of each point, in order,
      into a fresh array of `capacity` elements; exactly `n * dim` of them get
      written. */
  method PackArray(points: seq<seq<int>>, dim: nat, capacity: nat) returns (arr: array<int>)
    requires capacity >= |points| * dim
    requires forall i :: 0 <= i < |points| ==> |points[i]| == dim
    ensures fresh(arr) && arr.Length == capacity
    ensures arr[..|points| * dim] == Flatten(points)
  {
    var n := |points|;
    arr := new int[capacity];
    var arrIndex := 0;
    var i := 0;
    while i < n
      invariant 0 <= i <= n
      invariant arrIndex == i * dim
      invariant arr[..arrIndex] == Flatten(points[..i])
    {
      var point := points[i];
      MulLe(i + 1, n, dim);
      Distribute(i, 1, dim);
      ghost var base := arrIndex;
      ghost var done := Flatten(points[..i]);
      assert base + dim <= capacity;
      var j := 0;
      while j < dim
        invariant 0 <= j <= dim && arrIndex == base + j
        invariant arr[..arrIndex] == done + point[..j]
      {
        arr[arrIndex] := point[j];
        assert arr[..arrIndex + 1] == arr[..arrIndex] + [point[j]];
        assert point[..j + 1] == point[..j] + [point[j]];
        arrIndex := arrIndex + 1;
        j := j + 1;
      }
      assert points[..i + 1][..i] == points[..i];
      assert point[..dim] == point;
      i := i + 1;
    }
    assert points[..n] == points;
    assert arrIndex == n * dim;
  }

  /** `unpack(pack(points))` gives the points back when they share one
      positive dimension. */
  method PackThenUnpack(points: seq<seq<int>>, optCapacity: Option<nat>, optDim: Option<nat>)
    returns (unpacked: seq<seq<int>>)
    requires PackDim(points, optDim) > 0
    requires PackCapacity(points, optCapacity, optDim) >= |points| * PackDim(points, optDim)
    requires forall i :: 0 <= i < |points| ==> |points[i]| == PackDim(points, optDim)
    ensures unpacked == points
  {
    var c := Pack(points, optCapacity, optDim);
    unpacked := c.Unpack();
  }

  /** Reading back a point just added gives that point, with `get`'s intended
      bounds check. */
  method AddThenGet(c: PointCollection, point: seq<int>) returns (offset: nat, p: seq<int>)
    requires c.Valid() && |point| == c.dim
    modifies c.buf, c.buf.arr
    ensures c.buf.arr == old(c.buf.arr) || fresh(c.buf.arr)
    ensures c.Valid() && offset in c.Offsets()
    ensures p == point
  {
    offset := c.Add(point);
    p := c.GetInclusive(offset);
  }

  /** In a completely full array, the last point is live and lies wholly
      inside the array, yet `get` as written refuses its offset. */
  lemma LastPointRejectedAsWritten(n: nat, dim: nat)
    requires n > 0 && dim > 0
    ensures (n - 1) * dim in LiveOffsets([Range(0, n * dim)], dim)
    ensures GetAllowed(n * dim, dim, (n - 1) * dim)
    ensures !GetAllowedAsWritten(n * dim, dim, (n - 1) * dim)
  {
    LiveOffsetsOne(Range(0, n * dim), dim);
    StrideOffsetsOfProduct(n, dim);
    StrideOffsetsAt(0, n * dim, dim, n - 1);
    MultipleOfProduct(n - 1, dim);
    MultipleOfMod((n - 1) * dim, dim);
    Distribute(n - 1, 1, dim);
  }

  /** With the intended check, every live point of a valid collection can be
      read. */
  lemma LivePointsReadable(c: PointCollection)
    requires c.Valid()
    ensures forall m :: 0 <= m < |c.Offsets()| ==> GetAllowed(c.buf.arr.Length, c.dim, c.Offsets()[m])
  {
    c.OffsetsFit();
    LiveOffsetsInRanges(c.buf.ranges, c.dim);
    forall m | 0 <= m < |c.Offsets()|
      ensures GetAllowed(c.buf.arr.Length, c.dim, c.Offsets()[m])
    {
      MultipleOfMod(c.Offsets()[m], c.dim);
    }
  }
}
