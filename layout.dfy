/** The stride arithmetic of a point collection: which offsets of the raw
    array start a live point, how an array of points is laid out back to back,
    and how points and (x, y) pairs are read back out.  A point is a sequence
    of coordinates (`ol.geom2.Point`); coordinates are integers here. */
module Layout {

  import opened Buffers

  lemma Distribute(x: int, y: int, d: int)
    ensures (x + y) * d == x * d + y * d
  {
  }

  /** Multiplying by a natural number preserves order. */
  lemma MulLe(x: nat, y: nat, d: nat)
    requires x <= y
    ensures x * d <= y * d
  {
    if x < y {
      MulAtLeast(d, y - x);
    }
  }

  /** A positive multiple of `d` is at least `d`. */
  lemma {:induction false} MulAtLeast(d: nat, x: nat)
    requires x >= 1
    ensures d * x >= d
  {
    if x > 1 {
      MulAtLeast(d, x - 1);
      assert d * x == d * (x - 1) + d;
    }
  }

  /** Euclidean division has a unique quotient and remainder. */
  lemma DivModUnique(a: nat, d: nat, q: int, r: int)
    requires d > 0 && 0 <= r < d && a == d * q + r
    ensures a / d == q && a % d == r
  {
    var q0, r0 := a / d, a % d;
    assert d * q + r == d * q0 + r0;
    if q > q0 {
      MulAtLeast(d, q - q0);
      assert false;
    } else if q < q0 {
      MulAtLeast(d, q0 - q);
      assert false;
    }
  }

  /** A count of `n` blocks of `d` elements divides back into `n` blocks. */
  lemma ExactQuotient(n: nat, d: nat, count: nat)
    requires d > 0 && n * d == count
    ensures n == count / d
    ensures count == 0 <==> n == 0
  {
    DivModUnique(count, d, n, 0);
    if n > 0 {
      MulAtLeast(d, n);
    }
  }

  /** `x` is a multiple of `d`, counted off in steps of `d`. */
  predicate MultipleOf(x: nat, d: nat)
    requires d > 0
    decreases x
  {
    x == 0 || (d <= x && MultipleOf(x - d, d))
  }

  /** `MultipleOf` is the source's `x % d === 0`. */
  lemma {:induction false} MultipleOfMod(x: nat, d: nat)
    requires d > 0
    ensures MultipleOf(x, d) <==> x % d == 0
    decreases x
  {
    if x >= d {
      MultipleOfMod(x - d, d);
      DivModUnique(x, d, (x - d) / d + 1, (x - d) % d);
    } else {
      DivModUnique(x, d, 0, x);
    }
  }

  /** Two distinct multiples of `d` are at least `d` apart. */
  lemma {:induction false} AlignedGap(a: nat, b: nat, d: nat)
    requires d > 0 && MultipleOf(a, d) && MultipleOf(b, d) && a < b
    ensures a + d <= b
    decreases a
  {
    if a != 0 {
      AlignedGap(a - d, b - d, d);
    }
  }

  /** The offsets the loop `for (i = start; i < stop; i += dim)` visits. */
  function StrideOffsets(start: nat, stop: nat, dim: nat): (r: seq<nat>)
    requires dim > 0
    ensures |r| > 0 <==> start < stop
    ensures |r| > 0 ==> r[0] == start
    ensures forall m :: 0 <= m < |r| ==> start <= r[m] < stop
    decreases stop - start
  {
    if start < stop then [start] + StrideOffsets(start + dim, stop, dim) else []
  }

  predicate Aligned(start: nat, stop: nat, dim: nat)
  {
    dim > 0 && MultipleOf(start, dim) && MultipleOf(stop, dim) && start <= stop
  }

  /** Between two multiples of `dim` there are exactly `(stop - start) / dim`
      points. */
  lemma {:induction false} StrideOffsetsCount(start: nat, stop: nat, dim: nat)
    requires Aligned(start, stop, dim)
    ensures |StrideOffsets(start, stop, dim)| * dim == stop - start
    decreases stop - start
  {
    if start < stop {
      AlignedGap(start, stop, dim);
      StrideOffsetsCount(start + dim, stop, dim);
      var n := |StrideOffsets(start + dim, stop, dim)|;
      assert (n + 1) * dim == n * dim + dim;
    }
  }

  /** Between two multiples of `dim`, the whole point at every visited offset
      fits below `stop`. */
  lemma {:induction false} StrideOffsetsFit(start: nat, stop: nat, dim: nat)
    requires Aligned(start, stop, dim)
    ensures forall m :: 0 <= m < |StrideOffsets(start, stop, dim)| ==>
              StrideOffsets(start, stop, dim)[m] + dim <= stop
    decreases stop - start
  {
    if start < stop {
      AlignedGap(start, stop, dim);
      assert MultipleOf(start + dim, dim);
      StrideOffsetsFit(start + dim, stop, dim);
      var r, r' := StrideOffsets(start, stop, dim), StrideOffsets(start + dim, stop, dim);
      assert r == [start] + r';
      forall m | 0 < m < |r|
        ensures r[m] + dim <= stop
      {
        assert r[m] == r'[m - 1];
      }
    }
  }

  /** Starting from a multiple of `dim`, every visited offset is one. */
  lemma {:induction false} StrideOffsetsMultiples(start: nat, stop: nat, dim: nat)
    requires dim > 0 && MultipleOf(start, dim)
    ensures forall m :: 0 <= m < |StrideOffsets(start, stop, dim)| ==>
              MultipleOf(StrideOffsets(start, stop, dim)[m], dim)
    decreases stop - start
  {
    if start < stop {
      assert MultipleOf(start + dim, dim);
      StrideOffsetsMultiples(start + dim, stop, dim);
      var r, r' := StrideOffsets(start, stop, dim), StrideOffsets(start + dim, stop, dim);
      assert r == [start] + r';
      forall m | 0 < m < |r|
        ensures MultipleOf(r[m], dim)
      {
        assert r[m] == r'[m - 1];
      }
    }
  }

  /** The `m`-th visited offset is `start + m * dim`. */
  lemma {:induction false} StrideOffsetsAt(start: nat, stop: nat, dim: nat, m: nat)
    requires dim > 0 && m < |StrideOffsets(start, stop, dim)|
    ensures StrideOffsets(start, stop, dim)[m] == start + m * dim
    decreases m
  {
    if m > 0 {
      StrideOffsetsAt(start + dim, stop, dim, m - 1);
      assert dim + (m - 1) * dim == m * dim;
    }
  }

  /** Splitting the stride walk at an aligned offset `x` inside it. */
  lemma {:induction false} StrideOffsetsSplit(start: nat, x: nat, stop: nat, dim: nat)
    requires Aligned(start, x, dim) && Aligned(x, stop, dim) && x < stop
    ensures StrideOffsets(start, stop, dim) ==
            StrideOffsets(start, x, dim) + [x] + StrideOffsets(x + dim, stop, dim)
    decreases x - start
  {
    if start < x {
      AlignedGap(start, x, dim);
      StrideOffsetsSplit(start + dim, x, stop, dim);
    }
  }

  /** Growing an aligned walk by one point adds that point's offset at the end. */
  lemma {:induction false} StrideOffsetsSnoc(start: nat, stop: nat, dim: nat)
    requires Aligned(start, stop, dim)
    ensures StrideOffsets(start, stop + dim, dim) == StrideOffsets(start, stop, dim) + [stop]
    decreases stop - start
  {
    if start < stop {
      AlignedGap(start, stop, dim);
      StrideOffsetsSnoc(start + dim, stop, dim);
    }
  }

  /** The offsets of all live points, range by range, in range order. */
  function LiveOffsets(rs: seq<Range>, dim: nat): seq<nat>
    requires dim > 0
  {
    if rs == [] then [] else StrideOffsets(rs[0].start, rs[0].stop, dim) + LiveOffsets(rs[1..], dim)
  }

  /** Every range starts and stops on a multiple of `dim`. */
  ghost predicate AlignedRanges(rs: seq<Range>, dim: nat)
  {
    forall k :: 0 <= k < |rs| ==> Aligned(rs[k].start, rs[k].stop, dim)
  }

  lemma {:induction false} LiveOffsetsConcat(a: seq<Range>, b: seq<Range>, dim: nat)
    requires dim > 0
    ensures LiveOffsets(a + b, dim) == LiveOffsets(a, dim) + LiveOffsets(b, dim)
  {
    if a == [] {
      assert a + b == b;
    } else {
      assert (a + b)[0] == a[0];
      assert (a + b)[1..] == a[1..] + b;
      LiveOffsetsConcat(a[1..], b, dim);
    }
  }

  lemma LiveOffsetsOne(r: Range, dim: nat)
    requires dim > 0
    ensures LiveOffsets([r], dim) == StrideOffsets(r.start, r.stop, dim)
  {
    assert [r][1..] == [];
  }

  lemma LiveOffsetsThree(a: seq<Range>, b: seq<Range>, c: seq<Range>, dim: nat)
    requires dim > 0
    ensures LiveOffsets(a + b + c, dim) == LiveOffsets(a, dim) + LiveOffsets(b, dim) + LiveOffsets(c, dim)
  {
    LiveOffsetsConcat(a, b, dim);
    LiveOffsetsConcat(a + b, c, dim);
  }

  /** With aligned ranges there are exactly `SumLengths(rs) / dim` live points. */
  lemma {:induction false} LiveOffsetsCount(rs: seq<Range>, dim: nat)
    requires dim > 0 && AlignedRanges(rs, dim)
    ensures |LiveOffsets(rs, dim)| * dim == SumLengths(rs)
  {
    if rs != [] {
      StrideOffsetsCount(rs[0].start, rs[0].stop, dim);
      LiveOffsetsCount(rs[1..], dim);
      var x, y := |StrideOffsets(rs[0].start, rs[0].stop, dim)|, |LiveOffsets(rs[1..], dim)|;
      assert |LiveOffsets(rs, dim)| == x + y;
      Distribute(x, y, dim);
    }
  }

  /** `count / dim` is exactly the number of live points, and there are none
      exactly when the count is zero. */
  lemma LiveOffsetsCountDiv(rs: seq<Range>, dim: nat, count: nat)
    requires dim > 0 && AlignedRanges(rs, dim) && SumLengths(rs) == count
    ensures |LiveOffsets(rs, dim)| == count / dim
    ensures count == 0 <==> |LiveOffsets(rs, dim)| == 0
  {
    LiveOffsetsCount(rs, dim);
    ExactQuotient(|LiveOffsets(rs, dim)|, dim, count);
  }

  /** The point of `dim` elements at `x` lies inside one of the ranges. */
  ghost predicate InSomeRange(rs: seq<Range>, x: nat, dim: nat)
  {
    exists k :: 0 <= k < |rs| && rs[k].start <= x && x + dim <= rs[k].stop
  }

  /** Every live offset is a multiple of `dim`, and its whole point lies inside
      one live range. */
  lemma {:induction false} LiveOffsetsInRanges(rs: seq<Range>, dim: nat)
    requires dim > 0 && AlignedRanges(rs, dim)
    ensures forall m :: 0 <= m < |LiveOffsets(rs, dim)| ==>
              MultipleOf(LiveOffsets(rs, dim)[m], dim) && InSomeRange(rs, LiveOffsets(rs, dim)[m], dim)
  {
    if rs != [] {
      var a := StrideOffsets(rs[0].start, rs[0].stop, dim);
      var b := LiveOffsets(rs[1..], dim);
      StrideOffsetsFit(rs[0].start, rs[0].stop, dim);
      StrideOffsetsMultiples(rs[0].start, rs[0].stop, dim);
      LiveOffsetsInRanges(rs[1..], dim);
      assert LiveOffsets(rs, dim) == a + b;
      forall m | 0 <= m < |a + b|
        ensures MultipleOf((a + b)[m], dim) && InSomeRange(rs, (a + b)[m], dim)
      {
        if m < |a| {
          assert (a + b)[m] == a[m];
          assert rs[0].start <= a[m] && a[m] + dim <= rs[0].stop;
        } else {
          assert (a + b)[m] == b[m - |a|];
          assert InSomeRange(rs[1..], b[m - |a|], dim);
          var k :| 0 <= k < |rs[1..]| && rs[1..][k].start <= b[m - |a|] && b[m - |a|] + dim <= rs[1..][k].stop;
          assert rs[k + 1] == rs[1..][k];
        }
      }
    }
  }

  /** Every live point ends at or before `bound` when every range does. */
  lemma LiveOffsetsBelow(rs: seq<Range>, dim: nat, bound: nat)
    requires dim > 0 && AlignedRanges(rs, dim)
    requires forall k :: 0 <= k < |rs| ==> rs[k].stop <= bound
    ensures forall m :: 0 <= m < |LiveOffsets(rs, dim)| ==> LiveOffsets(rs, dim)[m] + dim <= bound
  {
    LiveOffsetsInRanges(rs, dim);
    forall m | 0 <= m < |LiveOffsets(rs, dim)|
      ensures LiveOffsets(rs, dim)[m] + dim <= bound
    {
      assert InSomeRange(rs, LiveOffsets(rs, dim)[m], dim);
    }
  }

  /** The offsets of one stride walk are strictly increasing, `dim` apart. */
  lemma {:induction false} StrideOffsetsSorted(start: nat, stop: nat, dim: nat)
    requires dim > 0
    ensures Spread(StrideOffsets(start, stop, dim), dim)
    decreases stop - start
  {
    if start < stop {
      StrideOffsetsSorted(start + dim, stop, dim);
      var r, r' := StrideOffsets(start, stop, dim), StrideOffsets(start + dim, stop, dim);
      assert r == [start] + r';
      forall i, j | 0 <= i < j < |r|
        ensures r[i] + dim <= r[j]
      {
        assert r[j] == r'[j - 1];
        if i > 0 {
          assert r[i] == r'[i - 1];
        }
      }
    }
  }

  /** Every live offset is at least `lo` when every range starts there or
      later. */
  lemma LiveOffsetsFrom(rs: seq<Range>, dim: nat, lo: nat)
    requires dim > 0 && AlignedRanges(rs, dim)
    requires forall k :: 0 <= k < |rs| ==> lo <= rs[k].start
    ensures forall m :: 0 <= m < |LiveOffsets(rs, dim)| ==> lo <= LiveOffsets(rs, dim)[m]
  {
    LiveOffsetsInRanges(rs, dim);
    forall m | 0 <= m < |LiveOffsets(rs, dim)|
      ensures lo <= LiveOffsets(rs, dim)[m]
    {
      assert InSomeRange(rs, LiveOffsets(rs, dim)[m], dim);
    }
  }

  /** Two runs of non-overlapping points, the second wholly after the first,
      make one run of non-overlapping points. */
  lemma SpreadConcat(a: seq<nat>, b: seq<nat>, dim: nat)
    requires Spread(a, dim) && Spread(b, dim)
    requires forall i, j :: 0 <= i < |a| && 0 <= j < |b| ==> a[i] + dim <= b[j]
    ensures Spread(a + b, dim)
  {
    forall i, j | 0 <= i < j < |a + b|
      ensures (a + b)[i] + dim <= (a + b)[j]
    {
      if j < |a| {
        assert (a + b)[i] == a[i] && (a + b)[j] == a[j];
      } else if i >= |a| {
        assert (a + b)[i] == b[i - |a|] && (a + b)[j] == b[j - |a|];
      } else {
        assert (a + b)[i] == a[i] && (a + b)[j] == b[j - |a|];
      }
    }
  }

  /** Live points never overlap: in range order, each live offset is at least
      `dim` past the one before it. */
  lemma {:induction false} LiveOffsetsSorted(rs: seq<Range>, dim: nat)
    requires dim > 0 && SortedRanges(rs) && AlignedRanges(rs, dim)
    ensures Spread(LiveOffsets(rs, dim), dim)
  {
    if rs != [] {
      var r := rs[0];
      var a := StrideOffsets(r.start, r.stop, dim);
      var b := LiveOffsets(rs[1..], dim);
      assert LiveOffsets(rs, dim) == a + b;
      StrideOffsetsSorted(r.start, r.stop, dim);
      StrideOffsetsFit(r.start, r.stop, dim);
      assert forall k :: 0 <= k < |rs| - 1 ==> rs[1..][k] == rs[k + 1];
      LiveOffsetsSorted(rs[1..], dim);
      LiveOffsetsFrom(rs[1..], dim, r.stop);
      SpreadConcat(a, b, dim);
    }
  }

  /** A product `n * d` is a multiple of `d`. */
  lemma {:induction false} MultipleOfProduct(n: nat, d: nat)
    requires d > 0
    ensures MultipleOf(n * d, d)
  {
    if n > 0 {
      MultipleOfProduct(n - 1, d);
      assert n * d - d == (n - 1) * d;
    }
  }

  /** Multiplication by a positive number is injective. */
  lemma MulCancel(x: nat, y: nat, d: nat)
    requires d > 0 && x * d == y * d
    ensures x == y
  {
    if x > y {
      MulAtLeast(d, x - y);
      assert false;
    } else if x < y {
      MulAtLeast(d, y - x);
      assert false;
    }
  }

  /** `pack`'s layout: the points' coordinates back to back, in order. */
  function Flatten(ps: seq<seq<int>>): seq<int>
  {
    if ps == [] then [] else Flatten(ps[..|ps| - 1]) + ps[|ps| - 1]
  }

  /** Every point has exactly `dim` coordinates. */
  ghost predicate AllOfLength(ps: seq<seq<int>>, dim: nat)
  {
    forall i :: 0 <= i < |ps| ==> |ps[i]| == dim
  }

  lemma {:induction false} FlattenLength(ps: seq<seq<int>>, dim: nat)
    requires AllOfLength(ps, dim)
    ensures |Flatten(ps)| == |ps| * dim
  {
    if ps != [] {
      FlattenLength(ps[..|ps| - 1], dim);
      Distribute(|ps| - 1, 1, dim);
    }
  }

  /** A slice inside the left operand of a concatenation. */
  lemma ConcatSliceLeft(A: seq<int>, B: seq<int>, o: nat, d: nat)
    requires o + d <= |A|
    ensures (A + B)[o..o + d] == A[o..o + d]
  {
  }

  /** The right operand of a concatenation, sliced back out. */
  lemma ConcatSliceRight(A: seq<int>, B: seq<int>)
    ensures (A + B)[|A|..|A| + |B|] == B
  {
  }

  /** Point `m` occupies elements `[m * dim, m * dim + dim)` of the layout. */
  lemma {:induction false} FlattenSlice(ps: seq<seq<int>>, dim: nat, m: nat)
    requires AllOfLength(ps, dim) && m < |ps|
    ensures m * dim + dim <= |Flatten(ps)|
    ensures Flatten(ps)[m * dim..m * dim + dim] == ps[m]
  {
    var n := |ps| - 1;
    var init := ps[..n];
    assert Flatten(ps) == Flatten(init) + ps[n];
    if m < n {
      FlattenSlice(init, dim, m);
      assert init[m] == ps[m];
      ConcatSliceLeft(Flatten(init), ps[n], m * dim, dim);
    } else {
      FlattenLength(init, dim);
      ConcatSliceRight(Flatten(init), ps[n]);
    }
  }

  /** The points stored at the given offsets, each `dim` elements long. */
  function Unpacked(a: seq<int>, offs: seq<nat>, dim: nat): seq<seq<int>>
    requires forall m :: 0 <= m < |offs| ==> offs[m] + dim <= |a|
  {
    seq(|offs|, m requires 0 <= m < |offs| => a[offs[m]..offs[m] + dim])
  }

  /** Coordinates 0 and 1 of the points stored at the given offsets. */
  function XYs(a: seq<int>, offs: seq<nat>): seq<(int, int)>
    requires forall m :: 0 <= m < |offs| ==> offs[m] + 1 < |a|
  {
    seq(|offs|, m requires 0 <= m < |offs| => (a[offs[m]], a[offs[m] + 1]))
  }

  /** The `m`-th stride of the layout of `ps` is `ps[m]`. */
  lemma UnpackFlattenAt(a: seq<int>, ps: seq<seq<int>>, dim: nat, m: nat)
    requires dim > 0 && AllOfLength(ps, dim) && m < |ps|
    requires |ps| * dim <= |a| && a[..|ps| * dim] == Flatten(ps)
    requires m < |StrideOffsets(0, |ps| * dim, dim)|
    ensures StrideOffsets(0, |ps| * dim, dim)[m] + dim <= |a|
    ensures a[StrideOffsets(0, |ps| * dim, dim)[m]..StrideOffsets(0, |ps| * dim, dim)[m] + dim] == ps[m]
  {
    StrideOffsetsAt(0, |ps| * dim, dim, m);
    FlattenSlice(ps, dim, m);
    FlattenLength(ps, dim);
    var o := m * dim;
    assert a[o..o + dim] == a[..|ps| * dim][o..o + dim];
  }

  /** There are `n` points in `[0, n * dim)`. */
  lemma StrideOffsetsOfProduct(n: nat, dim: nat)
    requires dim > 0
    ensures |StrideOffsets(0, n * dim, dim)| == n
  {
    MultipleOfProduct(n, dim);
    StrideOffsetsCount(0, n * dim, dim);
    MulCancel(|StrideOffsets(0, n * dim, dim)|, n, dim);
  }

  /** Reading the layout of `ps` back one stride of `dim` at a time gives
      `ps` again. */
  lemma UnpackStrides(a: seq<int>, ps: seq<seq<int>>, dim: nat)
    requires dim > 0 && AllOfLength(ps, dim)
    requires |ps| * dim <= |a| && a[..|ps| * dim] == Flatten(ps)
    ensures forall m :: 0 <= m < |StrideOffsets(0, |ps| * dim, dim)| ==>
              StrideOffsets(0, |ps| * dim, dim)[m] + dim <= |a|
    ensures Unpacked(a, StrideOffsets(0, |ps| * dim, dim), dim) == ps
  {
    var n := |ps|;
    var offs := StrideOffsets(0, n * dim, dim);
    StrideOffsetsOfProduct(n, dim);
    forall m | 0 <= m < n
      ensures offs[m] + dim <= |a| && a[offs[m]..offs[m] + dim] == ps[m]
    {
      UnpackFlattenAt(a, ps, dim, m);
    }
    assert |Unpacked(a, offs, dim)| == n;
    assert forall m :: 0 <= m < n ==> Unpacked(a, offs, dim)[m] == ps[m];
  }

  /** `unpack` after `pack`: over the single live range `[0, |ps| * dim)` of a
      buffer holding the layout of `ps`, the live points are `ps` again. */
  lemma UnpackFlatten(a: seq<int>, ps: seq<seq<int>>, dim: nat)
    requires dim > 0 && AllOfLength(ps, dim)
    requires |ps| * dim <= |a| && a[..|ps| * dim] == Flatten(ps)
    ensures AlignedRanges([Range(0, |ps| * dim)], dim)
    ensures forall m :: 0 <= m < |LiveOffsets([Range(0, |ps| * dim)], dim)| ==>
              LiveOffsets([Range(0, |ps| * dim)], dim)[m] + dim <= |a|
    ensures Unpacked(a, LiveOffsets([Range(0, |ps| * dim)], dim), dim) == ps
  {
    MultipleOfProduct(|ps|, dim);
    LiveOffsetsOne(Range(0, |ps| * dim), dim);
    UnpackStrides(a, ps, dim);
  }

  /** Dropping the element between two known parts of a sequence. */
  lemma DropMiddle<T>(L: seq<T>, A: seq<T>, S1: seq<T>, x: T, S2: seq<T>, B: seq<T>)
    requires L == A + S1 + [x] + S2 + B
    ensures |A| + |S1| < |L| && L[|A| + |S1|] == x
    ensures L[..|A| + |S1|] + L[|A| + |S1| + 1..] == A + S1 + S2 + B
  {
    assert L[..|A| + |S1|] == A + S1;
    assert L[|A| + |S1| + 1..] == S2 + B;
  }

  /** Cutting a hole for one point out of an aligned range keeps the ranges
      aligned. */
  lemma SplitAligned(rs: seq<Range>, k: nat, x: nat, dim: nat)
    requires dim > 0 && k < |rs| && AlignedRanges(rs, dim)
    requires rs[k].start <= x && x + dim <= rs[k].stop && MultipleOf(x, dim)
    ensures AlignedRanges(Split(rs, k, x, dim), dim)
  {
    var rs' := Split(rs, k, x, dim);
    assert MultipleOf(x + dim, dim);
    forall i | 0 <= i < |rs'|
      ensures Aligned(rs'[i].start, rs'[i].stop, dim)
    {
      if i < k {
        assert rs'[i] == rs[i];
      } else if i > k + 1 {
        assert rs'[i] == rs[i - 1];
      }
    }
  }

  /** The live offsets around the point at `x` in range `k`. */
  lemma OffsetsAround(rs: seq<Range>, k: nat, x: nat, dim: nat)
    requires dim > 0 && k < |rs|
    requires Aligned(rs[k].start, x, dim) && Aligned(x, rs[k].stop, dim) && x < rs[k].stop
    ensures LiveOffsets(rs, dim) ==
            LiveOffsets(rs[..k], dim) + StrideOffsets(rs[k].start, x, dim) + [x] +
            StrideOffsets(x + dim, rs[k].stop, dim) + LiveOffsets(rs[k + 1..], dim)
  {
    var r := rs[k];
    assert rs == rs[..k] + [r] + rs[k + 1..];
    LiveOffsetsThree(rs[..k], [r], rs[k + 1..], dim);
    LiveOffsetsOne(r, dim);
    StrideOffsetsSplit(r.start, x, r.stop, dim);
  }

  /** The live offsets after cutting the point at `x` out of range `k`: the
      offsets before it, then the offsets after it. */
  lemma SplitOffsets(rs: seq<Range>, k: nat, x: nat, dim: nat)
    requires dim > 0 && k < |rs|
    ensures LiveOffsets(Split(rs, k, x, dim), dim) ==
            LiveOffsets(rs[..k], dim) + StrideOffsets(rs[k].start, x, dim) +
            StrideOffsets(x + dim, rs[k].stop, dim) + LiveOffsets(rs[k + 1..], dim)
  {
    var p0, p1 := Range(rs[k].start, x), Range(x + dim, rs[k].stop);
    assert Split(rs, k, x, dim) == rs[..k] + ([p0] + [p1]) + rs[k + 1..];
    LiveOffsetsThree(rs[..k], [p0] + [p1], rs[k + 1..], dim);
    LiveOffsetsConcat([p0], [p1], dim);
    LiveOffsetsOne(p0, dim);
    LiveOffsetsOne(p1, dim);
  }

  /** Cutting the point at `x` out of range `k` keeps the ranges aligned and
      removes exactly that point from the live offsets, at position `j`. */
  lemma LiveOffsetsSplit(rs: seq<Range>, k: nat, x: nat, dim: nat) returns (j: nat)
    requires dim > 0 && k < |rs| && AlignedRanges(rs, dim)
    requires rs[k].start <= x < rs[k].stop && MultipleOf(x, dim)
    ensures x + dim <= rs[k].stop
    ensures AlignedRanges(Split(rs, k, x, dim), dim)
    ensures j < |LiveOffsets(rs, dim)| && LiveOffsets(rs, dim)[j] == x
    ensures LiveOffsets(Split(rs, k, x, dim), dim) ==
            LiveOffsets(rs, dim)[..j] + LiveOffsets(rs, dim)[j + 1..]
  {
    assert Aligned(rs[k].start, rs[k].stop, dim);
    AlignedGap(x, rs[k].stop, dim);
    SplitAligned(rs, k, x, dim);
    OffsetsAround(rs, k, x, dim);
    SplitOffsets(rs, k, x, dim);
    DropMiddle(LiveOffsets(rs, dim), LiveOffsets(rs[..k], dim), StrideOffsets(rs[k].start, x, dim), x,
               StrideOffsets(x + dim, rs[k].stop, dim), LiveOffsets(rs[k + 1..], dim));
    j := |LiveOffsets(rs[..k], dim)| + |StrideOffsets(rs[k].start, x, dim)|;
  }

  /** Appending one point to the last range keeps the ranges aligned. */
  lemma ExtendLastAligned(rs: seq<Range>, dim: nat)
    requires dim > 0 && |rs| > 0 && AlignedRanges(rs, dim)
    ensures AlignedRanges(ExtendLast(rs, dim), dim)
  {
    var rs' := ExtendLast(rs, dim);
    var last := rs[|rs| - 1];
    assert MultipleOf(last.stop + dim, dim);
    forall i | 0 <= i < |rs'|
      ensures Aligned(rs'[i].start, rs'[i].stop, dim)
    {
      if i < |rs| - 1 {
        assert rs'[i] == rs[i];
      } else {
        assert rs'[i] == Range(last.start, last.stop + dim);
      }
    }
  }

  /** Appending one point to the last range adds its offset at the end of the
      live offsets and keeps the ranges aligned. */
  lemma LiveOffsetsExtendLast(rs: seq<Range>, dim: nat)
    requires dim > 0 && |rs| > 0 && AlignedRanges(rs, dim)
    ensures AlignedRanges(ExtendLast(rs, dim), dim)
    ensures LiveOffsets(ExtendLast(rs, dim), dim) == LiveOffsets(rs, dim) + [rs[|rs| - 1].stop]
  {
    ExtendLastAligned(rs, dim);
    var init, last := rs[..|rs| - 1], rs[|rs| - 1];
    var last' := Range(last.start, last.stop + dim);
    LiveOffsetsLast(rs, dim);
    LiveOffsetsConcat(init, [last'], dim);
    LiveOffsetsOne(last', dim);
    StrideOffsetsSnoc(last.start, last.stop, dim);
  }

  /** The live offsets of all ranges: those before the last, then the last's. */
  lemma LiveOffsetsLast(rs: seq<Range>, dim: nat)
    requires dim > 0 && |rs| > 0
    ensures LiveOffsets(rs, dim) ==
            LiveOffsets(rs[..|rs| - 1], dim) + StrideOffsets(rs[|rs| - 1].start, rs[|rs| - 1].stop, dim)
  {
    assert rs == rs[..|rs| - 1] + [rs[|rs| - 1]];
    LiveOffsetsConcat(rs[..|rs| - 1], [rs[|rs| - 1]], dim);
    LiveOffsetsOne(rs[|rs| - 1], dim);
  }

  /** Every point at `offs` lies below `bound`. */
  ghost predicate Fits(offs: seq<nat>, dim: nat, bound: nat)
  {
    forall m :: 0 <= m < |offs| ==> offs[m] + dim <= bound
  }

  /** The points at `offs` are in ascending order and do not overlap. */
  ghost predicate Spread(offs: seq<nat>, dim: nat)
  {
    forall i, j :: 0 <= i < j < |offs| ==> offs[i] + dim <= offs[j]
  }

  /** Reading one more point appends it to the unpacked points. */
  lemma UnpackedSnoc(a: seq<int>, offs: seq<nat>, x: nat, dim: nat)
    requires Fits(offs, dim, |a|) && x + dim <= |a|
    ensures Fits(offs + [x], dim, |a|)
    ensures Unpacked(a, offs + [x], dim) == Unpacked(a, offs, dim) + [a[x..x + dim]]
  {
    assert forall m :: 0 <= m < |offs| ==> (offs + [x])[m] == offs[m];
  }

  /** Points lying below `bound` only depend on the array below `bound`. */
  lemma UnpackedFrame(a: seq<int>, b: seq<int>, offs: seq<nat>, dim: nat, bound: nat)
    requires bound <= |a| && bound <= |b| && a[..bound] == b[..bound]
    requires Fits(offs, dim, bound)
    ensures Fits(offs, dim, |a|) && Fits(offs, dim, |b|)
    ensures Unpacked(a, offs, dim) == Unpacked(b, offs, dim)
  {
    forall m | 0 <= m < |offs|
      ensures a[offs[m]..offs[m] + dim] == b[offs[m]..offs[m] + dim]
    {
      assert a[offs[m]..offs[m] + dim] == a[..bound][offs[m]..offs[m] + dim];
      assert b[offs[m]..offs[m] + dim] == b[..bound][offs[m]..offs[m] + dim];
    }
  }

  /** Splicing `p` into `a` at `x` leaves every slice clear of it unchanged. */
  lemma SliceOutside(a: seq<int>, x: nat, p: seq<int>, y: nat, dim: nat)
    requires x + |p| <= |a| && y + dim <= |a| && (y + dim <= x || x + |p| <= y)
    ensures (a[..x] + p + a[x + |p|..])[y..y + dim] == a[y..y + dim]
  {
    var b := a[..x] + p + a[x + |p|..];
    forall i | y <= i < y + dim
      ensures b[i] == a[i]
    {
      if y + dim <= x {
        assert b[i] == a[..x][i];
      } else {
        assert b[i] == a[x + |p|..][i - x - |p|];
      }
    }
  }

  /** Overwriting the `j`-th of non-overlapping points replaces just that one. */
  lemma UnpackedUpdate(a: seq<int>, offs: seq<nat>, dim: nat, j: nat, p: seq<int>)
    requires Fits(offs, dim, |a|) && Spread(offs, dim) && j < |offs| && |p| == dim
    ensures Fits(offs, dim, |a[..offs[j]] + p + a[offs[j] + dim..]|)
    ensures Unpacked(a[..offs[j]] + p + a[offs[j] + dim..], offs, dim) == Unpacked(a, offs, dim)[j := p]
  {
    var x := offs[j];
    var b := a[..x] + p + a[x + dim..];
    assert |b| == |a|;
    forall m | 0 <= m < |offs|
      ensures b[offs[m]..offs[m] + dim] == Unpacked(a, offs, dim)[j := p][m]
    {
      if m == j {
        assert b[x..x + dim] == p;
      } else {
        SliceOutside(a, x, p, offs[m], dim);
      }
    }
  }

  /** Splicing `p` into `a` at `x`, the start of the `j`-th of non-overlapping
      points, replaces just that point when `p` is one point long. */
  lemma UnpackedSplice(a: seq<int>, b: seq<int>, offs: seq<nat>, dim: nat, x: nat, p: seq<int>)
    requires Fits(offs, dim, |a|) && Spread(offs, dim) && x + |p| <= |a|
    requires b == a[..x] + p + a[x + |p|..]
    ensures Fits(offs, dim, |b|)
    ensures forall j :: 0 <= j < |offs| && offs[j] == x && |p| == dim ==>
              Unpacked(b, offs, dim) == Unpacked(a, offs, dim)[j := p]
  {
    forall j | 0 <= j < |offs| && offs[j] == x && |p| == dim
      ensures Unpacked(b, offs, dim) == Unpacked(a, offs, dim)[j := p]
    {
      UnpackedUpdate(a, offs, dim, j, p);
    }
  }

  /** Dropping the `j`-th offset drops the `j`-th unpacked point. */
  lemma UnpackedDrop(a: seq<int>, offs: seq<nat>, dim: nat, j: nat)
    requires Fits(offs, dim, |a|) && j < |offs|
    ensures Fits(offs[..j] + offs[j + 1..], dim, |a|)
    ensures Unpacked(a, offs[..j] + offs[j + 1..], dim) ==
            Unpacked(a, offs, dim)[..j] + Unpacked(a, offs, dim)[j + 1..]
  {
    var d := offs[..j] + offs[j + 1..];
    assert forall m :: 0 <= m < |d| ==> d[m] == offs[if m < j then m else m + 1];
  }

  /** Among non-overlapping points, the `j`-th offset occurs only once. */
  lemma SpreadUnique(offs: seq<nat>, dim: nat, j: nat)
    requires dim > 0 && Spread(offs, dim) && j < |offs|
    ensures forall m :: 0 <= m < |offs| && offs[m] == offs[j] ==> m == j
    ensures offs[j] !in offs[..j] + offs[j + 1..]
  {
    var d := offs[..j] + offs[j + 1..];
    forall m | 0 <= m < |d|
      ensures d[m] != offs[j]
    {
      if m < j {
        assert d[m] == offs[m];
      } else {
        assert d[m] == offs[m + 1];
      }
    }
  }

  /** A live offset is a multiple of `dim` whose point lies inside a live range. */
  lemma LiveOffsetInRange(rs: seq<Range>, dim: nat, x: nat)
    requires dim > 0 && AlignedRanges(rs, dim) && x in LiveOffsets(rs, dim)
    ensures MultipleOf(x, dim) && InSomeRange(rs, x, dim)
  {
    LiveOffsetsInRanges(rs, dim);
    var m :| 0 <= m < |LiveOffsets(rs, dim)| && LiveOffsets(rs, dim)[m] == x;
  }

  /** Cutting the live point at `x` out of range `k`: the ranges stay aligned,
      and both the live offsets and the points read at them lose exactly their
      `j`-th element, the only one at `x`. */
  lemma RemoveLive(rs: seq<Range>, k: nat, x: nat, dim: nat, a: seq<int>) returns (j: nat)
    requires dim > 0 && k < |rs| && SortedRanges(rs) && AlignedRanges(rs, dim)
    requires rs[k].start <= x && x + dim <= rs[k].stop && MultipleOf(x, dim)
    requires Fits(LiveOffsets(rs, dim), dim, |a|)
    ensures AlignedRanges(Split(rs, k, x, dim), dim)
    ensures j < |LiveOffsets(rs, dim)| && LiveOffsets(rs, dim)[j] == x
    ensures LiveOffsets(Split(rs, k, x, dim), dim) ==
            LiveOffsets(rs, dim)[..j] + LiveOffsets(rs, dim)[j + 1..]
    ensures x !in LiveOffsets(Split(rs, k, x, dim), dim)
    ensures Fits(LiveOffsets(Split(rs, k, x, dim), dim), dim, |a|)
    ensures Unpacked(a, LiveOffsets(Split(rs, k, x, dim), dim), dim) ==
            Unpacked(a, LiveOffsets(rs, dim), dim)[..j] + Unpacked(a, LiveOffsets(rs, dim), dim)[j + 1..]
  {
    j := LiveOffsetsSplit(rs, k, x, dim);
    LiveOffsetsSorted(rs, dim);
    SpreadUnique(LiveOffsets(rs, dim), dim, j);
    UnpackedDrop(a, LiveOffsets(rs, dim), dim, j);
  }

  /** The live offsets from range `k` on: those of range `k`, then the rest. */
  lemma LiveOffsetsHead(rs: seq<Range>, k: nat, dim: nat)
    requires dim > 0 && k < |rs|
    ensures LiveOffsets(rs[k..], dim) ==
            StrideOffsets(rs[k].start, rs[k].stop, dim) + LiveOffsets(rs[k + 1..], dim)
  {
    assert rs[k..][1..] == rs[k + 1..];
  }

  /** One step along a stride `[i, stop)` that starts at position `idx` of
      `offs`. */
  lemma StrideHead(offs: seq<nat>, idx: nat, i: nat, stop: nat, dim: nat, rest: seq<nat>)
    requires dim > 0 && i < stop && idx <= |offs|
    requires offs[idx..] == StrideOffsets(i, stop, dim) + rest
    ensures idx < |offs| && offs[idx] == i
    ensures offs[idx + 1..] == StrideOffsets(i + dim, stop, dim) + rest
  {
    assert offs[idx..][0] == i;
    assert offs[idx + 1..] == offs[idx..][1..];
  }
}
