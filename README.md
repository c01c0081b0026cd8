# PointCollection: a verified model

`ol.geom2.PointCollection` (OpenLayers 3, `src/ol/geom2/pointcollection.js`)
stores points of one fixed dimension `dim` back to back in a packed buffer
(`ol.structs.Buffer`). A point is addressed by its offset, the index of its
first coordinate, which is a multiple of `dim`.

- `pack` builds a collection from an array of points.
- `add`, `get`, `set` and `remove` work on one point by offset.
- `unpack` and `getExtent` scan every live point.
- `remove` leaves a hole in the buffer. The scans visit only the buffer's live
  ranges, so they skip the hole. Raw access by offset still reaches it.

The model has six modules:

- `Options` (`options.dfy`): the `Option` datatype.
- `Extents` (`extents.dfy`): the extent collaborator, `ol.Extent`. An extent is
  a box, or `None` when empty. `ExtendXY` is `extendXY`. `ExtentOf` folds it
  over a sequence of (x, y) pairs, and `IsSmallestBox` is an independent
  reference definition of "smallest covering box".
- `Buffers` (`buffers.dfy`): the buffer collaborator as a class with a raw
  `array<int>`, a live count and the sorted, disjoint live ranges that
  `forEachRange` visits. It has only the operations the collection calls, with
  the contracts the collection relies on.
- `Layout` (`layout.dfy`): stride arithmetic.
  - `StrideOffsets` lists the offsets that the loop `for (i = start; i < stop; i += dim)` visits.
  - `LiveOffsets` concatenates those walks over all live ranges.
  - `Flatten` is the back-to-back layout of `pack`.
  - `Unpacked` and `XYs` read points and (x, y) pairs back out.
- `PointCollections` (`pointcollection.dfy`): the class `PointCollection` and
  `Pack`.
  - `Offsets()` is the sequence of live offsets, and `Points()` the sequence of
    live points. The mutating methods are specified by how they change these two.
  - The two `forEachRange` callbacks are `UnpackRange` and `ExtendByRange`.
    The loops over the ranges that call them are `UnpackRanges` and
    `ExtentOfRanges`. Each callback is specified by the stretch of the live
    offsets its range covers. `ExtentUpTo` is the extent after the first `n`
    live offsets, extended one at a time as the scan does.
- `Scenarios` (`scenarios.dfy`): a few concrete uses of a collection, checked
  end to end against the contracts above. They pack three points and remove the
  middle one, pack one point and add two more, and pack no points.

A `goog.asserts.assert` in the source becomes a precondition. The model proves
that `pack`'s final assertion `arrIndex == n * dim` and `unpack`'s final
assertion `pointsIndex == n` both hold.

## Model

| member | source | states |
|---|---|---|
| PointCollections.PointCollection.constructor | src/ol/geom2/pointcollection.js:20-32 | keeps the given buffer; the dimension is the given one, or 2 when none is given |
| PointCollections.PackDim | src/ol/geom2/pointcollection.js:44-45 | (definition) the explicit dimension, else the first point's length, else 2 |
| PointCollections.PackCapacity | src/ol/geom2/pointcollection.js:46 | (definition) the explicit capacity, else `n * dim` |
| PointCollections.Pack | src/ol/geom2/pointcollection.js:41-61 | fresh collection with the resolved dimension; its array has the resolved capacity and starts with the flattened points; count `n * dim` and the single live range `[0, n * dim)`; for a positive dimension the collection is valid and its live points are exactly the packed points |
| PointCollections.PackArray | src/ol/geom2/pointcollection.js:48-58 | fresh array of `capacity` elements whose first `n * dim` elements are the points back to back; the loop proves `arrIndex == n * dim` |
| PointCollections.PackThenUnpack | src/ol/geom2/pointcollection.js:41-61 | `unpack(pack(points))` returns `points` for points of one positive dimension |
| Layout.UnpackFlatten | src/ol/geom2/pointcollection.js:41-61 | the single range `[0, n * dim)` is aligned, and reading its strides out of the packed array gives back the points |
| Layout.FlattenLength | src/ol/geom2/pointcollection.js:58 | n points of dimension `dim` flatten to `n * dim` elements |
| Layout.FlattenSlice | src/ol/geom2/pointcollection.js:54-56 | the m-th point of the layout occupies elements `[m * dim, (m + 1) * dim)` |
| PointCollections.PointCollection.Add | src/ol/geom2/pointcollection.js:68-71 | returns the old end of the live ranges, a readable multiple of `dim`; count grows by `dim` and the last range grows by `dim`; the live offsets gain the new offset at the end, and the live points gain `point` at the end; the new slot holds `point`; the array is the old one, kept when it has room, or a fresh one |
| PointCollections.AddThenGet | src/ol/geom2/pointcollection.js:68-84 | reading back a just-added point gives that point; the array is the old one or a fresh one, so further calls are possible |
| Buffers.Buffer.constructor | src/ol/geom2/pointcollection.js:59 | `new ol.structs.Buffer(arr, n * dim)`: keeps the given array; the first `used` elements are live, as the single range `[0, used)`, and the count is `used`; the buffer is valid |
| Buffers.Buffer.Add | src/ol/geom2/pointcollection.js:70 | appends after the last live range and returns that offset; count grows by the number of values; the last range grows by that amount; the prefix is kept and the values are written; the array is replaced only when too short |
| Buffers.Buffer.Grow | src/ol/geom2/pointcollection.js:70 | fresh, longer array with the old contents as its prefix; buffer stays valid |
| Buffers.ExtendLastValid | src/ol/geom2/pointcollection.js:70 | extending the last range within the array keeps the buffer's range invariant, with the appended length added to the count |
| Buffers.ExtendLastSorted | src/ol/geom2/pointcollection.js:70 | extending the last range keeps the ranges sorted and disjoint |
| Buffers.ExtendLastSum | src/ol/geom2/pointcollection.js:70 | extending the last range by w adds exactly w live elements |
| Layout.ExtendLastAligned | src/ol/geom2/pointcollection.js:68-71 | extending the last aligned range by `dim` keeps every range aligned |
| Layout.LiveOffsetsExtendLast | src/ol/geom2/pointcollection.js:68-71 | extending the last aligned range by `dim` keeps alignment and appends exactly the old end to the live offsets |
| Layout.UnpackedFrame | src/ol/geom2/pointcollection.js:68-71 | points lying below a bound do not change when only elements at or above it change |
| Layout.UnpackedSnoc | src/ol/geom2/pointcollection.js:134 | reading one more point appends exactly that point |
| PointCollections.PointCollection.Get | src/ol/geom2/pointcollection.js:78-84 | under the bounds check as written (`offset + dim < length`, offset a multiple of `dim`), returns the `dim` coordinates at `offset` |
| PointCollections.PointCollection.GetInclusive | src/ol/geom2/pointcollection.js:78-84 | the intended `get`: under `offset + dim <= length`, returns the `dim` coordinates at `offset` |
| PointCollections.LastPointRejectedAsWritten | src/ol/geom2/pointcollection.js:81 | in a full array of `n * dim` elements, the last point is live and wholly inside the array, but the strict check refuses its offset |
| PointCollections.LivePointsReadable | src/ol/geom2/pointcollection.js:81-82 | every live offset of a valid collection passes the intended check |
| Layout.MultipleOfMod | src/ol/geom2/pointcollection.js:82 | the alignment predicate used by the model is exactly `offset % dim == 0` |
| PointCollections.PointCollection.GetExtent | src/ol/geom2/pointcollection.js:90-102 | the extent is the fold of `extendXY` over the (x, y) pairs of the live points in range order; it is the smallest box containing them all; it is empty exactly when the count is 0 |
| PointCollections.ExtentOfRanges | src/ol/geom2/pointcollection.js:94-101 | starting from the empty extent and visiting every live range extends it by every live offset's pair, in range order |
| PointCollections.ExtendByRange | src/ol/geom2/pointcollection.js:95-100 | extends the extent of the pairs at the live offsets seen so far by the pairs of one live range, whose offsets come next in range order |
| PointCollections.ExtentUpToIsExtentOf | src/ol/geom2/pointcollection.js:94-101 | extending one live offset at a time over the first n offsets gives the fold of `extendXY` over their pairs |
| Extents.ExtendXY | src/ol/geom2/pointcollection.js:98 | the result contains (x, y) and covers the old extent |
| Extents.ExtendXYLeast | src/ol/geom2/pointcollection.js:98 | every box that contains (x, y) and covers the old extent covers the result |
| Extents.ExtendXYIdempotent | src/ol/geom2/pointcollection.js:98 | extending twice by the same pair is extending once |
| Extents.ExtentOfIsSmallestBox | src/ol/geom2/pointcollection.js:94-101 | the fold of `extendXY` from the empty extent satisfies the reference definition: empty iff no pairs, otherwise contains every pair with each bound attained by some pair |
| PointCollections.PointCollection.Remove | src/ol/geom2/pointcollection.js:108-110 | the live point at `offset` drops out: count falls by `dim`; the offset is no longer live; the live offsets and live points lose exactly their j-th element, where j is the position of `offset`; the raw array is untouched |
| Buffers.Buffer.Remove | src/ol/geom2/pointcollection.js:109 | the live range containing the span is split around the hole; count falls by the width; the array is untouched |
| Buffers.SplitSum | src/ol/geom2/pointcollection.js:109 | cutting a hole of width w removes exactly w live elements |
| Buffers.SplitSorted | src/ol/geom2/pointcollection.js:109 | cutting a hole keeps the ranges sorted and disjoint, adds one range and keeps the end |
| Buffers.SplitValid | src/ol/geom2/pointcollection.js:109 | cutting a hole of width w out of a live range keeps the buffer's range invariant, with w fewer live elements |
| Layout.RemoveLive | src/ol/geom2/pointcollection.js:108-110 | cutting the live point at `x` out of its range keeps alignment; the live offsets and the live points both lose exactly their j-th element, the only one at `x` |
| Layout.LiveOffsetInRange | src/ol/geom2/pointcollection.js:108-110 | a live offset is a multiple of `dim` whose point lies inside one live range |
| Layout.LiveOffsetsSplit | src/ol/geom2/pointcollection.js:108-110 | cutting a `dim`-wide hole at a live aligned offset keeps alignment and removes exactly that offset from the live offsets |
| Layout.LiveOffsetsInRanges | src/ol/geom2/pointcollection.js:108-110 | every live offset is a multiple of `dim` whose point lies inside one live range |
| Layout.UnpackedDrop | src/ol/geom2/pointcollection.js:108-110 | dropping the j-th offset drops the j-th point |
| Layout.SpreadUnique | src/ol/geom2/pointcollection.js:108-110 | among non-overlapping points an offset occurs once, so after the drop it is gone |
| PointCollections.PointCollection.Set | src/ol/geom2/pointcollection.js:117-119 | the array becomes the old prefix, then `point`, then the old suffix; the live offsets are unchanged; overwriting the j-th live point with a point of dimension `dim` replaces exactly the j-th live point |
| Buffers.Buffer.Set | src/ol/geom2/pointcollection.js:118 | overwrites exactly `|values|` elements at `offset` and nothing else |
| Layout.UnpackedUpdate | src/ol/geom2/pointcollection.js:117-119 | overwriting the j-th of non-overlapping points replaces only that point |
| Layout.UnpackedSplice | src/ol/geom2/pointcollection.js:117-119 | splicing a point of dimension `dim` over the start of the j-th of non-overlapping points replaces exactly the j-th point |
| Layout.SliceOutside | src/ol/geom2/pointcollection.js:118 | a splice leaves every slice that does not overlap it unchanged |
| Layout.LiveOffsetsSorted | src/ol/geom2/pointcollection.js:117-119 | live points never overlap: each live offset is at least `dim` past every earlier one |
| Layout.StrideOffsetsSorted | src/ol/geom2/pointcollection.js:133 | the offsets of one stride walk are at least `dim` apart, in ascending order |
| Layout.LiveOffsetsFrom | src/ol/geom2/pointcollection.js:117-119 | when every range starts at or after `lo`, every live offset is at least `lo` |
| PointCollections.PointCollection.Unpack | src/ol/geom2/pointcollection.js:125-139 | returns exactly the live points in range order, `count / dim` of them |
| PointCollections.UnpackRanges | src/ol/geom2/pointcollection.js:127-137 | visiting every live range fills the `n`-slot result with the points at all live offsets; the loop proves `pointsIndex == n` |
| PointCollections.UnpackRange | src/ol/geom2/pointcollection.js:131-136 | copies the points of one live range, whose offsets come next in the live offsets from position `pointsIndex`, into the slots at those positions; earlier slots are kept |
| Layout.LiveOffsetsHead | src/ol/geom2/pointcollection.js:127-137 | the live offsets from range k on are range k's stride offsets followed by those of the later ranges |
| Layout.StrideHead | src/ol/geom2/pointcollection.js:133 | one step of the stride loop: the next offset is `i`, and the walk continues from `i + dim` |
| PointCollections.PointCollection.OffsetsCount | src/ol/geom2/pointcollection.js:127 | there are exactly `count / dim` live points, and none exactly when the count is 0 |
| Layout.LiveOffsetsCountDiv | src/ol/geom2/pointcollection.js:127 | the number of live offsets is the live element count divided by `dim` |
| Layout.LiveOffsetsCount | src/ol/geom2/pointcollection.js:127 | live offsets times `dim` is the live element count |
| PointCollections.PointCollection.OffsetsFit | src/ol/geom2/pointcollection.js:131-136 | every live point lies inside the array, below the end of the live ranges, and live points do not overlap |
| Layout.LiveOffsetsBelow | src/ol/geom2/pointcollection.js:131-136 | every live point ends at or below any bound on the range ends |
| Layout.StrideOffsets | src/ol/geom2/pointcollection.js:133 | the stride loop visits something iff `start < stop`, starts at `start` and stays in `[start, stop)` |
| Layout.StrideOffsetsCount | src/ol/geom2/pointcollection.js:133 | in an aligned range, the number of visited offsets times `dim` is `stop - start` |
| Layout.StrideOffsetsAt | src/ol/geom2/pointcollection.js:133 | the m-th visited offset is `start + m * dim` |
| Layout.StrideOffsetsFit | src/ol/geom2/pointcollection.js:134 | in an aligned range every visited point ends at or before `stop` |
| Layout.StrideOffsetsMultiples | src/ol/geom2/pointcollection.js:133 | in an aligned range every visited offset is a multiple of `dim` |
| Scenarios.RemoveMiddlePoint | src/ol/geom2/pointcollection.js:108-110 | `pack([[1,2],[3,4],[5,6]])`, then `remove(2)`: unpack gives `[[1,2],[5,6]]` and the extent is x in [1, 5], y in [2, 6] |
| Scenarios.PackThreeRemoveMiddle | src/ol/geom2/pointcollection.js:108-110 | after that removal the live offsets are `[0, 4]` and the live points `[[1,2],[5,6]]` |
| Scenarios.ReadLastPoint | src/ol/geom2/pointcollection.js:81 | after that removal the point at offset 4 reads back as `[5, 6]` with the intended check, which the strict check would refuse |
| Scenarios.PackThenAddTwice | src/ol/geom2/pointcollection.js:68-71 | `pack([[1,2]])`, then `add([3,4])` and `add([5,6])`: unpack gives `[[1,2],[3,4],[5,6]]` |
| Scenarios.PackNothing | src/ol/geom2/pointcollection.js:43-46 | `pack([])`: count 0, unpack gives `[]`, the extent is empty |

## Findings

| source | as written | input that shows it | evidently intended | confidence | as-written member | corrected member |
|---|---|---|---|---|---|---|
| src/ol/geom2/pointcollection.js:81 | `get` asserts `offset + dim < arr.length` | `pack([[1, 2]])` then `get(0)`: the array has length 2 and `0 + 2 < 2` fails, though the point `[1, 2]` lies wholly inside it; the same happens for the last point of any full array | `offset + dim <= arr.length` | not executed | PointCollections.LastPointRejectedAsWritten | PointCollections.PointCollection.GetInclusive |

`PointCollections.PointCollection.Get` keeps the strict check as written.
`LastPointRejectedAsWritten` proves, for every `n > 0` and `dim > 0`, that the strict
check refuses a live point of a full array. `GetInclusive` carries the intended
check: `LivePointsReadable` proves that it accepts every live point, and
`AddThenGet` and `Scenarios.ReadLastPoint` read points back through it.

## Left out

- Buffer internals (`ol.structs.Buffer`) are not part of this model. The model keeps only the behaviour the collection relies on. It has no free-space reuse: `Buffers.Buffer.Add` always appends after the last live range, and grows the array to exactly the size needed.
- Buffers.Buffer.Add: does not reuse holes left by `remove`, because the buffer's free-set policy is not part of this model. Only the properties the collection needs are stated: where the values land and how the ranges change.
- Buffers.Buffer.Grow: the growth policy (how much larger the new array is) is not modelled. The array grows to exactly the length required.
- PointCollections.PointCollection.Remove: requires `offset` to be a live point's offset. The source hands any offset to the buffer. The buffer's own checks are not part of this model; the model assumes only that `Buffers.Buffer.Remove` is given a span inside a live range, which it states as its precondition. An unaligned removal would break the collection's alignment invariant, so it is excluded.
- PointCollections.PointCollection.Set: relates the new live points to the old ones only when `offset` is live and the point has dimension `dim`. Otherwise it states the new raw array contents.
- Coordinates are integers, not JavaScript floating-point numbers. The empty extent, built from infinities in the source, is `None`.
- The unset slots of `new Array(capacity)` beyond `n * dim` are `undefined` in the source and unconstrained in the model: nothing is assumed about the elements of a fresh array. No operation of the collection reads them as a live point.
- `extendXY` updates an extent object in place. The model computes each new extent as a value.
- `goog.asserts` checks are preconditions. Behaviour when a check is disabled and execution continues is not modelled.
- Dimension 0: `Pack` accepts it and states the buffer it builds, but a collection of dimension 0 does not satisfy `Valid()`, which every other operation requires. In the source, `offset % 0` is `NaN`, so `get` refuses every offset.
- Points of inconsistent length passed to `pack` violate its assertion and are excluded by its precondition.
- The Closure Library machinery (`goog.provide`, `goog.require`, type annotations) has no counterpart in the model.
