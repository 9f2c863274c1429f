# Slider curve model

A Dafny model of the curve-path engine of an osu! slider
(`Assets/Scripts/HitObjects/Slider.cs`, itself adapted from osu!'s
`SliderCurve`). A slider has control points, a curve type (Catmull, Bezier,
Linear or PerfectCurve) and a length. From these it:

- cuts the control points into runs, closing a run at the last point or
  wherever a point is repeated;
- turns each run into a polyline with the approximator for the curve type;
- concatenates the polylines, skipping a point equal to the last one appended;
- derives the length when it is zero: the polyline length snapped down to a
  multiple of `lengthPerSnap`;
- builds the cumulative length table, and moves the last vertex along the last
  segment when the path is shorter than the length;
- answers `GetPath` (the points between progress 0 and 1, with repeats removed
  while more than two points remain) and `PositionAt(progress)` (a binary
  search of the table, then interpolation between two vertices).

Layout:

- `geometry.dfy`: points over the reals, and the laws assumed of the vector magnitude.
- `repeats.dfy`: removal of repeated neighbours. `Collapse` is the reference
  definition; `AppendDistinct` is the append that skips repeats; `DropRepeats`
  is the result of GetPath's RemoveAt pass.
- `segments.dfy`: `CalculateSubpath`, the runs, and the built path (`CurvePath`).
- `arc_length.dfy`: the cumulative table, the length snap, and the trim.
- `progress.dfy`: `ProgressToLength`, `IndexOfLength`, `InterpolateVertices`,
  and the window that `GetPath` returns.
- `slider.dfy`: the `Slider` class. Its fields are updated in place by
  `CalculatePath`, `CalculateCumulativeLengthAndTrimPath`, `GetPath` and
  `PositionAt`. Each method is proved against the pure functions above.
  `Resolve` names the state the first two methods leave behind.

The approximators, the vector magnitude and the configured `lengthPerSnap`
are parameters. Lemmas that need the magnitude to behave like a norm say so
in their requires, with `NonNegative`, `Definite` and `Homogeneous`.

A raw length of 150 with a step of 35 snaps to `150 - (150 % 35)`, which is
150 − 10 = 140; `ArcLength.SnapLengthExample` proves it.

## Model

| member | source | states |
|---|---|---|
| Segments.Subpath | Assets/Scripts/HitObjects/Slider.cs:22-47 | Linear returns the run itself and Catmull its Catmull polyline. PerfectCurve returns the circular arc only when the slider has 3 control points, the run has 3 points and the arc is non-empty. Bezier, and PerfectCurve in every other case, returns the Bezier polyline. |
| Segments.IsBoundary | Assets/Scripts/HitObjects/Slider.cs:57 | Helper, no contract of its own: the run-closing test, true at the last index or where a point equals its successor. RunEnd and RunsFromPartition state its properties. |
| Segments.RunEnd | Assets/Scripts/HitObjects/Slider.cs:54-57 | The run starting at i closes at the first index at or after i that is the last point or equals its successor. No index before it is a boundary. |
| Segments.RunsFrom | Assets/Scripts/HitObjects/Slider.cs:53-69 | Helper, no contract of its own: the runs of cps[i..], each closed at RunEnd. RunsFromPartition, RunsFromStep and RunsUnique state its properties. |
| Segments.Runs | Assets/Scripts/HitObjects/Slider.cs:53-69 | Helper, no contract of its own: the runs of the whole control-point list. RunsPartition and RunsUnique state its properties. |
| Segments.RunsFromPartition | Assets/Scripts/HitObjects/Slider.cs:53-69 | The runs of cps[i..], concatenated, are cps[i..]. Each run is non-empty and has no repeated neighbours. Each run ends with the point the next run starts with. |
| Segments.RunsFromStep | Assets/Scripts/HitObjects/Slider.cs:53-69 | When the run from i is x, the runs from i are x followed by the runs from the index after x. |
| Segments.RunsPartition | Assets/Scripts/HitObjects/Slider.cs:53-69 | The runs of the whole control-point list partition it in order, with the properties of RunsFrom. |
| Segments.RunsUnique | Assets/Scripts/HitObjects/Slider.cs:53-69 | Any sequence of runs with those properties is the one CalculatePath builds, so the runs are determined by the boundaries alone. |
| Segments.AppendRunsStep | Assets/Scripts/HitObjects/Slider.cs:57-68 | When the run from i closes at e, appending the subpaths of the runs from i equals appending the subpath of cps[i..e+1], then the subpaths of the runs from e+1. |
| Segments.Subpaths | Assets/Scripts/HitObjects/Slider.cs:59 | There is one subpath per run, and the k-th is CalculateSubpath of the k-th run. |
| Segments.BuildFrom | Assets/Scripts/HitObjects/Slider.cs:53-70 | The loop as written, from any index, keeps a path free of repeated neighbours. |
| Segments.BuildFromRuns | Assets/Scripts/HitObjects/Slider.cs:53-70 | Midway through the loop, with the pending run starting at a run start, what remains to be built is the subpaths of the runs from that start. |
| Segments.BuildIsCurvePath | Assets/Scripts/HitObjects/Slider.cs:49-71 | The loop as written, started on an empty path, builds CurvePath. |
| Segments.AppendAll | Assets/Scripts/HitObjects/Slider.cs:59-66 | Appending subpaths with the skip keeps a path free of repeated neighbours. |
| Segments.CurvePath | Assets/Scripts/HitObjects/Slider.cs:49-71 | The built path never has two equal neighbours. |
| Segments.AppendAllCollapses | Assets/Scripts/HitObjects/Slider.cs:59-66 | Appending subpaths with the skip to a collapsed path is collapsing the path followed by all subpaths. |
| Segments.CurvePathIsCollapsedSubpaths | Assets/Scripts/HitObjects/Slider.cs:49-71 | The built path is the concatenation of the subpaths in run order, with each point equal to its predecessor dropped. Every point therefore comes from a subpath, in order. |
| Segments.SubpathsLinear | Assets/Scripts/HitObjects/Slider.cs:26-27 | For the Linear type, the subpaths are the runs themselves. |
| Segments.LinearPathIsControlPoints | Assets/Scripts/HitObjects/Slider.cs:26-27 | A Linear slider's path is its control points with repeats collapsed. It is exactly the control points when they repeat no neighbour. |
| Segments.PerfectCurveFallback | Assets/Scripts/HitObjects/Slider.cs:28-46 | A PerfectCurve path is the collapsed circular arc when there are exactly 3 control points, no point equal to the next one, and a non-empty arc. Otherwise it is the Bezier path of the same control points. |
| Repeats.Collapse | Assets/Scripts/HitObjects/Slider.cs:62 | The collapsed sequence has no repeated neighbours, is no longer than the input, keeps the first and the last element, and is the input itself when the input has no repeats. |
| Repeats.CollapseSnoc | Assets/Scripts/HitObjects/Slider.cs:60-66 | Collapsing with one more point at the end adds that point unless it equals the last one. |
| Repeats.CollapseFromInput | Assets/Scripts/HitObjects/Slider.cs:62 | Every element of the collapsed sequence comes from the input. |
| Repeats.CollapseToOne | Assets/Scripts/HitObjects/Slider.cs:184-191 | A sequence collapses to one point only when all its points are equal. |
| Repeats.CollapseRemoveRepeat | Assets/Scripts/HitObjects/Slider.cs:186-188 | Removing one of two equal neighbours does not change the collapsed sequence. |
| Repeats.CollapseFramed | Assets/Scripts/HitObjects/Slider.cs:175-182 | Repeating the first point in front and the last point behind does not change the collapsed sequence. |
| Repeats.AppendDistinct | Assets/Scripts/HitObjects/Slider.cs:60-66 | The append keeps the existing path as a prefix, adds at most the given points, and keeps a path free of repeated neighbours. |
| Repeats.AppendDistinctCollapses | Assets/Scripts/HitObjects/Slider.cs:60-66 | Appending with the skip to a collapsed sequence is collapsing the concatenation. |
| Repeats.DropRepeats | Assets/Scripts/HitObjects/Slider.cs:184-191 | The RemoveAt pass keeps both ends and the collapsed form. It has as many points as the collapsed input, but never fewer than two when the input has at least two points (GetPath always passes two or more), and it has no repeats unless every input point is the same. |
| Repeats.DropRepeatsUnique | Assets/Scripts/HitObjects/Slider.cs:184-191 | Any sequence of at least two points with the same ends and the same collapsed form that is repeat-free or two points long is DropRepeats of the input. |
| ArcLength.CumulativeLengths | Assets/Scripts/HitObjects/Slider.cs:91-100 | The table has one entry per vertex, and a single entry for an empty path. It starts at 0, and each entry is the previous one plus the length of the segment between their vertices. |
| ArcLength.NonDecreasingFromSteps | Assets/Scripts/HitObjects/Slider.cs:96-100 | A table that never steps down is non-decreasing between any two indices. |
| ArcLength.IncreasingFromSteps | Assets/Scripts/HitObjects/Slider.cs:96-100 | A table that always steps up is increasing between any two indices. |
| ArcLength.CumulativeNonDecreasing | Assets/Scripts/HitObjects/Slider.cs:91-100 | With non-negative segment lengths the table is non-decreasing and its last entry is non-negative. |
| ArcLength.RawLengthNonNegative | Assets/Scripts/HitObjects/Slider.cs:81-86 | The raw length of the path is non-negative when magnitudes are. |
| ArcLength.CumulativeIncreasing | Assets/Scripts/HitObjects/Slider.cs:91-100 | For a path without repeated neighbours, the table is strictly increasing. |
| ArcLength.FloatRemainder | Assets/Scripts/HitObjects/Slider.cs:88 | Helper, no contract of its own: C#'s floating-point `%`, whose quotient is truncated toward zero, so the remainder takes the sign of the dividend. SnapLengthQuantises states its range. |
| ArcLength.SnapLength | Assets/Scripts/HitObjects/Slider.cs:88 | Helper, no contract of its own: the raw length minus its remainder by lengthPerSnap. SnapLengthQuantises, SnapLengthGreatest and SnapLengthExample state its properties. |
| ArcLength.SnapLengthQuantises | Assets/Scripts/HitObjects/Slider.cs:88 | For a non-negative raw length, the truncated remainder lies in [0, lengthPerSnap). The snapped length lies in [0, raw], is within one step of the raw length, and is a whole number of steps. |
| ArcLength.SnapLengthGreatest | Assets/Scripts/HitObjects/Slider.cs:88 | Every whole number of steps that fits in the raw length is at most the snapped length, so the snap is the greatest such multiple. |
| ArcLength.SnapLengthExample | Assets/Scripts/HitObjects/Slider.cs:88 | A raw length of 150 with a step of 35 snaps to 140. |
| ArcLength.ResolveLength | Assets/Scripts/HitObjects/Slider.cs:76-89 | A non-zero length is kept. A zero length, with a positive step, becomes a value in [0, raw length] within one step of the raw length. |
| ArcLength.TrimToLength | Assets/Scripts/HitObjects/Slider.cs:102-114 | Trimming keeps the number of vertices and entries. It changes at most the last vertex and the last entry. When the extension applies, the last vertex moves forward along the last segment by a positive multiple of it, and the last entry is exactly the length. Otherwise the path and the raw table are returned unchanged, including the early return for a zero-length last segment. |
| ArcLength.CumulativePrefix | Assets/Scripts/HitObjects/Slider.cs:91-100 | Two paths that agree up to vertex k have the same table up to entry k. |
| ArcLength.ExtendedSegment | Assets/Scripts/HitObjects/Slider.cs:112 | Moving the last vertex by s times the last segment makes that segment 1 + s times as long. |
| ArcLength.ExtendedLength | Assets/Scripts/HitObjects/Slider.cs:104-112 | For a homogeneous magnitude, moving the last vertex along a segment of positive length by the missing length makes that segment exactly that much longer. |
| ArcLength.TrimmedTableIsCumulative | Assets/Scripts/HitObjects/Slider.cs:102-114 | For a homogeneous magnitude, the trimmed table is the cumulative table of the trimmed path. The moved vertex lies exactly at the length. |
| ArcLength.TrimKeepsIncreasing | Assets/Scripts/HitObjects/Slider.cs:102-114 | Trimming keeps a strictly increasing table strictly increasing and starting at 0. |
| ArcLength.IncreasingMeansDistinct | Assets/Scripts/HitObjects/Slider.cs:91-100 | A path with a strictly increasing table has no repeated neighbours. |
| Progress.ProgressToLength | Assets/Scripts/HitObjects/Slider.cs:128 | Progress is clamped to [0, 1] and scaled. A non-negative length gives a distance in [0, length]; progress at or below 0 gives 0; progress at or above 1 gives the length. |
| Progress.SearchRange | Assets/Scripts/HitObjects/Slider.cs:119 | List.BinarySearch over an index range. It returns an index holding d, or the complement of an insertion point whose neighbours in the range bracket d. |
| Progress.BinarySearch | Assets/Scripts/HitObjects/Slider.cs:119 | Helper, no contract of its own: List.BinarySearch over the whole table. SearchRange states what it returns; BinarySearchFinds and ZeroAtStart state when it finds d. |
| Progress.BinarySearchFinds | Assets/Scripts/HitObjects/Slider.cs:119 | On a non-decreasing table, the search returns a non-negative index exactly when d is an entry. |
| Progress.IndexOfLength | Assets/Scripts/HitObjects/Slider.cs:117-126 | The index is at most the table size. Either the entry there is d, or the entry before is below d and the entry at it is above d. |
| Progress.IndexOfLengthBrackets | Assets/Scripts/HitObjects/Slider.cs:117-126 | On a non-decreasing table, every entry before the index is at most d, and the entry at it is at least d. |
| Progress.IndexOfLengthUnique | Assets/Scripts/HitObjects/Slider.cs:117-126 | On a strictly increasing table, the index with that property is unique. |
| Progress.InterpolateVertices | Assets/Scripts/HitObjects/Slider.cs:130-159 | An empty path gives the zero vector. An index at or below 0 gives the first vertex, and an index past the end the last. Equal bracketing entries give vertex i−1. A distance equal to the lower entry gives vertex i−1, and one equal to the upper entry gives vertex i. |
| Progress.InterpolateOnSegment | Assets/Scripts/HitObjects/Slider.cs:146-158 | A distance between the two bracketing entries gives a point on the segment between the two vertices, with a weight in [0, 1]. |
| Progress.FirstNotBelow | Assets/Scripts/HitObjects/Slider.cs:171-173 | The first walk stops at the first vertex whose entry is not below d0, or past the path. |
| Progress.FirstAbove | Assets/Scripts/HitObjects/Slider.cs:177-180 | The second walk stops at the first vertex whose entry is above d1, or past the path. |
| Progress.FirstAboveIs | Assets/Scripts/HitObjects/Slider.cs:177-180 | Any stopping index with that property is the one the walk finds. |
| Progress.WindowPoints | Assets/Scripts/HitObjects/Slider.cs:169-182 | The points collected before the RemoveAt pass are at least two. |
| Progress.PathWindow | Assets/Scripts/HitObjects/Slider.cs:161-194 | Helper, no contract of its own: GetPath's result on a resolved state, the collected points with the RemoveAt pass applied. PathWindowShape, WindowEndsArePositions and WindowIsWholePath state its properties. |
| Progress.PointAt | Assets/Scripts/HitObjects/Slider.cs:196-203 | Helper, no contract of its own: PositionAt's result on a resolved state, InterpolateVertices at the index IndexOfLength finds. WindowEndsArePositions and PositionAtEnds state its properties. |
| Progress.PathWindowShape | Assets/Scripts/HitObjects/Slider.cs:161-194 | GetPath returns at least two points, starting at the interpolated start and ending at the interpolated end. It has no repeated neighbours unless it is exactly two equal points. |
| Progress.WindowPointsEnds | Assets/Scripts/HitObjects/Slider.cs:175-182 | The collected points start with the interpolation at the first walk's index and end with the interpolation at the second walk's index. |
| Progress.ZeroAtStart | Assets/Scripts/HitObjects/Slider.cs:117-126 | On an increasing table starting at 0, distance 0 is found at index 0 by both the search and the first walk. |
| Progress.SearchMeetsWalk | Assets/Scripts/HitObjects/Slider.cs:177-202 | On an increasing table, the binary search and the second walk reach indices that interpolate to the same point. |
| Progress.WindowEndsArePositions | Assets/Scripts/HitObjects/Slider.cs:161-203 | On an increasing table starting at 0, PositionAt(0) is GetPath's first point and PositionAt(1) its last. |
| Progress.WindowIsWholePath | Assets/Scripts/HitObjects/Slider.cs:161-194 | When the table ends exactly at the length and the path has no repeats, GetPath returns the whole path. |
| SliderCurve.Resolve | Assets/Scripts/HitObjects/Slider.cs:163-164 | Building and trimming keeps a non-zero length, the vertex count and every vertex but the last. The table starts at 0. When the extension applies it ends at the length; otherwise the path is the built path and the table its cumulative table. |
| SliderCurve.ResolvedIsCumulative | Assets/Scripts/HitObjects/Slider.cs:73-115 | For a magnitude with the laws of a norm, the resolved table is the cumulative table of the resolved path. It is strictly increasing, and the resolved path has no repeated neighbours. |
| SliderCurve.DerivedLengthKeepsPath | Assets/Scripts/HitObjects/Slider.cs:76-114 | A derived length never exceeds the path, so the path is not moved and the table is the raw table. |
| SliderCurve.PositionAtEnds | Assets/Scripts/HitObjects/Slider.cs:161-203 | After resolving, PositionAt(0) and PositionAt(1) are the first and the last point GetPath returns. |
| SliderCurve.ResolveStable | Assets/Scripts/HitObjects/Slider.cs:76-88 | Resolving again with the length a first resolution stored gives the same state. A stored length of zero is only left behind when lengthPerSnap is non-zero, so the second call is allowed. |
| SliderCurve.ResolvedQueriesAgree | Assets/Scripts/HitObjects/Slider.cs:161-203 | On the state a first call leaves, a second call resolves to the same state, GetPath has at least two points, and PositionAt(0) and PositionAt(1) are its first and last points. |
| SliderCurve.GetPathIsWholePath | Assets/Scripts/HitObjects/Slider.cs:161-194 | When the resolved table ends at the length, for instance after an extension, GetPath returns the whole resolved path. |
| SliderCurve.CurveTypeCode | Assets/Scripts/HitObjects/Slider.cs:209-223 | The curve-type letter is one of C, B, L and P. |
| SliderCurve.CurveTypeCodeInjective | Assets/Scripts/HitObjects/Slider.cs:209-223 | Two curve types have the same letter exactly when they are the same type. |
| SliderCurve.PathLength | Assets/Scripts/HitObjects/Slider.cs:81-86 | The summing loop returns the last entry of the cumulative table. |
| SliderCurve.LengthTable | Assets/Scripts/HitObjects/Slider.cs:91-100 | The table loop builds exactly the cumulative table, and its running sum ends at the table's last entry. |
| SliderCurve.SkipBelow | Assets/Scripts/HitObjects/Slider.cs:171-173 | The first walk stops at FirstNotBelow. |
| SliderCurve.TakeUpTo | Assets/Scripts/HitObjects/Slider.cs:177-180 | The second walk stops at FirstAbove and collects exactly the vertices it passes. |
| SliderCurve.WalkWindow | Assets/Scripts/HitObjects/Slider.cs:169-182 | The two walks collect exactly WindowPoints. |
| SliderCurve.RemoveRepeats | Assets/Scripts/HitObjects/Slider.cs:184-191 | The RemoveAt loop, which compares the same index again after a removal, returns DropRepeats of its input. |
| SliderCurve.StartAgrees | Assets/Scripts/HitObjects/Slider.cs:161-203 | GetPath followed by PositionAt(0) on the same slider: GetPath's result has at least two points and PositionAt(0) is the first of them. |
| SliderCurve.EndAgrees | Assets/Scripts/HitObjects/Slider.cs:161-203 | GetPath followed by PositionAt(1) on the same slider: GetPath's result has at least two points and PositionAt(1) is the last of them. |
| SliderCurve.GetPathRepeats | Assets/Scripts/HitObjects/Slider.cs:161-194 | GetPath called twice on the same slider returns the same points both times. |
| SliderCurve.Slider.constructor | Assets/Scripts/HitObjects/Slider.cs:13-20 | A slider with the given control points, type and length, and an empty path and table. |
| SliderCurve.Slider.CalculatePath | Assets/Scripts/HitObjects/Slider.cs:49-71 | The loop over control points leaves calculatedPath equal to CurvePath of the control points and curve type. |
| SliderCurve.Slider.AppendDistinctPoints | Assets/Scripts/HitObjects/Slider.cs:60-66 | The inner loop appends a subpath with the skip, as AppendDistinct does. |
| SliderCurve.Slider.CalculateCumulativeLengthAndTrimPath | Assets/Scripts/HitObjects/Slider.cs:73-115 | The new length is ResolveLength of the old length and path. The new path and table are TrimToLength of the old path at the new length. |
| SliderCurve.Slider.ExtendLastSegment | Assets/Scripts/HitObjects/Slider.cs:102-114 | From the raw table, the extension step leaves the path and table that TrimToLength gives. |
| SliderCurve.Slider.GetPath | Assets/Scripts/HitObjects/Slider.cs:161-194 | The state after the call is Resolve of the control points, type and old length. The result is PathWindow of that state. |
| SliderCurve.Slider.ResolvedState | Assets/Scripts/HitObjects/Slider.cs:163-164 | The state left by the two calculation methods is Resolve of the slider's inputs. |
| SliderCurve.Slider.PositionAt | Assets/Scripts/HitObjects/Slider.cs:196-203 | The state after the call is Resolve of the inputs. The result is InterpolateVertices at the index IndexOfLength finds for ProgressToLength(progress). |

## Left out

- The circular-arc, Catmull and Bezier approximators belong to the program's own `OsuPlayground.OsuMath` code, which is not shown here. They are modelled as total function parameters.
- `Vector2.magnitude` is a parameter. The laws it is assumed to satisfy (non-negative, zero only at the zero vector, homogeneous) are stated as requires, not proved of a square root.
- `Options.SliderMultiplier`, `Options.SpeedMultiplier` and `Options.BeatSnapDivisor` are configuration. They are folded into the parameter `lengthPerSnap`.
- Single-precision floating point is modelled by exact reals: no rounding, overflow, NaN or infinity.
- Segments.IsBoundary, Repeats.AppendDistinct, Repeats.Collapse and SliderCurve.RemoveRepeats: points are compared with exact equality. Unity's `Vector2` `==` and `!=` (the run-boundary test at Slider.cs:57, the append skip at Slider.cs:62, the RemoveAt test at Slider.cs:186) treat two points as equal when their squared distance is below 1e-10. So two control points within 1e-5 of each other close a run in the source but not in the model, and the proved `NoAdjacentDuplicates` means exact inequality only.
- `Precision.AlmostEquals` in InterpolateVertices is modelled as exact equality, because the tolerance is a floating-point artefact.
- ArcLength.ResolveLength: requires `lengthPerSnap != 0` when the length is zero. In C#, `x % 0` on floats gives NaN, which reals cannot represent.
- `ToString`: only the curve-type letter is modelled. The number formatting, rounding and joining of control points are string layout.
- The `HitObject` base class (position, timing) is not part of this model.
- CalculatePath's inner loop, the summing loop, the table loop, GetPath's two walks and its RemoveAt pass are written as separate methods (`AppendDistinctPoints`, `PathLength`, `LengthTable`, `SkipBelow`, `TakeUpTo`, `RemoveRepeats`). Their order and effect are the source's.
- Aliasing of the returned `List<Vector2>` is not modelled: `Linear` hands back the caller's own list in C#, while the model returns a value.
