/** The slider object: control points, curve type and length, with the
    path and cumulative length table it computes in place. */
module SliderCurve {
  import opened Geometry
  import opened Repeats
  import opened Segments
  import opened ArcLength
  import opened Progress

  /** The state CalculatePath and CalculateCumulativeLengthAndTrimPath leave
      behind: the resolved length, the trimmed path and its table. */
  datatype Resolved = Resolved(length: real, path: seq<Vec2>, table: seq<real>)

  /** The state after building and trimming the path of a slider with
      control points cps, curve type kind and stored length `length`. */
  function Resolve(cps: seq<Vec2>, kind: CurveType, length: real, approx: Approximators,
                   magnitude: Vec2 -> real, lengthPerSnap: real): (r: Resolved)
    requires length == 0.0 ==> lengthPerSnap != 0.0
    ensures length != 0.0 ==> r.length == length
    ensures |r.path| == |CurvePath(cps, kind, approx)| && |r.table| == Max(1, |r.path|)
    ensures forall k :: 0 <= k < |r.path| - 1 ==> r.path[k] == CurvePath(cps, kind, approx)[k]
    ensures r.table[0] == 0.0
    ensures Extends(CurvePath(cps, kind, approx), r.length, magnitude) ==> Last(r.table) == r.length
    ensures !Extends(CurvePath(cps, kind, approx), r.length, magnitude) ==>
              r.path == CurvePath(cps, kind, approx) && r.table == CumulativeLengths(r.path, magnitude)
  {
    var path := CurvePath(cps, kind, approx);
    var len := ResolveLength(length, path, magnitude, lengthPerSnap);
    var tr := TrimToLength(path, len, magnitude);
    assert tr.table[0] == CumulativeLengths(path, magnitude)[0] || |tr.table| == 1;
    Resolved(len, tr.path, tr.table)
  }

  /** For a magnitude with the laws of a norm, the resolved table is the
      cumulative length table of the resolved path, strictly increasing, and
      the resolved path still has no repeated neighbours. */
  lemma {:induction false} ResolvedIsCumulative(cps: seq<Vec2>, kind: CurveType, length: real, approx: Approximators,
                             magnitude: Vec2 -> real, lengthPerSnap: real)
    requires length == 0.0 ==> lengthPerSnap != 0.0
    requires NonNegative(magnitude) && Definite(magnitude) && Homogeneous(magnitude)
    ensures Resolve(cps, kind, length, approx, magnitude, lengthPerSnap).table ==
            CumulativeLengths(Resolve(cps, kind, length, approx, magnitude, lengthPerSnap).path, magnitude)
    ensures Increasing(Resolve(cps, kind, length, approx, magnitude, lengthPerSnap).table)
    ensures NoAdjacentDuplicates(Resolve(cps, kind, length, approx, magnitude, lengthPerSnap).path)
  {
    var path := CurvePath(cps, kind, approx);
    var len := ResolveLength(length, path, magnitude, lengthPerSnap);
    CumulativeIncreasing(path, magnitude);
    TrimKeepsIncreasing(path, len, magnitude);
    TrimmedTableIsCumulative(path, len, magnitude);
    var tr := TrimToLength(path, len, magnitude);
    IncreasingMeansDistinct(tr.path, magnitude);
  }

  /** A derived length is never longer than the path, so the path is not
      extended and the table is the raw cumulative table. */
  lemma {:induction false} DerivedLengthKeepsPath(cps: seq<Vec2>, kind: CurveType, approx: Approximators,
                               magnitude: Vec2 -> real, lengthPerSnap: real)
    requires lengthPerSnap > 0.0 && NonNegative(magnitude)
    ensures Resolve(cps, kind, 0.0, approx, magnitude, lengthPerSnap).path == CurvePath(cps, kind, approx)
    ensures Resolve(cps, kind, 0.0, approx, magnitude, lengthPerSnap).table ==
            CumulativeLengths(CurvePath(cps, kind, approx), magnitude)
    ensures Resolve(cps, kind, 0.0, approx, magnitude, lengthPerSnap).length <=
            Last(Resolve(cps, kind, 0.0, approx, magnitude, lengthPerSnap).table)
  {
  }

  /** Resolving again from the resolved length gives the same state: the
      stored length is the only input either calculation method rewrites, a
      set length is kept, and a zero length is derived again in the same way. */
  lemma {:induction false} ResolveStable(cps: seq<Vec2>, kind: CurveType, length: real, approx: Approximators,
                          magnitude: Vec2 -> real, lengthPerSnap: real)
    requires length == 0.0 ==> lengthPerSnap != 0.0
    ensures var r := Resolve(cps, kind, length, approx, magnitude, lengthPerSnap);
            (r.length == 0.0 ==> lengthPerSnap != 0.0) &&
            Resolve(cps, kind, r.length, approx, magnitude, lengthPerSnap) == r
  {
    var path := CurvePath(cps, kind, approx);
    var len := ResolveLength(length, path, magnitude, lengthPerSnap);
    if len != 0.0 {
      assert ResolveLength(len, path, magnitude, lengthPerSnap) == len;
    }
  }

  /** PositionAt(0) and PositionAt(1) are the first and the last point
      GetPath returns. */
  lemma {:induction false} PositionAtEnds(cps: seq<Vec2>, kind: CurveType, length: real, approx: Approximators,
                       magnitude: Vec2 -> real, lengthPerSnap: real)
    requires length == 0.0 ==> lengthPerSnap != 0.0
    requires NonNegative(magnitude) && Definite(magnitude) && Homogeneous(magnitude)
    ensures var r := Resolve(cps, kind, length, approx, magnitude, lengthPerSnap);
            PointAt(r.path, r.table, r.length, 0.0) == PathWindow(r.path, r.table, r.length)[0] &&
            PointAt(r.path, r.table, r.length, 1.0) == Last(PathWindow(r.path, r.table, r.length))
  {
    var r := Resolve(cps, kind, length, approx, magnitude, lengthPerSnap);
    ResolvedIsCumulative(cps, kind, length, approx, magnitude, lengthPerSnap);
    WindowEndsArePositions(r.path, r.table, r.length);
  }

  /** On the state a first call leaves, a second call resolves to the same
      state, PositionAt(0) and PositionAt(1) give the first and the last
      point of the first GetPath, and GetPath gives the same points again. */
  lemma {:induction false} ResolvedQueriesAgree(cps: seq<Vec2>, kind: CurveType, length: real, approx: Approximators,
                                magnitude: Vec2 -> real, lengthPerSnap: real)
    requires length == 0.0 ==> lengthPerSnap != 0.0
    requires NonNegative(magnitude) && Definite(magnitude) && Homogeneous(magnitude)
    ensures var r := Resolve(cps, kind, length, approx, magnitude, lengthPerSnap);
            (r.length == 0.0 ==> lengthPerSnap != 0.0) &&
            Resolve(cps, kind, r.length, approx, magnitude, lengthPerSnap) == r &&
            |PathWindow(r.path, r.table, r.length)| >= 2 &&
            PointAt(r.path, r.table, r.length, 0.0) == PathWindow(r.path, r.table, r.length)[0] &&
            PointAt(r.path, r.table, r.length, 1.0) == Last(PathWindow(r.path, r.table, r.length))
  {
    var r := Resolve(cps, kind, length, approx, magnitude, lengthPerSnap);
    ResolveStable(cps, kind, length, approx, magnitude, lengthPerSnap);
    PositionAtEnds(cps, kind, length, approx, magnitude, lengthPerSnap);
    PathWindowShape(r.path, r.table, r.length);
  }

  /** When the table ends exactly at the length (in particular when the path
      was extended to it), GetPath returns the whole resolved path. */
  lemma {:induction false} GetPathIsWholePath(cps: seq<Vec2>, kind: CurveType, length: real, approx: Approximators,
                           magnitude: Vec2 -> real, lengthPerSnap: real)
    requires length == 0.0 ==> lengthPerSnap != 0.0
    requires NonNegative(magnitude) && Definite(magnitude) && Homogeneous(magnitude)
    requires |Resolve(cps, kind, length, approx, magnitude, lengthPerSnap).path| >= 2
    requires Last(Resolve(cps, kind, length, approx, magnitude, lengthPerSnap).table) ==
             Resolve(cps, kind, length, approx, magnitude, lengthPerSnap).length
    ensures var r := Resolve(cps, kind, length, approx, magnitude, lengthPerSnap);
            PathWindow(r.path, r.table, r.length) == r.path
  {
    var r := Resolve(cps, kind, length, approx, magnitude, lengthPerSnap);
    ResolvedIsCumulative(cps, kind, length, approx, magnitude, lengthPerSnap);
    WindowIsWholePath(r.path, r.table, r.length);
  }

  /** The curve-type letter of the slider's text form. */
  function CurveTypeCode(kind: CurveType): (c: string)
    ensures |c| == 1 && c[0] in "CBLP"
  {
    match kind
    case Catmull => "C"
    case Bezier => "B"
    case Linear => "L"
    case PerfectCurve => "P"
  }

  /** Distinct curve types have distinct letters. */
  lemma {:induction false} CurveTypeCodeInjective(a: CurveType, b: CurveType)
    ensures CurveTypeCode(a) == CurveTypeCode(b) <==> a == b
  {
  }

  /** The first loop of CalculateCumulativeLengthAndTrimPath: the sum of
      the segment lengths of the path, the last entry of its table. */
  method PathLength(path: seq<Vec2>, magnitude: Vec2 -> real) returns (total: real)
    ensures total == Last(CumulativeLengths(path, magnitude))
  {
    ghost var t := CumulativeLengths(path, magnitude);
    total := 0.0;
    var i := 0;
    while i < |path| - 1
      invariant 0 <= i <= Max(0, |path| - 1)
      invariant total == t[i]
    {
      total := total + magnitude(Sub(path[i + 1], path[i]));
      i := i + 1;
    }
  }

  /** The second loop of CalculateCumulativeLengthAndTrimPath: the table of
      running sums of the segment lengths, and its last entry. */
  method LengthTable(path: seq<Vec2>, magnitude: Vec2 -> real) returns (table: seq<real>, l: real)
    ensures table == CumulativeLengths(path, magnitude) && l == Last(table)
  {
    ghost var t := CumulativeLengths(path, magnitude);
    l := 0.0;
    table := [l];
    var i := 0;
    while i < |path| - 1
      invariant 0 <= i <= Max(0, |path| - 1)
      invariant l == t[i] && table == t[..i + 1]
    {
      l := l + magnitude(Sub(path[i + 1], path[i]));
      PrefixGrows(t, i + 1);
      table := table + [l];
      i := i + 1;
    }
    assert table == t[..|t|];
  }

  lemma {:induction false} PrefixGrows<T>(t: seq<T>, i: nat)
    requires i < |t|
    ensures t[..i] + [t[i]] == t[..i + 1]
  {
  }

  /** The two walks of GetPath: the interpolated point at d0, the vertices
      whose entries lie between d0 and d1, and the interpolated point at d1. */
  method WalkWindow(cp: seq<Vec2>, cl: seq<real>, d0: real, d1: real) returns (path: seq<Vec2>)
    requires |cl| >= |cp|
    ensures path == WindowPoints(cp, cl, d0, d1)
  {
    var i := SkipBelow(cl, |cp|, d0);
    path := [InterpolateVertices(cp, cl, i, d0)];
    var inside, j := TakeUpTo(cp, cl, d1, i);
    path := path + inside;
    path := path + [InterpolateVertices(cp, cl, j, d1)];
  }

  /** GetPath's first walk: skips the entries below d. */
  method SkipBelow(cl: seq<real>, n: nat, d: real) returns (i: nat)
    requires n <= |cl|
    ensures i == FirstNotBelow(cl, n, d, 0)
  {
    i := 0;
    while i < n && cl[i] < d
      invariant i <= n
      invariant FirstNotBelow(cl, n, d, i) == FirstNotBelow(cl, n, d, 0)
    {
      i := i + 1;
    }
  }

  /** GetPath's second walk: from i0, collects the vertices whose entries are
      not above d. */
  method TakeUpTo(cp: seq<Vec2>, cl: seq<real>, d: real, i0: nat) returns (inside: seq<Vec2>, i: nat)
    requires i0 <= |cp| <= |cl|
    ensures i == FirstAbove(cl, |cp|, d, i0) && inside == cp[i0..i]
  {
    inside := [];
    i := i0;
    while i < |cp| && cl[i] <= d
      invariant i0 <= i <= |cp|
      invariant FirstAbove(cl, |cp|, d, i) == FirstAbove(cl, |cp|, d, i0)
      invariant inside == cp[i0..i]
    {
      SliceGrows(cp, i0, i);
      inside := inside + [cp[i]];
      i := i + 1;
    }
  }

  /** The RemoveAt pass of GetPath: while more than two points remain, a
      point equal to its predecessor is removed and the same index is
      compared again. */
  method RemoveRepeats(s: seq<Vec2>) returns (path: seq<Vec2>)
    requires |s| >= 2
    ensures path == DropRepeats(s)
  {
    path := s;
    var j := 0;
    while |path| > 2 && j < |path| - 1
      invariant |path| >= 2 && 0 <= j < |path|
      invariant path[0] == s[0] && Last(path) == Last(s)
      invariant Collapse(path) == Collapse(s)
      invariant NoAdjacentDuplicates(path[..j + 1])
      decreases 2 * |path| - j
    {
      if path[j] == path[j + 1] {
        CollapseRemoveRepeat(path, j);
        path := path[..j + 1] + path[j + 2..];
      } else {
        j := j + 1;
      }
    }
    if |path| > 2 {
      assert path[..j + 1] == path;
    }
    DropRepeatsUnique(s, path);
  }

  class Slider {
    var length: real
    var controlPoints: seq<Vec2>
    var curveType: CurveType
    var calculatedPath: seq<Vec2>
    var cumulativeLength: seq<real>

    /** A slider with the given control points, curve type and length (zero
        for a length derived from the path); nothing is computed yet. */
    constructor (cps: seq<Vec2>, kind: CurveType, len: real)
      ensures controlPoints == cps && curveType == kind && length == len
      ensures calculatedPath == [] && cumulativeLength == []
    {
      controlPoints := cps;
      curveType := kind;
      length := len;
      calculatedPath := [];
      cumulativeLength := [];
    }

    /** CalculatePath: cuts the control points into runs at repeated points,
        and appends each run's subpath, skipping a point equal to the last
        one appended. */
    method CalculatePath(approx: Approximators)
      modifies this`calculatedPath
      ensures calculatedPath == CurvePath(controlPoints, curveType, approx)
    {
      var cps := controlPoints;
      var kind := curveType;
      calculatedPath := [];
      var sub: seq<Vec2> := [];
      for i := 0 to |cps|
        invariant BuildFrom(cps, i, sub, calculatedPath, kind, approx) == BuildFrom(cps, 0, [], [], kind, approx)
      {
        sub := sub + [cps[i]];
        if i == |cps| - 1 || cps[i] == cps[i + 1] {
          AppendDistinctPoints(Subpath(kind, |cps|, sub, approx));
          sub := [];
        }
      }
      BuildIsCurvePath(cps, kind, approx);
    }

    /** The inner loop of CalculatePath: appends the points one by one,
        skipping a point equal to the current last point. */
    method AppendDistinctPoints(subpath: seq<Vec2>)
      modifies this`calculatedPath
      ensures calculatedPath == AppendDistinct(old(calculatedPath), subpath)
    {
      ghost var before := calculatedPath;
      for k := 0 to |subpath|
        invariant AppendDistinct(calculatedPath, subpath[k..]) == AppendDistinct(before, subpath)
      {
        assert subpath[k..][1..] == subpath[k + 1..];
        if calculatedPath == [] || Last(calculatedPath) != subpath[k] {
          calculatedPath := calculatedPath + [subpath[k]];
        }
      }
    }

    /** CalculateCumulativeLengthAndTrimPath: derives the length when it is
        zero, builds the cumulative length table, and moves the last vertex
        along the last segment so that the path is as long as the length. */
    method CalculateCumulativeLengthAndTrimPath(magnitude: Vec2 -> real, lengthPerSnap: real)
      requires length == 0.0 ==> lengthPerSnap != 0.0
      modifies this`length, this`calculatedPath, this`cumulativeLength
      ensures length == ResolveLength(old(length), old(calculatedPath), magnitude, lengthPerSnap)
      ensures Trimmed(calculatedPath, cumulativeLength) == TrimToLength(old(calculatedPath), length, magnitude)
    {
      var path := calculatedPath;
      ghost var before := length;
      ghost var t := CumulativeLengths(path, magnitude);
      if length == 0.0 {
        var total := PathLength(path, magnitude);
        length := SnapLength(total, lengthPerSnap);
      }
      assert length == ResolveLength(before, path, magnitude, lengthPerSnap);
      ghost var len := length;

      var l;
      cumulativeLength, l := LengthTable(path, magnitude);
      ExtendLastSegment(magnitude, l);
    }

    /** The end of CalculateCumulativeLengthAndTrimPath: when the path is
        shorter than the length, moves the last vertex along the last segment
        and sets the last entry to the length. */
    method ExtendLastSegment(magnitude: Vec2 -> real, l: real)
      requires cumulativeLength == CumulativeLengths(calculatedPath, magnitude)
      requires l == Last(cumulativeLength)
      modifies this`calculatedPath, this`cumulativeLength
      ensures Trimmed(calculatedPath, cumulativeLength) == TrimToLength(old(calculatedPath), length, magnitude)
    {
      var path := calculatedPath;
      var n := |path|;
      if l < length && n > 1 {
        var diff := Sub(path[n - 1], path[n - 2]);
        var d := magnitude(diff);
        if d <= 0.0 {
          return;
        }
        calculatedPath := path[n - 1 := Add(path[n - 1], Scale(diff, (length - l) / d))];
        cumulativeLength := cumulativeLength[n - 1 := length];
      }
    }

    /** GetPath: the points between progress 0 and progress 1 of the
        resolved path, with repeated neighbours removed while more than two
        points remain. */
    method GetPath(approx: Approximators, magnitude: Vec2 -> real, lengthPerSnap: real) returns (path: seq<Vec2>)
      requires length == 0.0 ==> lengthPerSnap != 0.0
      modifies this`length, this`calculatedPath, this`cumulativeLength
      ensures Resolved(length, calculatedPath, cumulativeLength) ==
              Resolve(controlPoints, curveType, old(length), approx, magnitude, lengthPerSnap)
      ensures path == PathWindow(calculatedPath, cumulativeLength, length)
    {
      CalculatePath(approx);
      CalculateCumulativeLengthAndTrimPath(magnitude, lengthPerSnap);
      ResolvedState(approx, magnitude, lengthPerSnap, old(length));
      var d0 := ProgressToLength(0.0, length);
      var d1 := ProgressToLength(1.0, length);
      path := WalkWindow(calculatedPath, cumulativeLength, d0, d1);
      path := RemoveRepeats(path);
    }

    /** The state both public operations leave behind, written as Resolve. */
    lemma {:induction false} ResolvedState(approx: Approximators, magnitude: Vec2 -> real, lengthPerSnap: real, before: real)
      requires before == 0.0 ==> lengthPerSnap != 0.0
      requires length == ResolveLength(before, CurvePath(controlPoints, curveType, approx), magnitude, lengthPerSnap)
      requires Trimmed(calculatedPath, cumulativeLength) ==
               TrimToLength(CurvePath(controlPoints, curveType, approx), length, magnitude)
      ensures Resolved(length, calculatedPath, cumulativeLength) ==
              Resolve(controlPoints, curveType, before, approx, magnitude, lengthPerSnap)
    {
    }

    /** PositionAt: the point at the given progress along the resolved path. */
    method PositionAt(approx: Approximators, magnitude: Vec2 -> real, lengthPerSnap: real, progress: real) returns (p: Vec2)
      requires length == 0.0 ==> lengthPerSnap != 0.0
      modifies this`length, this`calculatedPath, this`cumulativeLength
      ensures Resolved(length, calculatedPath, cumulativeLength) ==
              Resolve(controlPoints, curveType, old(length), approx, magnitude, lengthPerSnap)
      ensures p == PointAt(calculatedPath, cumulativeLength, length, progress)
    {
      CalculatePath(approx);
      CalculateCumulativeLengthAndTrimPath(magnitude, lengthPerSnap);
      ResolvedState(approx, magnitude, lengthPerSnap, old(length));
      var d := ProgressToLength(progress, length);
      p := InterpolateVertices(calculatedPath, cumulativeLength, IndexOfLength(cumulativeLength, d), d);
    }
  }

  /** After GetPath, PositionAt(0) on the same slider returns GetPath's
      first point. */
  method StartAgrees(s: Slider, approx: Approximators, magnitude: Vec2 -> real, lengthPerSnap: real)
      returns (path: seq<Vec2>, p0: Vec2)
    requires s.length == 0.0 ==> lengthPerSnap != 0.0
    requires NonNegative(magnitude) && Definite(magnitude) && Homogeneous(magnitude)
    modifies s
    ensures |path| >= 2 && p0 == path[0]
  {
    ghost var cps, kind, len := s.controlPoints, s.curveType, s.length;
    ResolveStable(cps, kind, len, approx, magnitude, lengthPerSnap);
    path := s.GetPath(approx, magnitude, lengthPerSnap);
    p0 := s.PositionAt(approx, magnitude, lengthPerSnap, 0.0);
    ResolvedQueriesAgree(cps, kind, len, approx, magnitude, lengthPerSnap);
  }

  /** After GetPath, PositionAt(1) on the same slider returns GetPath's
      last point. */
  method EndAgrees(s: Slider, approx: Approximators, magnitude: Vec2 -> real, lengthPerSnap: real)
      returns (path: seq<Vec2>, p1: Vec2)
    requires s.length == 0.0 ==> lengthPerSnap != 0.0
    requires NonNegative(magnitude) && Definite(magnitude) && Homogeneous(magnitude)
    modifies s
    ensures |path| >= 2 && p1 == Last(path)
  {
    ghost var cps, kind, len := s.controlPoints, s.curveType, s.length;
    ResolveStable(cps, kind, len, approx, magnitude, lengthPerSnap);
    path := s.GetPath(approx, magnitude, lengthPerSnap);
    p1 := s.PositionAt(approx, magnitude, lengthPerSnap, 1.0);
    ResolvedQueriesAgree(cps, kind, len, approx, magnitude, lengthPerSnap);
  }

  /** GetPath asked twice on the same slider returns the same points. */
  method GetPathRepeats(s: Slider, approx: Approximators, magnitude: Vec2 -> real, lengthPerSnap: real)
      returns (path: seq<Vec2>, again: seq<Vec2>)
    requires s.length == 0.0 ==> lengthPerSnap != 0.0
    modifies s
    ensures again == path
  {
    ResolveStable(s.controlPoints, s.curveType, s.length, approx, magnitude, lengthPerSnap);
    path := s.GetPath(approx, magnitude, lengthPerSnap);
    again := s.GetPath(approx, magnitude, lengthPerSnap);
  }
}
