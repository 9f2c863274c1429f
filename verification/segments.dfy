/** The segmenter and path builder of a slider curve: control points are cut
    into runs at the last point and wherever a point repeats, each run is
    handed to the approximator of the curve type, and the pieces are joined
    without repeating a point across a junction. */
module Segments {
  import opened Geometry
  import opened Repeats

  datatype CurveType = Catmull | Bezier | Linear | PerfectCurve

  /** The three curve approximators are library code outside this model;
      each turns a run of control points into a polyline. */
  datatype Approximators = Approximators(
    circularArc: (Vec2, Vec2, Vec2) -> seq<Vec2>,
    catmull: seq<Vec2> -> seq<Vec2>,
    bezier: seq<Vec2> -> seq<Vec2>)

  /** CalculateSubpath: the polyline of one run. `controlCount` is the number
      of control points of the whole slider. */
  function Subpath(kind: CurveType, controlCount: nat, run: seq<Vec2>, approx: Approximators): (r: seq<Vec2>)
    ensures kind == Linear ==> r == run
    ensures kind == Catmull ==> r == approx.catmull(run)
    ensures kind == PerfectCurve && controlCount == 3 && |run| == 3 && approx.circularArc(run[0], run[1], run[2]) != []
            ==> r == approx.circularArc(run[0], run[1], run[2])
    ensures kind == Bezier || (kind == PerfectCurve && !(controlCount == 3 && |run| == 3 && approx.circularArc(run[0], run[1], run[2]) != []))
            ==> r == approx.bezier(run)
  {
    match kind
    case Linear => run
    case PerfectCurve =>
      if controlCount != 3 || |run| != 3 then approx.bezier(run)
      else
        var arc := approx.circularArc(run[0], run[1], run[2]);
        if arc == [] then approx.bezier(run) else arc
    case Catmull => approx.catmull(run)
    case Bezier => approx.bezier(run)
  }

  /** A run closes at index i: at the last control point, or where the next
      control point equals this one. */
  predicate IsBoundary(cps: seq<Vec2>, i: nat)
    requires i < |cps|
  {
    i == |cps| - 1 || cps[i] == cps[i + 1]
  }

  /** The index at which the run starting at i closes. */
  function RunEnd(cps: seq<Vec2>, i: nat): (e: nat)
    requires i < |cps|
    ensures i <= e < |cps| && IsBoundary(cps, e)
    ensures forall j :: i <= j < e ==> !IsBoundary(cps, j)
    decreases |cps| - i
  {
    if IsBoundary(cps, i) then i else RunEnd(cps, i + 1)
  }

  function Flatten(runs: seq<seq<Vec2>>): (r: seq<Vec2>)
    decreases |runs|
  {
    if runs == [] then [] else runs[0] + Flatten(runs[1..])
  }

  lemma {:induction false} FlattenCons(x: seq<Vec2>, rest: seq<seq<Vec2>>)
    ensures Flatten([x] + rest) == x + Flatten(rest)
  {
    assert ([x] + rest)[1..] == rest;
  }

  /** The runs of cps[i..], in order. */
  function RunsFrom(cps: seq<Vec2>, i: nat): (runs: seq<seq<Vec2>>)
    requires i <= |cps|
    decreases |cps| - i
  {
    if i == |cps| then [] else [cps[i..RunEnd(cps, i) + 1]] + RunsFrom(cps, RunEnd(cps, i) + 1)
  }

  /** The runs of cps[i..] concatenate to cps[i..], are non-empty, repeat no
      point, and each begins with the point the one before it ends with. */
  lemma {:induction false} RunsFromPartition(cps: seq<Vec2>, i: nat)
    requires i <= |cps|
    ensures Flatten(RunsFrom(cps, i)) == cps[i..]
    ensures forall k :: 0 <= k < |RunsFrom(cps, i)| ==> RunsFrom(cps, i)[k] != [] && NoAdjacentDuplicates(RunsFrom(cps, i)[k])
    ensures forall k :: 0 <= k < |RunsFrom(cps, i)| - 1 ==> Last(RunsFrom(cps, i)[k]) == RunsFrom(cps, i)[k + 1][0]
  {
    RunsFromFlatten(cps, i);
    RunsFromClean(cps, i);
    RunsFromJoin(cps, i);
  }

  lemma {:induction false} RunsFromFlatten(cps: seq<Vec2>, i: nat)
    requires i <= |cps|
    ensures Flatten(RunsFrom(cps, i)) == cps[i..]
    decreases |cps| - i
  {
    if i < |cps| {
      var e := RunEnd(cps, i);
      calc {
        Flatten(RunsFrom(cps, i));
        Flatten([cps[i..e + 1]] + RunsFrom(cps, e + 1));
        == { FlattenCons(cps[i..e + 1], RunsFrom(cps, e + 1)); }
        cps[i..e + 1] + Flatten(RunsFrom(cps, e + 1));
        == { RunsFromFlatten(cps, e + 1); }
        cps[i..e + 1] + cps[e + 1..];
        == { SliceJoin(cps, i, e + 1); }
        cps[i..];
      }
    }
  }

  lemma {:induction false} RunsFromClean(cps: seq<Vec2>, i: nat)
    requires i <= |cps|
    ensures forall k :: 0 <= k < |RunsFrom(cps, i)| ==> RunsFrom(cps, i)[k] != [] && NoAdjacentDuplicates(RunsFrom(cps, i)[k])
    decreases |cps| - i
  {
    if i < |cps| {
      var e := RunEnd(cps, i);
      var x := cps[i..e + 1];
      var rest := RunsFrom(cps, e + 1);
      RunsFromClean(cps, e + 1);
      forall j | 0 < j < |x| ensures x[j - 1] != x[j] {
        assert !IsBoundary(cps, i + j - 1);
      }
      var runs := RunsFrom(cps, i);
      assert runs == [x] + rest;
      assert forall k :: 0 < k < |runs| ==> runs[k] == rest[k - 1];
    }
  }

  lemma {:induction false} RunsFromJoin(cps: seq<Vec2>, i: nat)
    requires i <= |cps|
    ensures forall k :: 0 <= k < |RunsFrom(cps, i)| ==> RunsFrom(cps, i)[k] != []
    ensures forall k :: 0 <= k < |RunsFrom(cps, i)| - 1 ==> Last(RunsFrom(cps, i)[k]) == RunsFrom(cps, i)[k + 1][0]
    decreases |cps| - i
  {
    if i < |cps| {
      var e := RunEnd(cps, i);
      var x := cps[i..e + 1];
      var rest := RunsFrom(cps, e + 1);
      RunsFromJoin(cps, e + 1);
      assert rest != [] ==> e + 1 < |cps| && rest[0] != [] && rest[0][0] == cps[e + 1] == Last(x);
      var runs := RunsFrom(cps, i);
      assert runs == [x] + rest;
      assert forall k :: 0 < k < |runs| ==> runs[k] == rest[k - 1];
    }
  }

  /** The runs of the whole control-point sequence. */
  function Runs(cps: seq<Vec2>): seq<seq<Vec2>> {
    RunsFrom(cps, 0)
  }

  /** Runs partition the control points in order: concatenated they give the
      control points back, each run is non-empty and repeats no point, and
      each run ends with the point the next run begins with. */
  lemma {:induction false} RunsPartition(cps: seq<Vec2>)
    ensures Flatten(Runs(cps)) == cps
    ensures forall k :: 0 <= k < |Runs(cps)| ==> Runs(cps)[k] != [] && NoAdjacentDuplicates(Runs(cps)[k])
    ensures forall k :: 0 <= k < |Runs(cps)| - 1 ==> Last(Runs(cps)[k]) == Runs(cps)[k + 1][0]
  {
    RunsFromPartition(cps, 0);
    assert cps[0..] == cps;
  }

  /** The run starting at i closes at e when e is the first boundary from i. */
  lemma {:induction false} RunEndIs(cps: seq<Vec2>, i: nat, e: nat)
    requires i <= e < |cps| && IsBoundary(cps, e)
    requires forall j :: i <= j < e ==> !IsBoundary(cps, j)
    ensures RunEnd(cps, i) == e
  {
  }

  /** The first run of a partition of cps[i..] closes at a boundary, and no
      earlier index is one. */
  lemma {:induction false} FirstRunCloses(cps: seq<Vec2>, i: nat, x: seq<Vec2>, rest: seq<seq<Vec2>>)
    requires i <= |cps| && x != [] && NoAdjacentDuplicates(x)
    requires x + Flatten(rest) == cps[i..]
    requires rest != [] ==> rest[0] != [] && Last(x) == rest[0][0]
    ensures i + |x| - 1 < |cps| && cps[i..i + |x|] == x && Flatten(rest) == cps[i + |x|..]
    ensures RunEnd(cps, i) == i + |x| - 1
  {
    var e := i + |x| - 1;
    assert cps[i..][..|x|] == x;
    assert cps[i..e + 1] == x;
    assert cps[i..][|x|..] == Flatten(rest);
    assert cps[e + 1..] == Flatten(rest);
    forall j | i <= j < e ensures !IsBoundary(cps, j) {
      assert cps[j] == x[j - i] && cps[j + 1] == x[j - i + 1];
    }
    if rest == [] {
      assert e == |cps| - 1;
    } else {
      FlattenCons(rest[0], rest[1..]);
      assert rest == [rest[0]] + rest[1..];
      assert cps[e + 1] == rest[0][0];
    }
    RunEndIs(cps, i, e);
  }

  /** When the run starting at i closes at e, appending the subpaths of the
      runs from i is appending the subpath of cps[i..e + 1], then the subpaths
      of the runs from e + 1. */
  lemma {:induction false} AppendRunsStep(cps: seq<Vec2>, i: nat, e: nat, path: seq<Vec2>, kind: CurveType, approx: Approximators)
    requires i <= e < |cps| && IsBoundary(cps, e) && RunEnd(cps, i) >= e
    ensures AppendAll(path, Subpaths(RunsFrom(cps, i), kind, |cps|, approx)) ==
            AppendAll(AppendDistinct(path, Subpath(kind, |cps|, cps[i..e + 1], approx)),
                      Subpaths(RunsFrom(cps, e + 1), kind, |cps|, approx))
  {
    var rest := RunsFrom(cps, e + 1);
    assert RunsFrom(cps, i) == [cps[i..e + 1]] + rest;
    assert ([cps[i..e + 1]] + rest)[1..] == rest;
    var sp := Subpaths(RunsFrom(cps, i), kind, |cps|, approx);
    assert sp[1..] == Subpaths(rest, kind, |cps|, approx);
  }

  lemma {:induction false} RunsFromStep(cps: seq<Vec2>, i: nat, x: seq<Vec2>)
    requires i < |cps| && x != [] && i + |x| <= |cps|
    requires RunEnd(cps, i) == i + |x| - 1 && cps[i..i + |x|] == x
    ensures RunsFrom(cps, i) == [x] + RunsFrom(cps, i + |x|)
  {
    assert cps[i..RunEnd(cps, i) + 1] == x;
  }

  /** CalculatePath's loop as written, from index i with the pending run
      `sub` and the path built so far: each control point joins the pending
      run, and at a boundary the run's subpath is appended with the skip and
      a new run begins. */
  function BuildFrom(cps: seq<Vec2>, i: nat, sub: seq<Vec2>, path: seq<Vec2>, kind: CurveType, approx: Approximators): (r: seq<Vec2>)
    requires i <= |cps|
    ensures NoAdjacentDuplicates(path) ==> NoAdjacentDuplicates(r)
    decreases |cps| - i
  {
    if i == |cps| then path
    else
      var run := sub + [cps[i]];
      if i == |cps| - 1 || cps[i] == cps[i + 1] then
        BuildFrom(cps, i + 1, [], AppendDistinct(path, Subpath(kind, |cps|, run, approx)), kind, approx)
      else BuildFrom(cps, i + 1, run, path, kind, approx)
  }

  lemma {:induction false} SliceJoin<T>(s: seq<T>, i: nat, j: nat)
    requires i <= j <= |s|
    ensures s[i..j] + s[j..] == s[i..]
  {
  }

  lemma {:induction false} SliceGrows(cps: seq<Vec2>, start: nat, i: nat)
    requires start <= i < |cps|
    ensures cps[start..i] + [cps[i]] == cps[start..i + 1] && cps[i + 1..i + 1] == []
  {
  }

  /** Midway through the loop, what is left to build is the subpaths of the
      runs from the start of the pending run. */
  lemma {:induction false} BuildFromRuns(cps: seq<Vec2>, start: nat, i: nat, sub: seq<Vec2>, path: seq<Vec2>,
                                         kind: CurveType, approx: Approximators)
    requires start <= i <= |cps| && sub == cps[start..i]
    requires start < |cps| ==> RunEnd(cps, start) >= i
    ensures BuildFrom(cps, i, sub, path, kind, approx) == AppendAll(path, Subpaths(RunsFrom(cps, start), kind, |cps|, approx))
    decreases |cps| - i
  {
    if i < |cps| {
      SliceGrows(cps, start, i);
      if IsBoundary(cps, i) {
        AppendRunsStep(cps, start, i, path, kind, approx);
        BuildFromRuns(cps, i + 1, i + 1, [], AppendDistinct(path, Subpath(kind, |cps|, cps[start..i + 1], approx)), kind, approx);
      } else {
        BuildFromRuns(cps, start, i + 1, cps[start..i + 1], path, kind, approx);
      }
    }
  }

  /** The loop as written builds the path of the reference definition. */
  lemma {:induction false} BuildIsCurvePath(cps: seq<Vec2>, kind: CurveType, approx: Approximators)
    ensures BuildFrom(cps, 0, [], [], kind, approx) == CurvePath(cps, kind, approx)
  {
    BuildFromRuns(cps, 0, 0, [], [], kind, approx);
  }

  /** Every partition with the properties of RunsPartition is the one
      CalculatePath builds: each control point belongs to exactly one run. */
  lemma {:induction false} RunsUnique(cps: seq<Vec2>, i: nat, runs: seq<seq<Vec2>>)
    requires i <= |cps|
    requires Flatten(runs) == cps[i..]
    requires forall k :: 0 <= k < |runs| ==> runs[k] != [] && NoAdjacentDuplicates(runs[k])
    requires forall k :: 0 <= k < |runs| - 1 ==> Last(runs[k]) == runs[k + 1][0]
    ensures runs == RunsFrom(cps, i)
    decreases |runs|
  {
    if runs == [] {
      assert |cps[i..]| == 0;
    } else {
      RunsHead(cps, i, runs);
      RunsUnique(cps, i + |runs[0]|, runs[1..]);
      RunsFromCons(cps, i, runs);
    }
  }

  /** The first run of a partition of cps[i..] is the run RunsFrom starts
      with, and the other runs partition what follows it. */
  lemma {:induction false} RunsHead(cps: seq<Vec2>, i: nat, runs: seq<seq<Vec2>>)
    requires i <= |cps| && runs != []
    requires Flatten(runs) == cps[i..]
    requires forall k :: 0 <= k < |runs| ==> runs[k] != [] && NoAdjacentDuplicates(runs[k])
    requires forall k :: 0 <= k < |runs| - 1 ==> Last(runs[k]) == runs[k + 1][0]
    ensures i < |cps| && runs[0] != [] && i + |runs[0]| <= |cps|
    ensures RunEnd(cps, i) == i + |runs[0]| - 1 && cps[i..i + |runs[0]|] == runs[0]
    ensures Flatten(runs[1..]) == cps[i + |runs[0]|..]
    ensures forall k :: 0 <= k < |runs[1..]| ==> runs[1..][k] != [] && NoAdjacentDuplicates(runs[1..][k])
    ensures forall k :: 0 <= k < |runs[1..]| - 1 ==> Last(runs[1..][k]) == runs[1..][k + 1][0]
  {
    var x := runs[0];
    var rest := runs[1..];
    RunsTail(runs);
    assert Flatten(runs) == x + Flatten(rest);
    FirstRunCloses(cps, i, x, rest);
  }

  lemma {:induction false} RunsFromCons(cps: seq<Vec2>, i: nat, runs: seq<seq<Vec2>>)
    requires i < |cps| && runs != [] && runs[0] != [] && i + |runs[0]| <= |cps|
    requires RunEnd(cps, i) == i + |runs[0]| - 1 && cps[i..i + |runs[0]|] == runs[0]
    requires runs[1..] == RunsFrom(cps, i + |runs[0]|)
    ensures runs == RunsFrom(cps, i)
  {
    RunsFromStep(cps, i, runs[0]);
    assert runs == [runs[0]] + runs[1..];
  }

  /** The runs after the first keep the properties of a partition. */
  lemma {:induction false} RunsTail(runs: seq<seq<Vec2>>)
    requires runs != []
    requires forall k :: 0 <= k < |runs| ==> runs[k] != [] && NoAdjacentDuplicates(runs[k])
    requires forall k :: 0 <= k < |runs| - 1 ==> Last(runs[k]) == runs[k + 1][0]
    ensures runs[1..] != [] ==> runs[1..][0] != [] && Last(runs[0]) == runs[1..][0][0]
    ensures forall k :: 0 <= k < |runs[1..]| ==> runs[1..][k] != [] && NoAdjacentDuplicates(runs[1..][k])
    ensures forall k :: 0 <= k < |runs[1..]| - 1 ==> Last(runs[1..][k]) == runs[1..][k + 1][0]
  {
    var rest := runs[1..];
    assert forall k :: 0 <= k < |rest| ==> rest[k] == runs[k + 1];
  }

  /** The polylines of a list of runs. */
  function Subpaths(runs: seq<seq<Vec2>>, kind: CurveType, controlCount: nat, approx: Approximators): (r: seq<seq<Vec2>>)
    ensures |r| == |runs|
    ensures forall k :: 0 <= k < |runs| ==> r[k] == Subpath(kind, controlCount, runs[k], approx)
    decreases |runs|
  {
    if runs == [] then []
    else [Subpath(kind, controlCount, runs[0], approx)] + Subpaths(runs[1..], kind, controlCount, approx)
  }

  /** Appends a list of polylines one after the other, with the skip of
      AppendDistinct at every point. */
  function AppendAll(path: seq<Vec2>, subpaths: seq<seq<Vec2>>): (r: seq<Vec2>)
    ensures NoAdjacentDuplicates(path) ==> NoAdjacentDuplicates(r)
    decreases |subpaths|
  {
    if subpaths == [] then path
    else AppendAll(AppendDistinct(path, subpaths[0]), subpaths[1..])
  }

  /** The calculated path of a slider (CalculatePath), before trimming. */
  function CurvePath(cps: seq<Vec2>, kind: CurveType, approx: Approximators): (r: seq<Vec2>)
    ensures NoAdjacentDuplicates(r)
  {
    AppendAll([], Subpaths(Runs(cps), kind, |cps|, approx))
  }

  lemma {:induction false} AppendAllCollapses(s: seq<Vec2>, subpaths: seq<seq<Vec2>>)
    ensures AppendAll(Collapse(s), subpaths) == Collapse(s + Flatten(subpaths))
    decreases |subpaths|
  {
    if subpaths == [] {
      assert s + Flatten(subpaths) == s;
    } else {
      var h, t := subpaths[0], subpaths[1..];
      var u := s + h;
      assert u + Flatten(t) == s + Flatten(subpaths) by {
        assert Flatten(subpaths) == h + Flatten(t);
      }
      calc {
        AppendAll(Collapse(s), subpaths);
        AppendAll(AppendDistinct(Collapse(s), h), t);
        { AppendDistinctCollapses(s, h); }
        AppendAll(Collapse(u), t);
        { AppendAllCollapses(u, t); }
        Collapse(u + Flatten(t));
      }
    }
  }

  /** The calculated path is the concatenation of the subpaths of all runs,
      in order, with every point equal to its predecessor dropped. */
  lemma {:induction false} CurvePathIsCollapsedSubpaths(cps: seq<Vec2>, kind: CurveType, approx: Approximators)
    ensures CurvePath(cps, kind, approx) == Collapse(Flatten(Subpaths(Runs(cps), kind, |cps|, approx)))
  {
    AppendAllCollapses([], Subpaths(Runs(cps), kind, |cps|, approx));
    assert [] + Flatten(Subpaths(Runs(cps), kind, |cps|, approx)) == Flatten(Subpaths(Runs(cps), kind, |cps|, approx));
  }

  lemma {:induction false} SubpathsLinear(runs: seq<seq<Vec2>>, controlCount: nat, approx: Approximators)
    ensures Subpaths(runs, Linear, controlCount, approx) == runs
  {
    var r := Subpaths(runs, Linear, controlCount, approx);
    assert forall k :: 0 <= k < |runs| ==> r[k] == runs[k];
  }

  /** A Linear curve follows its control points verbatim, a repeated control
      point appearing once; with no repeats the path is the control points. */
  lemma {:induction false} LinearPathIsControlPoints(cps: seq<Vec2>, approx: Approximators)
    ensures CurvePath(cps, Linear, approx) == Collapse(cps)
    ensures NoAdjacentDuplicates(cps) ==> CurvePath(cps, Linear, approx) == cps
  {
    CurvePathIsCollapsedSubpaths(cps, Linear, approx);
    SubpathsLinear(Runs(cps), |cps|, approx);
    RunsPartition(cps);
  }

  /** The circular arc applies only to a slider of exactly three distinct
      consecutive control points whose arc is not empty. */
  predicate ArcApplies(cps: seq<Vec2>, approx: Approximators) {
    |cps| == 3 && cps[0] != cps[1] && cps[1] != cps[2] && approx.circularArc(cps[0], cps[1], cps[2]) != []
  }

  lemma {:induction false} FlattenLength(runs: seq<seq<Vec2>>, k: nat)
    requires k < |runs|
    requires forall j :: 0 <= j < |runs| ==> runs[j] != []
    ensures |runs[k]| + |runs| - 1 <= |Flatten(runs)|
    decreases |runs|
  {
    if k > 0 {
      FlattenLength(runs[1..], k - 1);
    } else if |runs| > 1 {
      FlattenLength(runs[1..], 0);
    }
  }

  /** Without a single three-point run, a PerfectCurve is approximated exactly
      as a Bezier curve; with one, its path is the collapsed arc. */
  lemma {:induction false} PerfectCurveFallback(cps: seq<Vec2>, approx: Approximators)
    ensures CurvePath(cps, PerfectCurve, approx) ==
            if ArcApplies(cps, approx) then Collapse(approx.circularArc(cps[0], cps[1], cps[2]))
            else CurvePath(cps, Bezier, approx)
  {
    var runs := Runs(cps);
    RunsPartition(cps);
    if ArcApplies(cps, approx) {
      assert NoAdjacentDuplicates(cps);
      RunsUnique(cps, 0, [cps]);
      assert runs == [cps];
      assert Subpaths(runs, PerfectCurve, 3, approx) == [approx.circularArc(cps[0], cps[1], cps[2])];
      CurvePathIsCollapsedSubpaths(cps, PerfectCurve, approx);
      var arc := approx.circularArc(cps[0], cps[1], cps[2]);
      FlattenCons(arc, []);
      assert [arc] + [] == [arc] && arc + [] == arc;
    } else {
      forall k | 0 <= k < |runs|
        ensures Subpath(PerfectCurve, |cps|, runs[k], approx) == approx.bezier(runs[k])
      {
        if |cps| == 3 && |runs[k]| == 3 {
          FlattenLength(runs, k);
          assert |runs| == 1;
          assert runs == [runs[0]] + [];
          FlattenCons(runs[0], []);
          assert runs[0] == cps;
        }
      }
      var pc := Subpaths(runs, PerfectCurve, |cps|, approx);
      var bz := Subpaths(runs, Bezier, |cps|, approx);
      assert pc == bz;
    }
  }
}
