/** Points on the trimmed path: progress to distance, the binary search of
    the cumulative length table, interpolation between the two bracketing
    vertices, and the window of the path that GetPath emits. */
module Progress {
  import opened Geometry
  import opened Repeats
  import opened ArcLength

  /** ProgressToLength: progress clamped to [0, 1], times the length. */
  function ProgressToLength(progress: real, length: real): (d: real)
    ensures length >= 0.0 ==> 0.0 <= d <= length
    ensures progress <= 0.0 ==> d == 0.0
    ensures progress >= 1.0 ==> d == length
    ensures 0.0 <= progress <= 1.0 ==> d == progress * length
  {
    var c := RMax(RMin(progress, 1.0), 0.0);
    assert length >= 0.0 ==> c * length <= length by {
      if length >= 0.0 {
        ScaleBelowOne(c, length);
      }
    }
    c * length
  }

  lemma {:induction false} ScaleBelowOne(c: real, length: real)
    requires 0.0 <= c <= 1.0 && length >= 0.0
    ensures 0.0 <= c * length <= length
  {
    assert (1.0 - c) * length >= 0.0;
  }

  /** List.BinarySearch over entries lo..hi: the index of an entry equal to
      d, or else the bitwise complement (-p - 1) of an insertion point p whose
      neighbours inside the range bracket d. */
  function SearchRange(t: seq<real>, d: real, lo: int, hi: int): (r: int)
    requires 0 <= lo <= hi + 1 <= |t|
    ensures r >= 0 ==> lo <= r <= hi && t[r] == d
    ensures r < 0 ==> lo <= -r - 1 <= hi + 1
    ensures r < 0 && lo < -r - 1 ==> t[-r - 2] < d
    ensures r < 0 && -r - 1 <= hi ==> d < t[-r - 1]
    decreases hi - lo + 1
  {
    if lo > hi then -lo - 1
    else
      var mid := Midpoint(lo, hi);
      if t[mid] == d then mid
      else if t[mid] < d then SearchRange(t, d, mid + 1, hi)
      else SearchRange(t, d, lo, mid - 1)
  }

  /** The probe of List.BinarySearch: lo + (hi - lo) / 2, rounded down. */
  function Midpoint(lo: int, hi: int): (m: int)
    requires lo <= hi
    ensures lo <= m <= hi
  {
    lo + (hi - lo) / 2
  }

  function BinarySearch(t: seq<real>, d: real): int {
    SearchRange(t, d, 0, |t| - 1)
  }

  /** On a non-decreasing table the search finds d exactly when d is an entry. */
  lemma {:induction false} BinarySearchFinds(t: seq<real>, d: real)
    requires NonDecreasing(t)
    ensures BinarySearch(t, d) >= 0 <==> d in t
  {
  }

  /** IndexOfLength: the search result, with a miss turned into its
      insertion point. The entry at the index is d itself, or the index
      lies between an entry below d and an entry above it. */
  function IndexOfLength(t: seq<real>, d: real): (i: nat)
    ensures i <= |t|
    ensures (i < |t| && t[i] == d) || ((0 < i ==> t[i - 1] < d) && (i < |t| ==> d < t[i]))
  {
    var r := BinarySearch(t, d);
    if r < 0 then -r - 1 else r
  }

  /** On a non-decreasing table the index brackets d: the entries before it
      are at most d and the entry at it is at least d. */
  lemma {:induction false} IndexOfLengthBrackets(t: seq<real>, d: real)
    requires NonDecreasing(t)
    ensures IndexOfLength(t, d) < |t| ==> t[IndexOfLength(t, d)] >= d
    ensures forall k :: 0 <= k < IndexOfLength(t, d) ==> t[k] <= d
  {
    var i := IndexOfLength(t, d);
    forall k | 0 <= k < i ensures t[k] <= d {
      assert t[k] <= t[i - 1];
    }
  }

  /** On a strictly increasing table the index is unique: any index with the
      property of IndexOfLength is the one it returns. */
  lemma {:induction false} IndexOfLengthUnique(t: seq<real>, d: real, i: nat)
    requires Increasing(t)
    requires i <= |t|
    requires (i < |t| && t[i] == d) || ((0 < i ==> t[i - 1] < d) && (i < |t| ==> d < t[i]))
    ensures IndexOfLength(t, d) == i
  {
    var j := IndexOfLength(t, d);
  }

  /** InterpolateVertices: the point at distance d, between vertices i - 1
      and i, with the fallbacks for an empty path, an index outside the path
      and a segment of length zero. */
  function InterpolateVertices(path: seq<Vec2>, table: seq<real>, i: int, d: real): (r: Vec2)
    requires |table| >= |path|
    ensures |path| == 0 ==> r == Zero
    ensures |path| > 0 && i <= 0 ==> r == path[0]
    ensures |path| > 0 && i >= |path| ==> r == Last(path)
    ensures 0 < i < |path| && table[i - 1] == table[i] ==> r == path[i - 1]
    ensures 0 < i < |path| && d == table[i - 1] ==> r == path[i - 1]
    ensures 0 < i < |path| && table[i - 1] != table[i] && d == table[i] ==> r == path[i]
  {
    if |path| == 0 then Zero
    else if i <= 0 then path[0]
    else if i >= |path| then Last(path)
    else
      var d0 := table[i - 1];
      var d1 := table[i];
      if d0 == d1 then path[i - 1]
      else
        LerpEnds(path[i - 1], path[i]);
        assert d == d1 ==> (d - d0) / (d1 - d0) == 1.0;
        Lerp(path[i - 1], path[i], (d - d0) / (d1 - d0))
  }

  lemma {:induction false} FractionBounds(a: real, b: real)
    requires 0.0 <= a <= b && b > 0.0
    ensures 0.0 <= a / b <= 1.0
  {
    assert a / b * b == a;
  }

  /** A distance between the two bracketing entries gives a point on the
      segment between the two vertices, at a fraction w of the way. */
  lemma {:induction false} InterpolateOnSegment(path: seq<Vec2>, table: seq<real>, i: int, d: real) returns (w: real)
    requires |table| >= |path|
    requires 0 < i < |path| && table[i - 1] <= d <= table[i]
    ensures 0.0 <= w <= 1.0
    ensures InterpolateVertices(path, table, i, d) == Lerp(path[i - 1], path[i], w)
  {
    var d0, d1 := table[i - 1], table[i];
    if d0 == d1 {
      LerpEnds(path[i - 1], path[i]);
      w := 0.0;
    } else {
      w := (d - d0) / (d1 - d0);
      FractionBounds(d - d0, d1 - d0);
    }
  }

  /** GetPath's first walk: from i, the first index that is past the path or
      whose entry is not below d. */
  function FirstNotBelow(table: seq<real>, n: nat, d: real, i: nat): (r: nat)
    requires i <= n <= |table|
    ensures i <= r <= n
    ensures forall k :: i <= k < r ==> table[k] < d
    ensures r < n ==> table[r] >= d
    decreases n - i
  {
    if i < n && table[i] < d then FirstNotBelow(table, n, d, i + 1) else i
  }

  /** GetPath's second walk: from i, the first index that is past the path or
      whose entry is above d. */
  function FirstAbove(table: seq<real>, n: nat, d: real, i: nat): (r: nat)
    requires i <= n <= |table|
    ensures i <= r <= n
    ensures forall k :: i <= k < r ==> table[k] <= d
    ensures r < n ==> table[r] > d
    decreases n - i
  {
    if i < n && table[i] <= d then FirstAbove(table, n, d, i + 1) else i
  }

  lemma {:induction false} FirstAboveIs(table: seq<real>, n: nat, d: real, i: nat, k: nat)
    requires i <= k <= n <= |table|
    requires forall j :: i <= j < k ==> table[j] <= d
    requires k < n ==> table[k] > d
    ensures FirstAbove(table, n, d, i) == k
  {
    var r := FirstAbove(table, n, d, i);
  }

  /** The points GetPath emits between distances d0 and d1 before repeats
      are removed: the interpolated start, the vertices whose entries lie in
      the window, and the interpolated end. */
  function WindowPoints(path: seq<Vec2>, table: seq<real>, d0: real, d1: real): (w: seq<Vec2>)
    requires |table| >= |path|
    ensures |w| >= 2
  {
    var i0 := FirstNotBelow(table, |path|, d0, 0);
    var i1 := FirstAbove(table, |path|, d1, i0);
    [InterpolateVertices(path, table, i0, d0)] + path[i0..i1] + [InterpolateVertices(path, table, i1, d1)]
  }

  /** GetPath on a computed path and table: the window between progress 0
      and progress 1 with repeats removed. */
  function PathWindow(path: seq<Vec2>, table: seq<real>, length: real): seq<Vec2>
    requires |table| >= |path|
  {
    DropRepeats(WindowPoints(path, table, ProgressToLength(0.0, length), ProgressToLength(1.0, length)))
  }

  /** PositionAt on a computed path and table. */
  function PointAt(path: seq<Vec2>, table: seq<real>, length: real, progress: real): Vec2
    requires |table| >= |path|
  {
    var d := ProgressToLength(progress, length);
    InterpolateVertices(path, table, IndexOfLength(table, d), d)
  }

  /** The window has at least two points, begins and ends at its interpolated
      ends, and repeats a point only when it is exactly two equal points. */
  lemma {:induction false} PathWindowShape(path: seq<Vec2>, table: seq<real>, length: real)
    requires |table| >= |path|
    ensures |PathWindow(path, table, length)| >= 2
    ensures PathWindow(path, table, length)[0] == WindowPoints(path, table, ProgressToLength(0.0, length), ProgressToLength(1.0, length))[0]
    ensures Last(PathWindow(path, table, length)) == Last(WindowPoints(path, table, ProgressToLength(0.0, length), ProgressToLength(1.0, length)))
    ensures NoAdjacentDuplicates(PathWindow(path, table, length)) ||
            (|PathWindow(path, table, length)| == 2 && PathWindow(path, table, length)[0] == PathWindow(path, table, length)[1])
  {
    var s := WindowPoints(path, table, ProgressToLength(0.0, length), ProgressToLength(1.0, length));
    var w := PathWindow(path, table, length);
    if !NoAdjacentDuplicates(w) {
      assert |Collapse(s)| < 2;
      assert w[1] == Last(w) == Last(s) == s[0];
    }
  }

  lemma {:induction false} WindowPointsEnds(path: seq<Vec2>, table: seq<real>, d0: real, d1: real)
    requires |table| >= |path|
    ensures WindowPoints(path, table, d0, d1)[0] == InterpolateVertices(path, table, FirstNotBelow(table, |path|, d0, 0), d0)
    ensures Last(WindowPoints(path, table, d0, d1)) ==
            InterpolateVertices(path, table, FirstAbove(table, |path|, d1, FirstNotBelow(table, |path|, d0, 0)), d1)
  {
  }

  /** On a table that starts at zero and increases, distance zero is found
      at index zero by both the search and GetPath's first walk. */
  lemma {:induction false} ZeroAtStart(table: seq<real>, n: nat)
    requires n <= |table| && |table| >= 1 && table[0] == 0.0 && Increasing(table)
    ensures IndexOfLength(table, 0.0) == 0
    ensures FirstNotBelow(table, n, 0.0, 0) == 0
  {
    IndexOfLengthUnique(table, 0.0, 0);
  }

  /** On an increasing table the search and GetPath's second walk land on
      indices that interpolate to the same point. */
  lemma {:induction false} SearchMeetsWalk(path: seq<Vec2>, table: seq<real>, d: real)
    requires |path| >= 1 && |table| == |path| && Increasing(table)
    ensures InterpolateVertices(path, table, IndexOfLength(table, d), d) ==
            InterpolateVertices(path, table, FirstAbove(table, |path|, d, 0), d)
  {
    var n := |path|;
    var k := IndexOfLength(table, d);
    if k < n && table[k] == d {
      forall j | 0 <= j < k + 1 ensures table[j] <= d {
        if j < k { assert table[j] < table[k]; }
      }
      if k + 1 < n {
        assert table[k + 1] > table[k];
      }
      FirstAboveIs(table, n, d, 0, k + 1);
      if 0 < k {
        assert table[k - 1] != table[k];
      }
    } else {
      forall j | 0 <= j < k ensures table[j] <= d {
        assert table[j] <= table[k - 1];
      }
      FirstAboveIs(table, n, d, 0, k);
    }
  }

  /** For a table that starts at zero and increases, PositionAt(0) is the
      first point of the window and PositionAt(1) its last. */
  lemma {:induction false} WindowEndsArePositions(path: seq<Vec2>, table: seq<real>, length: real)
    requires |table| == Max(1, |path|) && table[0] == 0.0 && Increasing(table)
    ensures PointAt(path, table, length, 0.0) == PathWindow(path, table, length)[0]
    ensures PointAt(path, table, length, 1.0) == Last(PathWindow(path, table, length))
  {
    PathWindowShape(path, table, length);
    var d0 := ProgressToLength(0.0, length);
    var d1 := ProgressToLength(1.0, length);
    assert d0 == 0.0 && d1 == length;
    WindowPointsEnds(path, table, d0, d1);
    ZeroAtStart(table, |path|);
    if |path| > 0 {
      SearchMeetsWalk(path, table, length);
    }
  }

  /** When the table ends exactly at the length and the path has no repeated
      neighbours, the window is the whole path. */
  lemma {:induction false} WindowIsWholePath(path: seq<Vec2>, table: seq<real>, length: real)
    requires |path| >= 2 && |table| == |path| && NoAdjacentDuplicates(path)
    requires table[0] == 0.0 && Increasing(table) && Last(table) == length
    ensures PathWindow(path, table, length) == path
  {
    var n := |path|;
    var d0 := ProgressToLength(0.0, length);
    var d1 := ProgressToLength(1.0, length);
    assert d0 == 0.0 && d1 == length;
    ZeroAtStart(table, n);
    forall j | 0 <= j < n ensures table[j] <= length {
      if j < n - 1 { assert table[j] < table[n - 1]; }
    }
    FirstAboveIs(table, n, length, 0, n);
    var s := WindowPoints(path, table, d0, d1);
    assert s == [path[0]] + path + [path[n - 1]];
    CollapseFramed(path);
  }
}
