/** Arc length of the calculated path: the cumulative length table, the
    snap-quantised target length, and the extension of the last segment up
    to that target (CalculateCumulativeLengthAndTrimPath). */
module ArcLength {
  import opened Geometry
  import opened Repeats

  predicate NonDecreasing(t: seq<real>) {
    forall i, j :: 0 <= i <= j < |t| ==> t[i] <= t[j]
  }

  predicate Increasing(t: seq<real>) {
    forall i, j :: 0 <= i < j < |t| ==> t[i] < t[j]
  }

  lemma {:induction false} NonDecreasingFromSteps(t: seq<real>)
    requires forall k :: 0 < k < |t| ==> t[k - 1] <= t[k]
    ensures NonDecreasing(t)
    decreases |t|
  {
    if |t| > 1 {
      var p := t[..|t| - 1];
      NonDecreasingFromSteps(p);
      assert forall i :: 0 <= i < |p| ==> p[i] == t[i];
      forall i | 0 <= i < |t| - 1 ensures t[i] <= t[|t| - 1] {
        assert t[i] <= t[|t| - 2];
      }
    }
  }

  lemma {:induction false} IncreasingFromSteps(t: seq<real>)
    requires forall k :: 0 < k < |t| ==> t[k - 1] < t[k]
    ensures Increasing(t)
    decreases |t|
  {
    if |t| > 1 {
      var p := t[..|t| - 1];
      IncreasingFromSteps(p);
      assert forall i :: 0 <= i < |p| ==> p[i] == t[i];
      forall i | 0 <= i < |t| - 1 ensures t[i] < t[|t| - 1] {
        assert t[i] <= t[|t| - 2];
      }
    }
  }

  /** The cumulative length table: one entry per vertex (one entry for an
      empty path), starting at zero, each entry the previous one plus the
      length of the segment that ends at its vertex. */
  function CumulativeLengths(path: seq<Vec2>, magnitude: Vec2 -> real): (t: seq<real>)
    ensures |t| == Max(1, |path|)
    ensures t[0] == 0.0
    ensures forall k :: 0 < k < |t| ==> t[k] == t[k - 1] + magnitude(Sub(path[k], path[k - 1]))
    decreases |path|
  {
    if |path| <= 1 then [0.0]
    else
      var t := CumulativeLengths(path[..|path| - 1], magnitude);
      t + [Last(t) + magnitude(Sub(path[|path| - 1], path[|path| - 2]))]
  }

  /** With non-negative segment lengths the table never decreases. */
  lemma {:induction false} CumulativeNonDecreasing(path: seq<Vec2>, magnitude: Vec2 -> real)
    requires NonNegative(magnitude)
    ensures NonDecreasing(CumulativeLengths(path, magnitude))
    ensures Last(CumulativeLengths(path, magnitude)) >= 0.0
  {
    var t := CumulativeLengths(path, magnitude);
    NonDecreasingFromSteps(t);
  }

  lemma {:induction false} RawLengthNonNegative(path: seq<Vec2>, magnitude: Vec2 -> real)
    ensures NonNegative(magnitude) ==> Last(CumulativeLengths(path, magnitude)) >= 0.0
  {
    if NonNegative(magnitude) {
      CumulativeNonDecreasing(path, magnitude);
    }
  }

  /** A path without repeated neighbours has a strictly increasing table. */
  lemma {:induction false} CumulativeIncreasing(path: seq<Vec2>, magnitude: Vec2 -> real)
    requires NonNegative(magnitude) && Definite(magnitude)
    requires NoAdjacentDuplicates(path)
    ensures Increasing(CumulativeLengths(path, magnitude))
  {
    var t := CumulativeLengths(path, magnitude);
    forall k | 0 < k < |t| ensures t[k - 1] < t[k] {
      SubIsZero(path[k], path[k - 1]);
    }
    IncreasingFromSteps(t);
  }

  /** Rounds toward zero. */
  function Truncate(x: real): int {
    if x >= 0.0 then x.Floor else -((-x).Floor)
  }

  /** C#'s `%` on floating-point operands: the remainder of the division
      truncated toward zero. */
  function FloatRemainder(x: real, y: real): real
    requires y != 0.0
  {
    x - y * (Truncate(x / y) as real)
  }

  /** The derived length: the raw length minus its remainder modulo the
      length of one beat snap. */
  function SnapLength(length: real, lengthPerSnap: real): real
    requires lengthPerSnap != 0.0
  {
    length - FloatRemainder(length, lengthPerSnap)
  }

  /** For a non-negative raw length the remainder is non-negative and below
      the divisor, so the derived length is a whole number of snaps, at most
      the raw length and less than one snap short of it. */
  lemma {:induction false} SnapLengthQuantises(length: real, lengthPerSnap: real)
    requires length >= 0.0 && lengthPerSnap > 0.0
    ensures 0.0 <= FloatRemainder(length, lengthPerSnap) < lengthPerSnap
    ensures 0.0 <= SnapLength(length, lengthPerSnap) <= length < SnapLength(length, lengthPerSnap) + lengthPerSnap
    ensures (SnapLength(length, lengthPerSnap) / lengthPerSnap).Floor as real == SnapLength(length, lengthPerSnap) / lengthPerSnap
  {
    var y := lengthPerSnap;
    var q := length / y;
    var m := q.Floor as real;
    assert Truncate(q) == q.Floor;
    var snap := y * m;
    assert FloatRemainder(length, y) == length - snap;
    assert SnapLength(length, y) == snap;
    assert y * q == length;
    assert 0.0 <= m <= q < m + 1.0;
    ScaleMonotone(y, m, q);
    ScaleStrict(y, q, m + 1.0);
    calc {
      length;
      == y * q;
      < y * (m + 1.0);
      == snap + y;
    }
    assert FloatRemainder(length, y) < y;
    assert snap / y == m;
  }

  lemma {:induction false} ScaleMonotone(y: real, a: real, b: real)
    requires y > 0.0 && a <= b
    ensures y * a <= y * b
  {
  }

  lemma {:induction false} ScaleStrict(y: real, a: real, b: real)
    requires y > 0.0 && a < b
    ensures y * a < y * b
  {
  }

  /** No whole number of snaps that fits in the raw length exceeds the
      derived length. */
  lemma {:induction false} SnapLengthGreatest(length: real, lengthPerSnap: real, k: int)
    requires length >= 0.0 && lengthPerSnap > 0.0
    requires (k as real) * lengthPerSnap <= length
    ensures (k as real) * lengthPerSnap <= SnapLength(length, lengthPerSnap)
  {
    var y := lengthPerSnap;
    var q := length / y;
    var n := q.Floor;
    assert Truncate(q) == n;
    assert SnapLength(length, y) == y * (n as real);
    assert y * q == length;
    if (k as real) > q {
      ScaleStrict(y, q, k as real);
      assert false;
    }
    assert k <= n;
    ScaleMonotone(y, k as real, n as real);
  }

  /** A raw length of 150 with 35 per snap is derived as 140. */
  lemma {:induction false} SnapLengthExample()
    ensures SnapLength(150.0, 35.0) == 140.0
  {
    assert (150.0 / 35.0).Floor == 4;
  }

  /** The target length: kept when set, otherwise derived by snapping the
      raw length of the path. */
  function ResolveLength(length: real, path: seq<Vec2>, magnitude: Vec2 -> real, lengthPerSnap: real): (r: real)
    requires length == 0.0 ==> lengthPerSnap != 0.0
    ensures length != 0.0 ==> r == length
    ensures length == 0.0 && lengthPerSnap > 0.0 && NonNegative(magnitude) ==>
              0.0 <= r <= Last(CumulativeLengths(path, magnitude)) < r + lengthPerSnap
  {
    if length == 0.0 then
      var raw := Last(CumulativeLengths(path, magnitude));
      assert lengthPerSnap > 0.0 && NonNegative(magnitude) ==>
               0.0 <= SnapLength(raw, lengthPerSnap) <= raw < SnapLength(raw, lengthPerSnap) + lengthPerSnap by {
        if lengthPerSnap > 0.0 && NonNegative(magnitude) {
          RawLengthNonNegative(path, magnitude);
          SnapLengthQuantises(raw, lengthPerSnap);
        }
      }
      SnapLength(raw, lengthPerSnap)
    else length
  }

  datatype Trimmed = Trimmed(path: seq<Vec2>, table: seq<real>)

  /** The extension applies: the path is shorter than the target, has a last
      segment, and that segment has a direction to extend along. */
  predicate Extends(path: seq<Vec2>, target: real, magnitude: Vec2 -> real) {
    |path| > 1 &&
    Last(CumulativeLengths(path, magnitude)) < target &&
    magnitude(Sub(path[|path| - 1], path[|path| - 2])) > 0.0
  }

  /** The path and table after trimming: only the last vertex and the last
      entry can change, and when the extension applies the table ends at the
      target exactly. */
  function TrimToLength(path: seq<Vec2>, target: real, magnitude: Vec2 -> real): (r: Trimmed)
    ensures |r.path| == |path| && |r.table| == Max(1, |path|)
    ensures forall k :: 0 <= k < |path| - 1 ==> r.path[k] == path[k]
    ensures forall k :: 0 <= k < |r.table| - 1 ==> r.table[k] == CumulativeLengths(path, magnitude)[k]
    ensures Extends(path, target, magnitude) ==> Last(r.table) == target
    ensures Extends(path, target, magnitude) ==>
              exists s {:trigger Scale(Sub(path[|path| - 1], path[|path| - 2]), s)} ::
                s > 0.0 && r.path[|path| - 1] == Add(path[|path| - 1], Scale(Sub(path[|path| - 1], path[|path| - 2]), s))
    ensures !Extends(path, target, magnitude) ==> r == Trimmed(path, CumulativeLengths(path, magnitude))
  {
    var t := CumulativeLengths(path, magnitude);
    var n := |path|;
    var l := Last(t);
    if l < target && n > 1 then
      var diff := Sub(path[n - 1], path[n - 2]);
      var d := magnitude(diff);
      if d <= 0.0 then Trimmed(path, t)
      else
        assert (target - l) / d > 0.0;
        Trimmed(path[n - 1 := Add(path[n - 1], Scale(diff, (target - l) / d))], t[n - 1 := target])
    else Trimmed(path, t)
  }

  /** Two paths that agree up to vertex k have the same table up to entry k. */
  lemma {:induction false} CumulativePrefix(p: seq<Vec2>, q: seq<Vec2>, magnitude: Vec2 -> real, k: nat)
    requires k < |p| && k < |q|
    requires forall j :: 0 <= j <= k ==> p[j] == q[j]
    ensures CumulativeLengths(p, magnitude)[k] == CumulativeLengths(q, magnitude)[k]
  {
    if k > 0 {
      var tp, tq := CumulativeLengths(p, magnitude), CumulativeLengths(q, magnitude);
      CumulativePrefix(p, q, magnitude, k - 1);
      assert tp[k] == tp[k - 1] + magnitude(Sub(p[k], p[k - 1]));
      assert tq[k] == tq[k - 1] + magnitude(Sub(q[k], q[k - 1]));
    }
  }

  lemma {:induction false} ExtendedSegment(a: Vec2, b: Vec2, s: real)
    ensures Sub(Add(a, Scale(Sub(a, b), s)), b) == Scale(Sub(a, b), 1.0 + s)
  {
    assert (a.x + (a.x - b.x) * s) - b.x == (a.x - b.x) * (1.0 + s);
    assert (a.y + (a.y - b.y) * s) - b.y == (a.y - b.y) * (1.0 + s);
  }

  /** Moving b past a along the segment by the missing length makes the
      segment exactly that much longer. */
  lemma {:induction false} ExtendedLength(a: Vec2, b: Vec2, target: real, l: real, magnitude: Vec2 -> real)
    requires Homogeneous(magnitude)
    requires magnitude(Sub(a, b)) > 0.0 && l < target
    ensures magnitude(Sub(Add(a, Scale(Sub(a, b), (target - l) / magnitude(Sub(a, b)))), b)) ==
            magnitude(Sub(a, b)) + (target - l)
  {
    var d := magnitude(Sub(a, b));
    var s := (target - l) / d;
    assert s > 0.0;
    ExtendedSegment(a, b, s);
    assert magnitude(Scale(Sub(a, b), 1.0 + s)) == Abs(1.0 + s) * d;
    assert (1.0 + s) * d == d + (target - l);
  }

  /** Two tables of the same length that agree before their last entries
      and at their last entries are equal. */
  lemma {:induction false} SameTable(a: seq<real>, b: seq<real>)
    requires |a| == |b| > 0
    requires forall k :: 0 <= k < |a| - 1 ==> a[k] == b[k]
    requires Last(a) == Last(b)
    ensures a == b
  {
  }

  /** For a magnitude that scales with its vector, the trimmed table is the
      cumulative length table of the trimmed path: the moved last vertex lies
      exactly at the target length along the extended last segment. */
  lemma {:induction false} TrimmedTableIsCumulative(path: seq<Vec2>, target: real, magnitude: Vec2 -> real)
    requires Homogeneous(magnitude)
    ensures TrimToLength(path, target, magnitude).table == CumulativeLengths(TrimToLength(path, target, magnitude).path, magnitude)
  {
    var r := TrimToLength(path, target, magnitude);
    if Extends(path, target, magnitude) {
      var n := |path|;
      var t := CumulativeLengths(path, magnitude);
      var t' := CumulativeLengths(r.path, magnitude);
      var l := Last(t);
      var d := magnitude(Sub(path[n - 1], path[n - 2]));
      assert r.path[n - 1] == Add(path[n - 1], Scale(Sub(path[n - 1], path[n - 2]), (target - l) / d));
      forall k | 0 <= k < n - 1 ensures t'[k] == t[k] {
        CumulativePrefix(path, r.path, magnitude, k);
      }
      ExtendedLength(path[n - 1], path[n - 2], target, l, magnitude);
      assert t'[n - 1] == t'[n - 2] + magnitude(Sub(r.path[n - 1], r.path[n - 2]));
      SameTable(r.table, t');
    }
  }

  /** Trimming keeps the table strictly increasing. */
  lemma {:induction false} TrimKeepsIncreasing(path: seq<Vec2>, target: real, magnitude: Vec2 -> real)
    requires Increasing(CumulativeLengths(path, magnitude))
    ensures Increasing(TrimToLength(path, target, magnitude).table)
    ensures TrimToLength(path, target, magnitude).table[0] == 0.0
  {
    var r := TrimToLength(path, target, magnitude);
    var t := CumulativeLengths(path, magnitude);
    if Extends(path, target, magnitude) {
      forall i, j | 0 <= i < j < |r.table| ensures r.table[i] < r.table[j] {
        if j == |r.table| - 1 {
          assert t[i] <= t[j];
        }
      }
    }
  }

  /** A strictly increasing table belongs to a path with no repeated
      neighbours: a repeated vertex adds a segment of length zero. */
  lemma {:induction false} IncreasingMeansDistinct(path: seq<Vec2>, magnitude: Vec2 -> real)
    requires Definite(magnitude)
    requires Increasing(CumulativeLengths(path, magnitude))
    ensures NoAdjacentDuplicates(path)
  {
    var t := CumulativeLengths(path, magnitude);
    forall k | 0 < k < |path| ensures path[k - 1] != path[k] {
      assert t[k - 1] < t[k];
      assert magnitude(Sub(path[k], path[k - 1])) != 0.0;
      SubIsZero(path[k], path[k - 1]);
    }
  }
}
