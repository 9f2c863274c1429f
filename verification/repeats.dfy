/** Removing repeated neighbours from a sequence of points: the skip in the
    path builder's append and the RemoveAt pass at the end of GetPath. */
module Repeats {
  import opened Geometry

  function Last<T>(s: seq<T>): T
    requires |s| > 0
  {
    s[|s| - 1]
  }

  predicate NoAdjacentDuplicates<T(==)>(s: seq<T>) {
    forall i :: 0 < i < |s| ==> s[i - 1] != s[i]
  }

  /** Reference definition: every element equal to its predecessor is dropped. */
  function Collapse<T(==)>(s: seq<T>): (r: seq<T>)
    ensures NoAdjacentDuplicates(r)
    ensures |r| <= |s|
    ensures |s| > 0 ==> |r| > 0 && r[0] == s[0] && Last(r) == Last(s)
    ensures NoAdjacentDuplicates(s) ==> r == s
    decreases |s|
  {
    if |s| <= 1 then s
    else
      var c := Collapse(s[..|s| - 1]);
      if s[|s| - 1] == s[|s| - 2] then c else c + [s[|s| - 1]]
  }

  /** A sequence collapses to a single point only when all its points are that point. */
  lemma {:induction false} CollapseToOne<T>(s: seq<T>)
    requires |Collapse(s)| == 1
    ensures forall i :: 0 <= i < |s| ==> s[i] == s[0]
    decreases |s|
  {
    if |s| > 1 {
      var p := s[..|s| - 1];
      assert |Collapse(p)| >= 1;
      if s[|s| - 1] == s[|s| - 2] {
        CollapseToOne(p);
        assert forall i :: 0 <= i < |p| ==> s[i] == p[i];
      } else {
        assert false;
      }
    }
  }

  /** Collapsing a sequence with one more element at the end. */
  lemma {:induction false} CollapseSnoc<T>(s: seq<T>, x: T)
    ensures Collapse(s + [x]) == if s != [] && Last(s) == x then Collapse(s) else Collapse(s) + [x]
  {
    var s' := s + [x];
    if s != [] {
      assert s'[..|s'| - 1] == s;
    }
  }

  /** Every element of the collapsed sequence comes from the input. */
  lemma {:induction false} CollapseFromInput<T>(s: seq<T>)
    ensures forall x :: x in Collapse(s) ==> x in s
    decreases |s|
  {
    if |s| > 1 {
      var p := s[..|s| - 1];
      CollapseFromInput(p);
      assert s == p + [s[|s| - 1]];
      CollapseSnoc(p, s[|s| - 1]);
    }
  }

  /** Dropping one of two equal neighbours does not change the collapsed sequence. */
  lemma {:induction false} CollapseRemoveRepeat<T>(q: seq<T>, j: nat)
    requires j + 1 < |q| && q[j] == q[j + 1]
    ensures Collapse(q[..j + 1] + q[j + 2..]) == Collapse(q)
    decreases |q|
  {
    var n := |q|;
    if j + 2 == n {
      RemoveLast(q, j);
      CollapseDropLastRepeat(q);
    } else {
      var p := q[..n - 1];
      var x := q[n - 1];
      var p' := p[..j + 1] + p[j + 2..];
      RemoveBeforeLast(q, j);
      CollapseRemoveRepeat(p, j);
      CollapseSnoc(p, x);
      CollapseSnoc(p', x);
    }
  }

  lemma {:induction false} RemoveLast<T>(q: seq<T>, j: nat)
    requires j + 2 == |q|
    ensures q[..j + 1] + q[j + 2..] == q[..|q| - 1]
  {
  }

  /** Removing an element before the last commutes with splitting off the last. */
  lemma {:induction false} RemoveBeforeLast<T>(q: seq<T>, j: nat)
    requires j + 2 < |q| && q[j] == q[j + 1]
    ensures q == q[..|q| - 1] + [q[|q| - 1]]
    ensures q[..j + 1] + q[j + 2..] == (q[..|q| - 1][..j + 1] + q[..|q| - 1][j + 2..]) + [q[|q| - 1]]
    ensures q[..|q| - 1][..j + 1] + q[..|q| - 1][j + 2..] != []
    ensures Last(q[..|q| - 1][..j + 1] + q[..|q| - 1][j + 2..]) == Last(q[..|q| - 1])
  {
    var p := q[..|q| - 1];
    var p' := p[..j + 1] + p[j + 2..];
    var tail := p[j + 2..];
    if tail == [] {
      assert p' == p[..j + 1];
    } else {
      assert p'[|p'| - 1] == tail[|tail| - 1];
    }
    assert q[..j + 1] + q[j + 2..] == p' + [q[|q| - 1]];
  }

  /** Appends `pts` to `path` one by one, skipping a point equal to the
      current last point of the path. */
  function AppendDistinct<T(==)>(path: seq<T>, pts: seq<T>): (r: seq<T>)
    ensures NoAdjacentDuplicates(path) ==> NoAdjacentDuplicates(r)
    ensures |path| <= |r| <= |path| + |pts| && r[..|path|] == path
    decreases |pts|
  {
    if pts == [] then path
    else
      var next := if path != [] && Last(path) == pts[0] then path else path + [pts[0]];
      assert next[..|path|] == path;
      AppendDistinct(next, pts[1..])
  }

  /** Appending with the skip to an already collapsed sequence is collapsing
      the concatenation. */
  lemma {:induction false} AppendDistinctCollapses<T>(s: seq<T>, t: seq<T>)
    ensures AppendDistinct(Collapse(s), t) == Collapse(s + t)
    decreases |t|
  {
    if t == [] {
      assert s + t == s;
    } else {
      var s' := s + [t[0]];
      AppendDistinctStep(Collapse(s), t);
      CollapseSnocNext(s, t[0]);
      AppendDistinctCollapses(s', t[1..]);
      ShiftFirst(s, t);
    }
  }

  /** Moving the first element of `t` to the end of `s` keeps the concatenation. */
  lemma {:induction false} ShiftFirst<T>(s: seq<T>, t: seq<T>)
    requires t != []
    ensures (s + [t[0]]) + t[1..] == s + t
  {
    assert t == [t[0]] + t[1..];
  }

  lemma {:induction false} AppendDistinctStep<T>(path: seq<T>, t: seq<T>)
    requires t != []
    ensures AppendDistinct(path, t) ==
            AppendDistinct(if path != [] && Last(path) == t[0] then path else path + [t[0]], t[1..])
  {
  }

  lemma {:induction false} CollapseSnocNext<T>(s: seq<T>, x: T)
    ensures (if Collapse(s) != [] && Last(Collapse(s)) == x then Collapse(s) else Collapse(s) + [x]) == Collapse(s + [x])
  {
    CollapseSnoc(s, x);
  }

  /** The sequence left by GetPath's RemoveAt pass: repeats are removed, but
      never below two points. */
  function DropRepeats<T(==)>(s: seq<T>): (r: seq<T>)
    ensures |r| == (if |Collapse(s)| >= 2 then |Collapse(s)| else Min(2, |s|))
    ensures |s| > 0 ==> r[0] == s[0] && Last(r) == Last(s)
    ensures Collapse(r) == Collapse(s)
    ensures NoAdjacentDuplicates(r) || forall i :: 0 <= i < |s| ==> s[i] == s[0]
  {
    if |Collapse(s)| >= 2 then Collapse(s)
    else
      if |s| >= 2 then
        CollapseToOne(s);
        assert Collapse(s) == [s[0]];
        [s[0], s[1]]
      else s
  }

  /** DropRepeats is the only sequence of at least two points with the same
      ends and the same collapsed form that is either free of repeats or
      exactly two points long. */
  lemma {:induction false} DropRepeatsUnique<T>(s: seq<T>, q: seq<T>)
    requires |s| >= 2 && |q| >= 2
    requires q[0] == s[0] && Last(q) == Last(s)
    requires Collapse(q) == Collapse(s)
    requires NoAdjacentDuplicates(q) || |q| == 2
    ensures q == DropRepeats(s)
  {
    if NoAdjacentDuplicates(q) {
      assert Collapse(q) == q;
    } else {
      assert Collapse(q) == Collapse(q[..1]);
      CollapseToOne(s);
    }
  }

  /** Repeating the first point in front and the last point behind does not
      change the collapsed sequence. */
  lemma {:induction false} CollapseFramed<T>(p: seq<T>)
    requires |p| >= 1
    ensures Collapse([p[0]] + p + [Last(p)]) == Collapse(p)
  {
    var s := [p[0]] + p + [Last(p)];
    var s1 := p + [Last(p)];
    calc {
      Collapse(s);
      == { CollapseDropFirstRepeat(s); }
      Collapse(s[1..]);
      == { assert s[1..] == s1; }
      Collapse(s1);
      == { CollapseDropLastRepeat(s1); }
      Collapse(s1[..|s1| - 1]);
      == { assert s1[..|s1| - 1] == p; }
      Collapse(p);
    }
  }

  lemma {:induction false} CollapseDropFirstRepeat<T>(s: seq<T>)
    requires |s| >= 2 && s[0] == s[1]
    ensures Collapse(s) == Collapse(s[1..])
  {
    CollapseRemoveRepeat(s, 0);
    assert s[..0 + 1] + s[0 + 2..] == s[1..];
  }

  lemma {:induction false} CollapseDropLastRepeat<T>(s: seq<T>)
    requires |s| >= 2 && s[|s| - 1] == s[|s| - 2]
    ensures Collapse(s) == Collapse(s[..|s| - 1])
  {
  }
}
