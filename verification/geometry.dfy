/** Two-dimensional points and vectors (Unity's Vector2), with exact real
    arithmetic in place of single-precision floats. */
module Geometry {

  datatype Vec2 = Vec2(x: real, y: real)

  function Min(a: int, b: int): int {
    if a < b then a else b
  }

  function Max(a: int, b: int): int {
    if a < b then b else a
  }

  function RMin(a: real, b: real): real {
    if a <= b then a else b
  }

  function RMax(a: real, b: real): real {
    if a >= b then a else b
  }

  /** Vector2.zero */
  const Zero: Vec2 := Vec2(0.0, 0.0)

  function Add(a: Vec2, b: Vec2): Vec2 {
    Vec2(a.x + b.x, a.y + b.y)
  }

  function Sub(a: Vec2, b: Vec2): Vec2 {
    Vec2(a.x - b.x, a.y - b.y)
  }

  function Scale(v: Vec2, s: real): Vec2 {
    Vec2(v.x * s, v.y * s)
  }

  /** The point at fraction w of the way from a to b. */
  function Lerp(a: Vec2, b: Vec2, w: real): Vec2 {
    Add(a, Scale(Sub(b, a), w))
  }

  lemma {:induction false} LerpEnds(a: Vec2, b: Vec2)
    ensures Lerp(a, b, 0.0) == a && Lerp(a, b, 1.0) == b
  {
  }

  function Abs(r: real): real {
    if r < 0.0 then -r else r
  }

  /** The difference of two points is the zero vector exactly when they coincide. */
  lemma {:induction false} SubIsZero(a: Vec2, b: Vec2)
    ensures Sub(a, b) == Zero <==> a == b
  {
  }

  /* The magnitude of a vector is computed by library code (a square root);
     the model takes it as a parameter and states only the laws it relies on. */

  /** Every magnitude is non-negative. */
  ghost predicate NonNegative(magnitude: Vec2 -> real) {
    forall v :: magnitude(v) >= 0.0
  }

  /** Only the zero vector has magnitude zero. */
  ghost predicate Definite(magnitude: Vec2 -> real) {
    forall v :: magnitude(v) == 0.0 <==> v == Zero
  }

  /** Scaling a vector scales its magnitude by the absolute factor. */
  ghost predicate Homogeneous(magnitude: Vec2 -> real) {
    forall v, s :: magnitude(Scale(v, s)) == Abs(s) * magnitude(v)
  }
}
