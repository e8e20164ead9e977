/** Exact two-dimensional vectors over the reals, standing in for the
    floating-point `pygame.Vector2` of the simulation. */
module Vectors {

  datatype Vec2 = Vec2(x: real, y: real)

  const Zero: Vec2 := Vec2(0.0, 0.0)

  function Add(u: Vec2, v: Vec2): Vec2 {
    Vec2(u.x + v.x, u.y + v.y)
  }

  function Sub(u: Vec2, v: Vec2): Vec2 {
    Vec2(u.x - v.x, u.y - v.y)
  }

  function Neg(v: Vec2): Vec2 {
    Vec2(-v.x, -v.y)
  }

  /** `k * v` */
  function Scale(k: real, v: Vec2): Vec2 {
    Vec2(k * v.x, k * v.y)
  }

  /** `v / k`, as Vector2 division by a scalar */
  function Div(v: Vec2, k: real): Vec2
    requires k != 0.0
  {
    Vec2(v.x / k, v.y / k)
  }

  /** Real product, used wherever a quantity is squared: keeping a square as
      one application lets the sign lemmas below be applied to it. */
  function Mul(a: real, b: real): real {
    a * b
  }

  /** Squared Euclidean length: the exact value of `distance**2`. */
  function SqNorm(v: Vec2): real {
    Mul(v.x, v.x) + Mul(v.y, v.y)
  }

  lemma MulSign(a: real, b: real)
    ensures (a > 0.0 && b > 0.0) || (a < 0.0 && b < 0.0) ==> Mul(a, b) > 0.0
    ensures a == 0.0 ==> Mul(a, b) == 0.0
  {
  }

  /** Products of non-negative reals grow with both factors. */
  lemma MulStrictlyMonotone(a: real, b: real, c: real, d: real)
    requires 0.0 <= a < b && 0.0 <= c < d
    ensures Mul(a, c) < Mul(b, d)
  {
  }

  /** A square is never negative, and is zero only for zero. */
  lemma SquareSign(r: real)
    ensures Mul(r, r) >= 0.0
    ensures r != 0.0 ==> Mul(r, r) > 0.0
  {
    MulSign(r, r);
  }

  /** Only the zero vector has length zero, so two distinct points are a
      positive squared distance apart. */
  lemma SqNormPositive(v: Vec2)
    requires v != Zero
    ensures SqNorm(v) > 0.0
  {
    SquareSign(v.x);
    SquareSign(v.y);
  }
}
