/** Plane and space vectors over the reals, standing in for glam's `Vec2`/`Vec3` of `f32`,
    and the two scalar helpers of `f32` the physics code uses (`min`, `clamp`).
    Rounding is abstracted away: every operation is exact. */
module Math {

  datatype Vec2 = Vec2(x: real, y: real)

  datatype Vec3 = Vec3(x: real, y: real, z: real)

  const ZERO: Vec2 := Vec2(0.0, 0.0)

  function Add(a: Vec2, b: Vec2): Vec2 { Vec2(a.x + b.x, a.y + b.y) }

  function Sub(a: Vec2, b: Vec2): Vec2 { Vec2(a.x - b.x, a.y - b.y) }

  function Scale(a: Vec2, k: real): Vec2 { Vec2(a.x * k, a.y * k) }

  function Div(a: Vec2, k: real): Vec2
    requires k != 0.0
  {
    Vec2(a.x / k, a.y / k)
  }

  function Dot(a: Vec2, b: Vec2): real { a.x * b.x + a.y * b.y }

  function LengthSquared(a: Vec2): real { Dot(a, a) }

  function DistanceSquared(a: Vec2, b: Vec2): real { LengthSquared(Sub(a, b)) }

  /** `Vec2::is_normalized`, without its floating-point tolerance. */
  predicate IsUnit(n: Vec2) { LengthSquared(n) == 1.0 }

  /** `Vec3::xy` / `Vec3::truncate`. */
  function Xy(t: Vec3): Vec2 { Vec2(t.x, t.y) }

  /** `Vec2::extend`. */
  function Extend(v: Vec2, z: real): Vec3 { Vec3(v.x, v.y, z) }

  /** `f32::min` (NaN is not modelled). */
  function Min(a: real, b: real): real { if a <= b then a else b }

  /** `f32::clamp`, which panics when `lo > hi`: an input below the range lands on `lo`,
      one above it on `hi`, and one inside it is kept. */
  function Clamp(v: real, lo: real, hi: real): (r: real)
    requires lo <= hi
    ensures lo <= r <= hi
    ensures r == v <==> lo <= v <= hi
    ensures v < lo ==> r == lo
    ensures v > hi ==> r == hi
  {
    if v < lo then lo else if v > hi then hi else v
  }

  /** The vector turned a quarter turn counter-clockwise: the direction across `v`. */
  function Perp(v: Vec2): Vec2 { Vec2(-v.y, v.x) }

  /** For a non-negative bound `b`, `x * x <= b * b` exactly when `-b <= x <= b`. */
  lemma SquareWithin(x: real, b: real)
    requires 0.0 <= b
    ensures x * x <= b * b <==> -b <= x <= b
  {
    if x > b {
      SquareAbove(x, b);
    } else if x < -b {
      SquareAbove(-x, b);
      assert (-x) * (-x) == x * x;
    } else {
      assert b * b - x * x == (b - x) * (b + x);
      assert (b - x) * (b + x) >= 0.0;
    }
  }

  lemma SquareAbove(y: real, b: real)
    requires 0.0 <= b < y
    ensures y * y > b * b
  {
    ProductPositive(y - b, y + b);
    assert y * y - b * b == (y - b) * (y + b);
  }

  lemma ProductPositive(p: real, q: real)
    requires p > 0.0 && q > 0.0
    ensures p * q > 0.0
  {
  }

  /** A positive factor keeps the sign of a product. */
  lemma NonPositiveFactor(x: real, d: real)
    requires 0.0 < d && x * d <= 0.0
    ensures x <= 0.0
  {
  }

  lemma DotAdd(a: Vec2, b: Vec2, p: Vec2)
    ensures Dot(Add(a, b), p) == Dot(a, p) + Dot(b, p)
  {
  }

  lemma DotSub(a: Vec2, b: Vec2, p: Vec2)
    ensures Dot(Sub(a, b), p) == Dot(a, p) - Dot(b, p)
  {
  }

  /** A multiple of `n` has no component across `n`. */
  lemma ScaledAcross(n: Vec2, k: real)
    ensures Dot(Scale(n, k), Perp(n)) == 0.0
  {
    assert Dot(Scale(n, k), Perp(n)) == (n.x * k) * -n.y + (n.y * k) * n.x;
  }

  lemma DotScaledUnit(n: Vec2, k: real)
    requires IsUnit(n)
    ensures Dot(Scale(n, k), n) == k
  {
    calc {
      Dot(Scale(n, k), n);
      n.x * k * n.x + n.y * k * n.y;
      k * (n.x * n.x + n.y * n.y);
      k;
    }
  }
}
