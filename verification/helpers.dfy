/** `physics::helpers`: the bounding volumes built from an entity's translation, and the
    circle-circle intersection test of bevy's `IntersectsVolume`. */
module Helpers {
  import opened Math

  datatype Circle = Circle(center: Vec2, radius: real)

  datatype Aabb = Aabb(min: Vec2, max: Vec2)

  /** `bounding_circle`: the translation is the lower corner of the circle's bounding
      square, so the circle is centred half a diameter up and to the right of it. */
  function BoundingCircle(diameter: real, translation: Vec3): (c: Circle)
    ensures c.radius * 2.0 == diameter
    ensures Sub(c.center, Vec2(c.radius, c.radius)) == Xy(translation)
    ensures Add(c.center, Vec2(c.radius, c.radius)) == Add(Xy(translation), Vec2(diameter, diameter))
  {
    var radius := diameter / 2.0;
    Circle(Add(Xy(translation), Vec2(radius, radius)), radius)
  }

  /** `aabb2d`: bevy's `Aabb2d::new(center, half_size)` spans `center ± half_size`; the
      centre passed is the translation moved by the half size. */
  function Aabb2d(translation: Vec3, halfSize: Vec2): (b: Aabb)
    ensures b.min == Xy(translation)
    ensures b.max == Add(Xy(translation), Scale(halfSize, 2.0))
  {
    var center := Add(Xy(translation), halfSize);
    Aabb(Sub(center, halfSize), Add(center, halfSize))
  }

  /** bevy's `BoundingCircle::intersects`: squared centre distance at most the squared sum
      of the radii (touching circles intersect). Circles sharing a centre always intersect;
      circles whose centres are further apart along one axis than the sum of the radii never
      do; and on a common horizontal line they intersect exactly when their centres are at
      most that sum apart. */
  function Intersects(a: Circle, b: Circle): (r: bool)
    ensures a.center == b.center ==> r
    ensures var s, d := a.radius + b.radius, Sub(a.center, b.center);
            0.0 <= s && (d.x < -s || s < d.x || d.y < -s || s < d.y) ==> !r
    ensures var s, d := a.radius + b.radius, Sub(a.center, b.center);
            0.0 <= s && d.y == 0.0 ==> (r <==> -s <= d.x <= s)
  {
    var s, d := a.radius + b.radius, Sub(a.center, b.center);
    var overlap := DistanceSquared(a.center, b.center) <= s * s;
    if 0.0 <= s then
      SquareWithin(d.x, s);
      SquareWithin(d.y, s);
      overlap
    else
      overlap
  }

  lemma IntersectsSymmetric(a: Circle, b: Circle)
    ensures Intersects(a, b) == Intersects(b, a)
  {
    var d := Sub(a.center, b.center);
    var d' := Sub(b.center, a.center);
    assert d'.x * d'.x == d.x * d.x;
    assert d'.y * d'.y == d.y * d.y;
  }
}
