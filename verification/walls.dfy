/** `wall.rs`: the arena constants, the four wall entities, and `constrain_objects`, which
    clamps every fruit back into the arena and reflects, with a loss, each velocity
    component whose coordinate was out of range. */
module Walls {
  import opened Math
  import opened Entities
  import opened Helpers

  const WALL_THICKNESS: real := 1.0
  const LEFT_WALL: real := 62.0
  const RIGHT_WALL: real := 179.0 - WALL_THICKNESS
  // y coordinates
  const BOTTOM_WALL: real := 148.0 - WALL_THICKNESS
  const TOP_WALL: real := 0.0

  /** The lower bound `constrain_objects` puts on y (there is no clamp at `TOP_WALL`). */
  const LOWEST_Y: real := -9999.0

  /** The factor a velocity component is multiplied by when its coordinate is clamped. */
  const BOUNCE: real := -0.2

  datatype WallLocation = Left | Right | Bottom | Top

  /** `WallLocation::position`: the translation of a wall (documented as its centre). */
  function Position(location: WallLocation): (p: Vec2)
    ensures location.Left? || location.Right? ==> p.y == TOP_WALL
    ensures location.Bottom? || location.Top? ==> p.x == 0.0
  {
    match location
    case Left => Vec2(LEFT_WALL, 0.0)
    case Right => Vec2(RIGHT_WALL, 0.0)
    case Bottom => Vec2(0.0, BOTTOM_WALL)
    case Top => Vec2(0.0, TOP_WALL)
  }

  /** `WallLocation::size`: the side walls are one thick and span the arena height plus
      one; the bottom and top walls span the arena width plus one and are one thick. The
      two assertions of the code (a positive height and width) hold for the constants. */
  function Size(location: WallLocation): (d: Vec2)
    ensures d.x > 0.0 && d.y > 0.0
    ensures location.Left? || location.Right? ==> d.x == WALL_THICKNESS && d.y == BOTTOM_WALL - TOP_WALL + WALL_THICKNESS
    ensures location.Bottom? || location.Top? ==> d.y == WALL_THICKNESS && d.x == RIGHT_WALL - LEFT_WALL + WALL_THICKNESS
  {
    var arenaHeight := BOTTOM_WALL - TOP_WALL;
    var arenaWidth := RIGHT_WALL - LEFT_WALL;
    assert arenaHeight > 0.0;
    assert arenaWidth > 0.0;
    match location
    case Left | Right => Vec2(WALL_THICKNESS, arenaHeight + WALL_THICKNESS)
    case Bottom | Top => Vec2(arenaWidth + WALL_THICKNESS, WALL_THICKNESS)
  }

  /** `Wall::new`: a `Wall` with a `Transform` at the wall's position (z = 0), a
      `Collider` of half the wall's size, and `Physics`; nothing else. The box `aabb2d`
      would build from it starts at the position and spans the whole size. */
  function NewWall(location: WallLocation): (e: Entity)
    ensures e.wall && e.physics && !e.fruit && !e.gravity
    ensures e.velocity.None? && e.forces.None? && e.diameter.None? && e.collided.None?
    ensures Xy(e.translation) == Position(location) && e.translation.z == 0.0
    ensures e.collider.Some? && Scale(e.collider.value, 2.0) == Size(location)
    ensures Aabb2d(e.translation, e.collider.value) == Aabb(Position(location), Add(Position(location), Size(location)))
  {
    Entity(Extend(Position(location), 0.0), None, None, None, None,
           Some(Div(Size(location), 2.0)), false, true, false, true)
  }

  /** The positions and sizes of the four walls, worked out from the constants. */
  lemma WallGeometry()
    ensures Position(Left) == Vec2(62.0, 0.0) && Size(Left) == Vec2(1.0, 148.0)
    ensures Position(Right) == Vec2(178.0, 0.0) && Size(Right) == Vec2(1.0, 148.0)
    ensures Position(Bottom) == Vec2(0.0, 147.0) && Size(Bottom) == Vec2(117.0, 1.0)
    ensures Position(Top) == Vec2(0.0, 0.0) && Size(Top) == Vec2(117.0, 1.0)
  {
  }

  /** The box `aabb2d` would build from a wall's translation and collider. */
  function WallBox(location: WallLocation): Aabb {
    var e := NewWall(location);
    Aabb2d(e.translation, e.collider.value)
  }

  /** The boxes `aabb2d` would build from the four walls' translations and colliders (no
      system of the program computes them): the side walls' boxes run from y = 0 to y = 148
      at x = 62 and x = 178; the bottom and top walls' boxes run from x = 0 to x = 117. */
  lemma WallBoxes()
    ensures WallBox(Left) == Aabb(Vec2(62.0, 0.0), Vec2(63.0, 148.0))
    ensures WallBox(Right) == Aabb(Vec2(178.0, 0.0), Vec2(179.0, 148.0))
    ensures WallBox(Bottom) == Aabb(Vec2(0.0, 147.0), Vec2(117.0, 148.0))
    ensures WallBox(Top) == Aabb(Vec2(0.0, 0.0), Vec2(117.0, 1.0))
  {
    WallGeometry();
  }

  // ---------------------------------------------------------------------------------
  // constrain_objects
  // ---------------------------------------------------------------------------------

  /** The highest x a fruit of diameter d may have. */
  function MaxX(d: real): real { RIGHT_WALL - d }

  /** The highest y a fruit of diameter d may have. */
  function MaxY(d: real): real { BOTTOM_WALL - d }

  /** `f32::clamp` panics when its lower bound exceeds its upper bound: both clamps of
      `constrain_objects` need the fruit to fit, i.e. d <= 116 (the bound on y,
      d <= 10146, then holds too). */
  predicate ClampSafe(e: Entity) {
    InConstrainQuery(e) ==> LEFT_WALL <= MaxX(e.diameter.value) && LOWEST_Y <= MaxY(e.diameter.value)
  }

  predicate AllClampSafe(s: seq<Entity>) {
    forall k :: 0 <= k < |s| ==> ClampSafe(s[k])
  }

  /** A fruit inside the arena: LEFT_WALL <= x <= RIGHT_WALL - d and
      -9999 <= y <= BOTTOM_WALL - d. */
  predicate Contained(e: Entity)
    requires e.diameter.Some?
  {
    && LEFT_WALL <= e.translation.x <= MaxX(e.diameter.value)
    && LOWEST_Y <= e.translation.y <= MaxY(e.diameter.value)
  }

  /** One entity after `constrain_objects`: a fruit ends inside the arena with its z, its
      diameter and every other component kept; any other entity is untouched. */
  function Constrained(e: Entity): (r: Entity)
    requires ClampSafe(e)
    ensures !InConstrainQuery(e) ==> r == e
    ensures InConstrainQuery(e) ==>
      && r.diameter == e.diameter && Contained(r)
      && r.translation.z == e.translation.z
      && r.(translation := e.translation, velocity := e.velocity) == e
  {
    if InConstrainQuery(e) then
      var t, v, d := e.translation, e.velocity.value, e.diameter.value;
      var x := Clamp(t.x, LEFT_WALL, MaxX(d));
      var y := Clamp(t.y, LOWEST_Y, MaxY(d));
      var vx := if t.x != x then v.x * BOUNCE else v.x;
      var vy := if t.y != y then v.y * BOUNCE else v.y;
      e.(translation := Vec3(x, y, t.z), velocity := Some(Vec2(vx, vy)))
    else e
  }

  /** The effect of `constrain_objects`: every fruit ends inside the arena with its z, its
      diameter and every other component kept; every other entity is left alone. */
  function ConstrainStep(s: seq<Entity>): (r: seq<Entity>)
    requires AllClampSafe(s)
    ensures SameShape(s, r)
    ensures forall k :: 0 <= k < |s| && InConstrainQuery(s[k]) ==>
      && Contained(r[k])
      && r[k].translation.z == s[k].translation.z
      && r[k].(translation := s[k].translation, velocity := s[k].velocity) == s[k]
    ensures forall k :: 0 <= k < |s| && !InConstrainQuery(s[k]) ==> r[k] == s[k]
  {
    seq(|s|, k requires 0 <= k < |s| => Constrained(s[k]))
  }

  method ConstrainObjects(w: World)
    requires AllClampSafe(w.bodies)
    modifies w
    ensures w.bodies == ConstrainStep(old(w.bodies))
  {
    var i := 0;
    while i < |w.bodies|
      invariant 0 <= i <= |w.bodies| == |old(w.bodies)|
      invariant w.bodies[i..] == old(w.bodies)[i..]
      invariant forall k :: 0 <= k < i ==> w.bodies[k] == Constrained(old(w.bodies)[k])
    {
      var e := w.bodies[i];
      assert ClampSafe(old(w.bodies)[i]);
      if e.fruit && e.velocity.Some? && e.diameter.Some? {
        var t, v, d := e.translation, e.velocity.value, e.diameter.value;
        if t.x != Clamp(t.x, LEFT_WALL, RIGHT_WALL - d) {
          v := v.(x := v.x * BOUNCE);
        }
        if t.y != Clamp(t.y, LOWEST_Y, BOTTOM_WALL - d) {
          v := v.(y := v.y * BOUNCE);
        }
        t := t.(x := Clamp(t.x, LEFT_WALL, RIGHT_WALL - d));
        t := t.(y := Clamp(t.y, LOWEST_Y, BOTTOM_WALL - d));
        w.bodies := w.bodies[i := e.(translation := t, velocity := Some(v))];
      }
      i := i + 1;
    }
  }

  /** The bounce rule: a velocity component is multiplied by -0.2 exactly when its
      coordinate was out of range, and each axis is decided on its own. */
  lemma BounceRule(e: Entity)
    requires InConstrainQuery(e) && ClampSafe(e)
    ensures var r, v, d := Constrained(e), e.velocity.value, e.diameter.value;
            && r.velocity.value.x == (if LEFT_WALL <= e.translation.x <= MaxX(d) then v.x else -0.2 * v.x)
            && r.velocity.value.y == (if LOWEST_Y <= e.translation.y <= MaxY(d) then v.y else -0.2 * v.y)
  {
  }

  /** A coordinate moves exactly when it was out of range, and then it lands on the bound
      it crossed: x on 62 or on 178 - d, y on -9999 or on 147 - d. */
  lemma ClampMovesOnlyOutliers(e: Entity)
    requires InConstrainQuery(e) && ClampSafe(e)
    ensures var r, d := Constrained(e), e.diameter.value;
            && (r.translation.x == e.translation.x <==> LEFT_WALL <= e.translation.x <= MaxX(d))
            && (r.translation.y == e.translation.y <==> LOWEST_Y <= e.translation.y <= MaxY(d))
    ensures var r, d := Constrained(e), e.diameter.value;
            && (e.translation.x < LEFT_WALL ==> r.translation.x == LEFT_WALL)
            && (e.translation.x > MaxX(d) ==> r.translation.x == MaxX(d))
            && (e.translation.y < LOWEST_Y ==> r.translation.y == LOWEST_Y)
            && (e.translation.y > MaxY(d) ==> r.translation.y == MaxY(d))
  {
  }

  /** A fruit already inside the arena is left exactly as it was. */
  lemma ContainedUntouched(e: Entity)
    requires InConstrainQuery(e) && ClampSafe(e) && Contained(e)
    ensures Constrained(e) == e
  {
    var t := e.translation;
    assert Vec3(t.x, t.y, t.z) == t;
  }

  /** Applying `constrain_objects` twice is the same as applying it once. */
  lemma {:induction false} ConstrainIdempotent(s: seq<Entity>)
    requires AllClampSafe(s)
    ensures AllClampSafe(ConstrainStep(s))
    ensures ConstrainStep(ConstrainStep(s)) == ConstrainStep(s)
  {
    var r := ConstrainStep(s);
    forall k | 0 <= k < |r|
      ensures ClampSafe(r[k])
    {
      assert Shape(r[k]) == Shape(s[k]);
      assert ClampSafe(s[k]);
    }
    var rr := ConstrainStep(r);
    forall k | 0 <= k < |r|
      ensures rr[k] == r[k]
    {
      if InConstrainQuery(r[k]) {
        assert Shape(r[k]) == Shape(s[k]);
        ContainedUntouched(r[k]);
      }
    }
  }

  /** A contained fruit's bounding square (from its translation to its translation plus
      its diameter, the square around its `bounding_circle`) starts no further left than
      the left wall box's outer edge at 62, so it may overlap that one-unit-wide box by at
      most its width; it ends no further right than the right wall box's inner edge at
      178, and its y + d is at most the bottom wall box's smaller y, 147. */
  lemma ContainedBetweenWalls(e: Entity)
    requires InConstrainQuery(e) && Contained(e)
    ensures WallBox(Left).min.x <= e.translation.x
    ensures e.translation.x + e.diameter.value <= WallBox(Right).min.x
    ensures e.translation.y + e.diameter.value <= WallBox(Bottom).min.y
  {
    assert WallBox(Left).min == Position(Left);
    assert WallBox(Right).min == Position(Right);
    assert WallBox(Bottom).min == Position(Bottom);
  }
}
