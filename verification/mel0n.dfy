/** `lib.rs`: the `FixedUpdate` chain of the physics set. Gravity and friction run only
    when `not_moon_physics` holds; integration, collisions and the arena constraint
    always run, in that order, each seeing what the previous one left. */
module Mel0n {
  import opened Math
  import opened Entities
  import opened Physics
  import opened Collisions
  import opened Walls

  const MOON_PHYSICS: bool := false

  /** The run condition of `apply_gravity` and `apply_friction`. */
  function NotMoonPhysics(): bool { !MOON_PHYSICS }

  /** Which fruits `constrain_objects` visits and their diameters are kept by every step
      before it, so the clamp bounds that hold at the start of a tick still hold there. */
  lemma ClampSafeByShape(s: seq<Entity>, t: seq<Entity>)
    requires SameShape(s, t) && AllClampSafe(s)
    ensures AllClampSafe(t)
  {
    forall k | 0 <= k < |t|
      ensures ClampSafe(t[k])
    {
      assert Shape(s[k]) == Shape(t[k]);
      assert ClampSafe(s[k]);
    }
  }

  /** The store after gravity and friction, as gated by `not_moon_physics`. */
  function Forced(s: seq<Entity>): (r: seq<Entity>)
    ensures SameShape(s, r)
  {
    var g := if NotMoonPhysics() then GravityStep(s) else s;
    if NotMoonPhysics() then FrictionStep(g) else g
  }

  /** The store after integration and collisions. */
  function Moved(s: seq<Entity>, normalOf: NormalFn): (r: seq<Entity>)
    requires UnitNormals(normalOf)
    ensures SameShape(s, r)
  {
    var i := IntegrateStep(Forced(s));
    var c := CollisionStep(i, normalOf);
    assert forall k :: 0 <= k < |i| ==> Layout(i[k]) == Layout(c[k]) ==> Shape(i[k]) == Shape(c[k]);
    c
  }

  /** The effect of one tick of the chain. */
  function TickSpec(s: seq<Entity>, normalOf: NormalFn): (r: seq<Entity>)
    requires UnitNormals(normalOf)
    requires AllClampSafe(s)
    ensures SameShape(s, r)
  {
    var m := Moved(s, normalOf);
    ClampSafeByShape(s, m);
    ConstrainStep(m)
  }

  /** One `FixedUpdate` run of the physics set. */
  method Tick(w: World, normalOf: NormalFn)
    requires UnitNormals(normalOf)
    requires AllClampSafe(w.bodies)
    modifies w
    ensures w.bodies == TickSpec(old(w.bodies), normalOf)
  {
    if NotMoonPhysics() {
      ApplyGravity(w);
    }
    if NotMoonPhysics() {
      ApplyFriction(w);
    }
    IntegratePosition(w);
    ApplyCollisions(w, normalOf);
    assert w.bodies == Moved(old(w.bodies), normalOf);
    ClampSafeByShape(old(w.bodies), w.bodies);
    ConstrainObjects(w);
  }

  /** As `MOON_PHYSICS` is false and the friction coefficient is 1, a tick is gravity,
      integration, collisions and then the arena constraint. */
  lemma TickWithoutFriction(s: seq<Entity>, normalOf: NormalFn)
    requires UnitNormals(normalOf)
    ensures Forced(s) == GravityStep(s)
    ensures Moved(s, normalOf) == CollisionStep(IntegrateStep(GravityStep(s)), normalOf)
  {
    FrictionIsIdentity(GravityStep(s));
  }

  /** After a tick, every entity with both a velocity and a force accumulator has a force
      of (0, 0): integration clears it and no later step writes forces. */
  lemma TickClearsForces(s: seq<Entity>, normalOf: NormalFn)
    requires UnitNormals(normalOf)
    requires AllClampSafe(s)
    ensures forall k :: 0 <= k < |s| && InIntegrateQuery(s[k]) ==> TickSpec(s, normalOf)[k].forces == Some(ZERO)
  {
    var f := Forced(s);
    var i := IntegrateStep(f);
    var c := CollisionStep(i, normalOf);
    var r := TickSpec(s, normalOf);
    forall k | 0 <= k < |s| && InIntegrateQuery(s[k])
      ensures r[k].forces == Some(ZERO)
    {
      assert Shape(s[k]) == Shape(f[k]);
      assert i[k].forces == Some(ZERO);
      assert Layout(c[k]) == Layout(i[k]);
      assert c[k].forces == Some(ZERO);
    }
  }

  /** After a tick, every fruit is inside the arena. */
  lemma TickContains(s: seq<Entity>, normalOf: NormalFn)
    requires UnitNormals(normalOf)
    requires AllClampSafe(s)
    ensures forall k :: 0 <= k < |s| && InConstrainQuery(s[k]) ==> Contained(TickSpec(s, normalOf)[k])
  {
    var m := Moved(s, normalOf);
    var r := TickSpec(s, normalOf);
    forall k | 0 <= k < |s| && InConstrainQuery(s[k])
      ensures Contained(r[k])
    {
      assert Shape(s[k]) == Shape(m[k]);
    }
  }

  /** Over a tick, each `Collided` counter grows by exactly the number of fruits it
      overlaps after integration, so it never decreases. */
  lemma TickCounts(s: seq<Entity>, normalOf: NormalFn)
    requires UnitNormals(normalOf)
    requires AllClampSafe(s)
    ensures forall k :: 0 <= k < |s| ==>
      Hits(TickSpec(s, normalOf)[k]) == Hits(s[k]) + Partners(IntegrateStep(Forced(s)), k)
    ensures forall k :: 0 <= k < |s| ==> Hits(TickSpec(s, normalOf)[k]) >= Hits(s[k])
  {
    var f := Forced(s);
    var i := IntegrateStep(f);
    var c := CollisionStep(i, normalOf);
    var r := TickSpec(s, normalOf);
    forall k | 0 <= k < |s|
      ensures Hits(r[k]) == Hits(s[k]) + Partners(i, k)
    {
      assert Hits(f[k]) == Hits(s[k]) by {
        var g := GravityStep(s);
        assert g[k].collided == s[k].collided;
        assert f[k].collided == g[k].collided;
      }
      assert Hits(i[k]) == Hits(f[k]);
      assert Hits(r[k]) == Hits(c[k]);
    }
  }

  /** An entity with neither a velocity nor a force accumulator, such as every wall
      `Wall::new` builds, comes out of a tick exactly as it went in. */
  lemma TickLeavesStaticAlone(s: seq<Entity>, normalOf: NormalFn)
    requires UnitNormals(normalOf)
    requires AllClampSafe(s)
    ensures forall k :: 0 <= k < |s| && s[k].velocity.None? && s[k].forces.None? ==> TickSpec(s, normalOf)[k] == s[k]
    ensures forall loc :: NewWall(loc).velocity.None? && NewWall(loc).forces.None?
  {
    var f := Forced(s);
    var i := IntegrateStep(f);
    var c := CollisionStep(i, normalOf);
    var r := TickSpec(s, normalOf);
    forall k | 0 <= k < |s| && s[k].velocity.None? && s[k].forces.None?
      ensures r[k] == s[k]
    {
      assert f[k] == s[k] by {
        var g := GravityStep(s);
        assert g[k] == s[k];
      }
      assert i[k] == s[k];
      assert Partners(i, k) == 0 by {
        CountInIsSetSize(i, k, 0, |i|);
        assert PartnerSet(i, k, 0, |i|) == {};
      }
      assert c[k] == s[k];
    }
  }
}
