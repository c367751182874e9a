/** `physics.rs` apart from `apply_collisions`: the impulse of one contact, and the three
    force systems that run before collision handling (gravity, friction, integration). */
module Physics {
  import opened Math
  import opened Entities

  const ELASTICITY: real := 0.7
  const MASS: real := 16.0
  const INV_MASS: real := 1.0 / MASS

  /** The vertical cap `apply_gravity` puts on the accumulated force (named as a speed in
      the code, but it bounds the force). */
  const TERMINAL_VELOCITY: real := 20.0
  const GRAVITY_STEP: real := 0.4
  const FRICTION_COEFFICIENT: real := 1.0

  // ---------------------------------------------------------------------------------
  // resolve_collision
  // ---------------------------------------------------------------------------------

  datatype Body = Body(restitution: real, velocity: Vec2, inverseMass: real)

  datatype Contact = Contact(normal: Vec2, a: Body, b: Body)

  /** The two impulse formulas of `resolve_collision`: the live one, and the commented-out
      one that divides by the sum of the inverse masses. */
  datatype ImpulseFormula = AsWritten | MassWeighted

  /** The effective coefficient of restitution of a contact. */
  function Restitution(c: Contact): real { Min(c.a.restitution, c.b.restitution) }

  /** What the impulse magnitude is divided by under each formula. */
  function Divisor(c: Contact, formula: ImpulseFormula): real {
    match formula
    case AsWritten => 1.0
    case MassWeighted => c.a.inverseMass + c.b.inverseMass
  }

  /** The assertions at the head of `resolve_collision` (a unit normal, a restitution in
      [0, 1]); the weighted formula also needs a non-zero divisor. */
  predicate ContactAllowed(c: Contact, formula: ImpulseFormula) {
    && IsUnit(c.normal)
    && 0.0 <= Restitution(c) <= 1.0
    && Divisor(c, formula) != 0.0
  }

  /** `impulse_mag`: -(1 + e) times the approach speed along the normal; the weighted
      formula (line 55) also divides by the sum of the inverse masses, the live one (line 56)
      does not. With a positive divisor and e >= -1 it never has the sign of the approach
      speed: along the normal n, the impulse opposes the approach speed (va - vb)·n. Since
      the normal `apply_collisions` passes comes from `angle_to` and is not in general the
      direction from one fruit to the other, this does not mean the fruits separate: the
      impulse can raise their closing speed. */
  function ImpulseMagnitude(c: Contact, formula: ImpulseFormula): (m: real)
    requires Divisor(c, formula) != 0.0
    ensures m * Divisor(c, formula) == -(1.0 + Restitution(c)) * Dot(Sub(c.a.velocity, c.b.velocity), c.normal)
    ensures 0.0 < Divisor(c, formula) && -1.0 <= Restitution(c) ==>
              m * Dot(Sub(c.a.velocity, c.b.velocity), c.normal) <= 0.0
  {
    var approach := Dot(Sub(c.a.velocity, c.b.velocity), c.normal);
    var k := 1.0 + Restitution(c);
    var m := match formula
      case AsWritten => -k * approach
      case MassWeighted => -k * approach / (c.a.inverseMass + c.b.inverseMass);
    var d := Divisor(c, formula);
    assert m * d == -k * approach;
    if 0.0 < d && 0.0 <= k then
      assert (m * approach) * d == -k * (approach * approach);
      NonPositiveQuotient(m * approach, d, k, approach * approach);
      m
    else
      m
  }

  /** A product with a positive factor is non-positive when it equals minus a product of
      non-negatives. */
  lemma NonPositiveQuotient(x: real, d: real, k: real, q: real)
    requires 0.0 < d && 0.0 <= k && 0.0 <= q
    requires x * d == -k * q
    ensures x <= 0.0
  {
    assert k * q >= 0.0 by {
      if k > 0.0 && q > 0.0 {
        ProductPositive(k, q);
      }
    }
    NonPositiveFactor(x, d);
  }

  /** `resolve_collision`: the impulse lies along the contact normal, and its component
      along the normal is the impulse magnitude. */
  function ResolveCollision(c: Contact, formula: ImpulseFormula): (j: Vec2)
    requires ContactAllowed(c, formula)
    ensures j == Scale(c.normal, Dot(j, c.normal))
    ensures Dot(j, c.normal) == ImpulseMagnitude(c, formula)
  {
    var m := ImpulseMagnitude(c, formula);
    DotScaledUnit(c.normal, m);
    Scale(c.normal, m)
  }

  /** The two new velocities once the impulse is applied the way `apply_collisions` and the
      unit tests apply it: added to `a`, subtracted from `b`. The sum of the two velocities
      is kept, their components across the normal are kept, and their components along the
      normal move by the impulse magnitude in opposite directions. */
  function Exchange(c: Contact, formula: ImpulseFormula): (v: (Vec2, Vec2))
    requires ContactAllowed(c, formula)
    ensures Add(v.0, v.1) == Add(c.a.velocity, c.b.velocity)
    ensures Dot(v.0, Perp(c.normal)) == Dot(c.a.velocity, Perp(c.normal))
    ensures Dot(v.1, Perp(c.normal)) == Dot(c.b.velocity, Perp(c.normal))
    ensures Dot(v.0, c.normal) == Dot(c.a.velocity, c.normal) + ImpulseMagnitude(c, formula)
    ensures Dot(v.1, c.normal) == Dot(c.b.velocity, c.normal) - ImpulseMagnitude(c, formula)
  {
    var j := ResolveCollision(c, formula);
    var n, va, vb := c.normal, c.a.velocity, c.b.velocity;
    ScaledAcross(n, ImpulseMagnitude(c, formula));
    DotAdd(va, j, n);
    DotAdd(va, j, Perp(n));
    DotSub(vb, j, n);
    DotSub(vb, j, Perp(n));
    (Add(va, j), Sub(vb, j))
  }

  /** The live formula never looks at the inverse masses. */
  lemma AsWrittenIgnoresMass(c: Contact, ma: real, mb: real)
    requires ContactAllowed(c, AsWritten)
    ensures ResolveCollision(c, AsWritten)
            == ResolveCollision(c.(a := c.a.(inverseMass := ma), b := c.b.(inverseMass := mb)), AsWritten)
  {
  }

  /** Applied the way `apply_collisions` applies it (a += J, b -= J), the live impulse turns
      an approach speed along the normal into a separation speed 1 + 2e times as large, and
      the sum of the two velocities is kept. */
  lemma {:induction false} AsWrittenSeparation(c: Contact)
    requires ContactAllowed(c, AsWritten)
    ensures var j := ResolveCollision(c, AsWritten);
            && Dot(Sub(Add(c.a.velocity, j), Sub(c.b.velocity, j)), c.normal)
               == -(1.0 + 2.0 * Restitution(c)) * Dot(Sub(c.a.velocity, c.b.velocity), c.normal)
            && Add(Add(c.a.velocity, j), Sub(c.b.velocity, j)) == Add(c.a.velocity, c.b.velocity)
  {
    var j := ResolveCollision(c, AsWritten);
    var n := c.normal;
    var d := Dot(Sub(c.a.velocity, c.b.velocity), n);
    assert Dot(j, n) == -(1.0 + Restitution(c)) * d;
    calc {
      Dot(Sub(Add(c.a.velocity, j), Sub(c.b.velocity, j)), n);
      d + 2.0 * Dot(j, n);
      -(1.0 + 2.0 * Restitution(c)) * d;
    }
  }

  /** The weighted formula, applied with each body's inverse mass (a += J * ia, b -= J * ib),
      obeys the law of restitution: the normal separation speed is e times the approach speed. */
  lemma {:induction false} MassWeightedRestitution(c: Contact)
    requires ContactAllowed(c, MassWeighted)
    ensures var j := ResolveCollision(c, MassWeighted);
            var a' := Add(c.a.velocity, Scale(j, c.a.inverseMass));
            var b' := Sub(c.b.velocity, Scale(j, c.b.inverseMass));
            Dot(Sub(a', b'), c.normal) == -Restitution(c) * Dot(Sub(c.a.velocity, c.b.velocity), c.normal)
  {
    var j := ResolveCollision(c, MassWeighted);
    var n := c.normal;
    var ia, ib := c.a.inverseMass, c.b.inverseMass;
    var d := Dot(Sub(c.a.velocity, c.b.velocity), n);
    var k := Dot(j, n);
    assert k * (ia + ib) == -(1.0 + Restitution(c)) * d;
    var a' := Add(c.a.velocity, Scale(j, ia));
    var b' := Sub(c.b.velocity, Scale(j, ib));
    calc {
      Dot(Sub(a', b'), n);
      d + (ia + ib) * Dot(j, n);
      -Restitution(c) * d;
    }
  }

  /** With restitution 1 and unit inverse masses, the weighted impulse applied as
      `apply_collisions` applies it exchanges the two normal velocity components and keeps
      the length of the relative velocity (the claim of the `conservation_of_energy` test). */
  lemma {:induction false} MassWeightedElasticExchange(c: Contact)
    requires ContactAllowed(c, MassWeighted)
    requires c.a.restitution == 1.0 && c.b.restitution == 1.0
    requires c.a.inverseMass == 1.0 && c.b.inverseMass == 1.0
    ensures var j := ResolveCollision(c, MassWeighted);
            var a', b' := Add(c.a.velocity, j), Sub(c.b.velocity, j);
            && Dot(a', c.normal) == Dot(c.b.velocity, c.normal)
            && Dot(b', c.normal) == Dot(c.a.velocity, c.normal)
            && LengthSquared(Sub(a', b')) == LengthSquared(Sub(c.a.velocity, c.b.velocity))
  {
    var j := ResolveCollision(c, MassWeighted);
    var n := c.normal;
    var r := Sub(c.a.velocity, c.b.velocity);
    var d := Dot(r, n);
    assert Dot(j, n) * 2.0 == -2.0 * d;
    assert j == Scale(n, -d);
    var a', b' := Add(c.a.velocity, j), Sub(c.b.velocity, j);
    assert Sub(a', b') == Vec2(r.x - 2.0 * d * n.x, r.y - 2.0 * d * n.y);
    calc {
      LengthSquared(Sub(a', b'));
      (r.x - 2.0 * d * n.x) * (r.x - 2.0 * d * n.x) + (r.y - 2.0 * d * n.y) * (r.y - 2.0 * d * n.y);
      r.x * r.x + r.y * r.y - 4.0 * d * (r.x * n.x + r.y * n.y) + 4.0 * d * d * (n.x * n.x + n.y * n.y);
      r.x * r.x + r.y * r.y - 4.0 * d * d + 4.0 * d * d * 1.0;
      LengthSquared(r);
    }
  }

  /** With restitution 0 and unit inverse masses, the weighted impulse leaves both bodies
      with the same velocity along the normal (the claim of `inelastic_collision_standstill`). */
  lemma {:induction false} MassWeightedInelasticMeet(c: Contact)
    requires ContactAllowed(c, MassWeighted)
    requires c.a.restitution == 0.0 && c.b.restitution == 0.0
    requires c.a.inverseMass == 1.0 && c.b.inverseMass == 1.0
    ensures var j := ResolveCollision(c, MassWeighted);
            Dot(Add(c.a.velocity, j), c.normal) == Dot(Sub(c.b.velocity, j), c.normal)
  {
    var j := ResolveCollision(c, MassWeighted);
    var n := c.normal;
    var d := Dot(Sub(c.a.velocity, c.b.velocity), n);
    assert Dot(j, n) * 2.0 == -d;
  }

  /** A head-on contact along X: normal (1, 0), velocities (v, 0) and (-v, 0), restitution
      e and inverse mass 1 on both sides. The two unit tests use v = 20 with e = 1 and e = 0. */
  function HeadOn(e: real, v: real): Contact {
    Contact(Vec2(1.0, 0.0), Body(e, Vec2(v, 0.0), 1.0), Body(e, Vec2(-v, 0.0), 1.0))
  }

  /** The live formula sends the two bodies of a head-on contact apart at 1 + 2e times their
      speed. */
  lemma HeadOnAsWritten(e: real, v: real)
    requires 0.0 <= e <= 1.0
    ensures ContactAllowed(HeadOn(e, v), AsWritten)
    ensures Exchange(HeadOn(e, v), AsWritten) == (Vec2(-(1.0 + 2.0 * e) * v, 0.0), Vec2((1.0 + 2.0 * e) * v, 0.0))
  {
    var c := HeadOn(e, v);
    assert Restitution(c) == e;
    assert Dot(Sub(c.a.velocity, c.b.velocity), c.normal) == 2.0 * v;
    var k := ImpulseMagnitude(c, AsWritten);
    assert k == -(1.0 + e) * (2.0 * v);
    assert ResolveCollision(c, AsWritten) == Vec2(k, 0.0);
  }

  /** The weighted formula sends them apart at e times their speed: restitution 1 swaps
      the velocities, restitution 0 stops both bodies. */
  lemma HeadOnMassWeighted(e: real, v: real)
    requires 0.0 <= e <= 1.0
    ensures ContactAllowed(HeadOn(e, v), MassWeighted)
    ensures Exchange(HeadOn(e, v), MassWeighted) == (Vec2(-e * v, 0.0), Vec2(e * v, 0.0))
  {
    var c := HeadOn(e, v);
    assert Restitution(c) == e;
    assert Dot(Sub(c.a.velocity, c.b.velocity), c.normal) == 2.0 * v;
    var k := ImpulseMagnitude(c, MassWeighted);
    assert k == -(1.0 + e) * v;
    assert ResolveCollision(c, MassWeighted) == Vec2(k, 0.0);
  }

  /** The separation speeds of the two unit tests, kept apart from the contacts so that
      the solver meets them as plain arithmetic. */
  lemma TestSpeeds(e: real, v: real)
    requires v == 20.0
    ensures e == 1.0 ==> (1.0 + 2.0 * e) * v == 60.0 && e * v == 20.0
    ensures e == 0.0 ==> (1.0 + 2.0 * e) * v == 20.0 && e * v == 0.0
  {
  }

  /** `conservation_of_energy` (e = 1, v = 20) expects the velocities to swap to (-20, 0)
      and (20, 0): the weighted formula gives exactly that. */
  lemma ElasticTestMassWeighted(e: real, v: real)
    requires e == 1.0 && v == 20.0
    ensures ContactAllowed(HeadOn(e, v), MassWeighted)
    ensures Exchange(HeadOn(e, v), MassWeighted) == (Vec2(-20.0, 0.0), Vec2(20.0, 0.0))
  {
    TestSpeeds(e, v);
    HeadOnMassWeighted(e, v);
  }

  /** The live formula gives (-60, 0) and (60, 0) instead, so `conservation_of_energy`
      does not hold for the code `apply_collisions` runs. */
  lemma ElasticTestAsWritten(e: real, v: real)
    requires e == 1.0 && v == 20.0
    ensures ContactAllowed(HeadOn(e, v), AsWritten)
    ensures Exchange(HeadOn(e, v), AsWritten) == (Vec2(-60.0, 0.0), Vec2(60.0, 0.0))
  {
    TestSpeeds(e, v);
    HeadOnAsWritten(e, v);
  }

  /** `inelastic_collision_standstill` (e = 0, v = 20) expects both bodies to stop: the
      weighted formula gives exactly that. */
  lemma InelasticTestMassWeighted(e: real, v: real)
    requires e == 0.0 && v == 20.0
    ensures ContactAllowed(HeadOn(e, v), MassWeighted)
    ensures Exchange(HeadOn(e, v), MassWeighted) == (ZERO, ZERO)
  {
    TestSpeeds(e, v);
    HeadOnMassWeighted(e, v);
  }

  /** The live formula gives (-20, 0) and (20, 0) instead: the bodies bounce apart. */
  lemma InelasticTestAsWritten(e: real, v: real)
    requires e == 0.0 && v == 20.0
    ensures ContactAllowed(HeadOn(e, v), AsWritten)
    ensures Exchange(HeadOn(e, v), AsWritten) == (Vec2(-20.0, 0.0), Vec2(20.0, 0.0))
  {
    TestSpeeds(e, v);
    HeadOnAsWritten(e, v);
  }

  // ---------------------------------------------------------------------------------
  // apply_gravity
  // ---------------------------------------------------------------------------------

  /** The new vertical force of one `apply_gravity` step: 0.4 more, capped to ±20. Within
      the cap it never decreases, and it is exactly 0.4 more while that stays within the cap. */
  function GravityForce(fy: real): (r: real)
    ensures -TERMINAL_VELOCITY <= r <= TERMINAL_VELOCITY
    ensures -TERMINAL_VELOCITY <= fy <= TERMINAL_VELOCITY ==> fy <= r
    ensures r == fy + GRAVITY_STEP <==> fy + GRAVITY_STEP <= TERMINAL_VELOCITY && -TERMINAL_VELOCITY <= fy + GRAVITY_STEP
    ensures fy + GRAVITY_STEP > TERMINAL_VELOCITY ==> r == TERMINAL_VELOCITY
    ensures fy + GRAVITY_STEP < -TERMINAL_VELOCITY ==> r == -TERMINAL_VELOCITY
  {
    Clamp(fy + GRAVITY_STEP, -TERMINAL_VELOCITY, TERMINAL_VELOCITY)
  }

  /** One entity after `apply_gravity`: an entity in the query keeps everything but its
      vertical force, which takes its next capped value; any other entity is untouched. */
  function Gravitated(e: Entity): (r: Entity)
    ensures !InGravityQuery(e) ==> r == e
    ensures InGravityQuery(e) ==>
      && r.(forces := e.forces) == e
      && r.forces.Some? && r.forces.value.x == e.forces.value.x
      && r.forces.value.y == GravityForce(e.forces.value.y)
  {
    if InGravityQuery(e) then
      var f := e.forces.value;
      e.(forces := Some(Vec2(f.x, GravityForce(f.y))))
    else e
  }

  /** The effect of `apply_gravity` on the whole store: only the vertical force of the
      entities with `Gravity` and `ActingForces` changes. */
  function GravityStep(s: seq<Entity>): (r: seq<Entity>)
    ensures SameShape(s, r)
    ensures forall k :: 0 <= k < |s| && InGravityQuery(s[k]) ==>
      && r[k].(forces := s[k].forces) == s[k]
      && r[k].forces.value.x == s[k].forces.value.x
      && r[k].forces.value.y == GravityForce(s[k].forces.value.y)
    ensures forall k :: 0 <= k < |s| && !InGravityQuery(s[k]) ==> r[k] == s[k]
  {
    seq(|s|, k requires 0 <= k < |s| => Gravitated(s[k]))
  }

  method ApplyGravity(w: World)
    modifies w
    ensures w.bodies == GravityStep(old(w.bodies))
  {
    var i := 0;
    while i < |w.bodies|
      invariant 0 <= i <= |w.bodies| == |old(w.bodies)|
      invariant w.bodies[i..] == old(w.bodies)[i..]
      invariant forall k :: 0 <= k < i ==> w.bodies[k] == Gravitated(old(w.bodies)[k])
    {
      var e := w.bodies[i];
      if e.gravity && e.forces.Some? {
        var f := e.forces.value;
        var fy := Clamp(f.y + GRAVITY_STEP, -TERMINAL_VELOCITY, TERMINAL_VELOCITY);
        w.bodies := w.bodies[i := e.(forces := Some(Vec2(f.x, fy)))];
      }
      i := i + 1;
    }
  }

  /** The vertical force after `n` gravity steps with no other force source. */
  function RepeatGravity(fy: real, n: nat): real
    decreases n
  {
    if n == 0 then fy else RepeatGravity(GravityForce(fy), n - 1)
  }

  /** From any force within the cap, `n` gravity steps add 0.4 per step until the force
      reaches 20 and then stay at 20: it never overshoots and never decreases. */
  lemma {:induction false} RepeatedGravity(fy: real, n: nat)
    requires -TERMINAL_VELOCITY <= fy <= TERMINAL_VELOCITY
    ensures RepeatGravity(fy, n) == Min(fy + GRAVITY_STEP * n as real, TERMINAL_VELOCITY)
    decreases n
  {
    if n > 0 {
      var g := GravityForce(fy);
      RepeatedGravity(g, n - 1);
      if fy + GRAVITY_STEP > TERMINAL_VELOCITY {
        assert g == TERMINAL_VELOCITY;
      }
    }
  }

  /** Repeated gravity is monotone and is at the cap after at most 100 steps. */
  lemma {:induction false} GravityApproachesCap(fy: real, n: nat)
    requires -TERMINAL_VELOCITY <= fy <= TERMINAL_VELOCITY
    ensures fy <= RepeatGravity(fy, n) <= RepeatGravity(fy, n + 1) <= TERMINAL_VELOCITY
    ensures n >= 100 ==> RepeatGravity(fy, n) == TERMINAL_VELOCITY
  {
    RepeatedGravity(fy, n);
    RepeatedGravity(fy, n + 1);
  }

  // ---------------------------------------------------------------------------------
  // apply_friction
  // ---------------------------------------------------------------------------------

  /** One entity after `apply_friction`: with a coefficient of 1.0 the scaling leaves the
      force, and so the entity, exactly as it was. */
  function Frictioned(e: Entity): (r: Entity)
    ensures r == e
  {
    if InForceQuery(e) then
      var f := e.forces.value;
      assert Vec2(f.x * FRICTION_COEFFICIENT, f.y * FRICTION_COEFFICIENT) == f;
      e.(forces := Some(Vec2(f.x * FRICTION_COEFFICIENT, f.y * FRICTION_COEFFICIENT)))
    else e
  }

  /** The effect of `apply_friction`: every force accumulator, gravity or not, is scaled
      by the friction coefficient. */
  function FrictionStep(s: seq<Entity>): (r: seq<Entity>)
    ensures SameShape(s, r)
    ensures forall k :: 0 <= k < |s| ==> r[k].(forces := s[k].forces) == s[k]
  {
    seq(|s|, k requires 0 <= k < |s| => Frictioned(s[k]))
  }

  method ApplyFriction(w: World)
    modifies w
    ensures w.bodies == FrictionStep(old(w.bodies))
  {
    var i := 0;
    while i < |w.bodies|
      invariant 0 <= i <= |w.bodies| == |old(w.bodies)|
      invariant w.bodies[i..] == old(w.bodies)[i..]
      invariant forall k :: 0 <= k < i ==> w.bodies[k] == Frictioned(old(w.bodies)[k])
    {
      var e := w.bodies[i];
      if e.forces.Some? {
        var f := e.forces.value;
        f := f.(x := f.x * FRICTION_COEFFICIENT);
        f := f.(y := f.y * FRICTION_COEFFICIENT);
        w.bodies := w.bodies[i := e.(forces := Some(f))];
      }
      i := i + 1;
    }
  }

  /** With a coefficient of 1.0, friction changes nothing. */
  lemma {:induction false} FrictionIsIdentity(s: seq<Entity>)
    ensures FrictionStep(s) == s
  {
    var r := FrictionStep(s);
    forall k | 0 <= k < |s| ensures r[k] == s[k] {
      var e := s[k];
      if e.forces.Some? {
        assert Vec2(e.forces.value.x * 1.0, e.forces.value.y * 1.0) == e.forces.value;
      }
    }
  }

  // ---------------------------------------------------------------------------------
  // integrate_position
  // ---------------------------------------------------------------------------------

  /** One entity after `integrate_position`: an entity with a velocity and a force has the
      force cleared, the velocity grown by force / MASS, the position moved by the new
      velocity and z set to 1.0, and nothing else changed; any other entity is untouched. */
  function Integrated(e: Entity): (r: Entity)
    ensures !InIntegrateQuery(e) ==> r == e
    ensures InIntegrateQuery(e) ==>
      && r.forces == Some(ZERO) && r.velocity.Some?
      && Scale(Sub(r.velocity.value, e.velocity.value), MASS) == e.forces.value
      && Add(Xy(e.translation), r.velocity.value) == Xy(r.translation)
      && r.translation.z == 1.0
      && r.(translation := e.translation, velocity := e.velocity, forces := e.forces) == e
  {
    if InIntegrateQuery(e) then
      var acc := Div(e.forces.value, MASS);
      var v := Add(e.velocity.value, acc);
      e.(forces := Some(ZERO), velocity := Some(v), translation := Extend(Add(Xy(e.translation), v), 1.0))
    else e
  }

  /** The effect of `integrate_position` (semi-implicit Euler with no time step): for every
      entity with a velocity and a force, the force is cleared, the velocity grows by
      force / MASS, the position moves by the NEW velocity and z becomes 1.0; every other
      entity, and every other component, is left alone. */
  function IntegrateStep(s: seq<Entity>): (r: seq<Entity>)
    ensures SameShape(s, r)
    ensures forall k :: 0 <= k < |s| && InIntegrateQuery(s[k]) ==>
      && r[k].forces == Some(ZERO)
      && Scale(Sub(r[k].velocity.value, s[k].velocity.value), MASS) == s[k].forces.value
      && Add(Xy(s[k].translation), r[k].velocity.value) == Xy(r[k].translation)
      && r[k].translation.z == 1.0
      && r[k].(translation := s[k].translation, velocity := s[k].velocity, forces := s[k].forces) == s[k]
    ensures forall k :: 0 <= k < |s| && !InIntegrateQuery(s[k]) ==> r[k] == s[k]
  {
    seq(|s|, k requires 0 <= k < |s| => Integrated(s[k]))
  }

  method IntegratePosition(w: World)
    modifies w
    ensures w.bodies == IntegrateStep(old(w.bodies))
  {
    var i := 0;
    while i < |w.bodies|
      invariant 0 <= i <= |w.bodies| == |old(w.bodies)|
      invariant w.bodies[i..] == old(w.bodies)[i..]
      invariant forall k :: 0 <= k < i ==> w.bodies[k] == Integrated(old(w.bodies)[k])
    {
      var e := w.bodies[i];
      if e.velocity.Some? && e.forces.Some? {
        var acc := Div(e.forces.value, MASS);
        var velocity := Add(e.velocity.value, acc);
        var translation := Extend(Add(Xy(e.translation), velocity), 1.0);
        w.bodies := w.bodies[i := e.(forces := Some(ZERO), velocity := Some(velocity), translation := translation)];
      }
      i := i + 1;
    }
  }
}
