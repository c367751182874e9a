/** The slice of the ECS world the physics tick sees: one record per entity holding the
    components the systems query, and the queries themselves as predicates. */
module Entities {
  import opened Math

  datatype Option<T> = None | Some(value: T)

  /** One entity. Every entity carries a `Transform` (only its translation matters here);
      the other components are present or absent, and the unit-struct marker components
      are flags. */
  datatype Entity = Entity(
    translation: Vec3,
    velocity: Option<Vec2>,   // `Velocity`
    forces: Option<Vec2>,     // `ActingForces`
    diameter: Option<real>,   // `Diameter`
    collided: Option<nat>,    // `Collided`
    collider: Option<Vec2>,   // `Collider::half_size`
    gravity: bool,            // `Gravity`
    physics: bool,            // `Physics`
    fruit: bool,              // `Fruit`
    wall: bool                // `Wall`
  )

  /** `Query<&mut ActingForces, With<Gravity>>` */
  predicate InGravityQuery(e: Entity) { e.gravity && e.forces.Some? }

  /** `Query<&mut ActingForces>` */
  predicate InForceQuery(e: Entity) { e.forces.Some? }

  /** `Query<(&mut Transform, &mut Velocity, &mut ActingForces)>` */
  predicate InIntegrateQuery(e: Entity) { e.velocity.Some? && e.forces.Some? }

  /** `Query<(&mut Transform, &Diameter, &mut Velocity, &mut Collided), (With<Physics>, With<Fruit>)>` */
  predicate InCollisionQuery(e: Entity) {
    e.physics && e.fruit && e.diameter.Some? && e.velocity.Some? && e.collided.Some?
  }

  /** `Query<(&mut Transform, &mut Velocity, &Diameter), With<Fruit>>` */
  predicate InConstrainQuery(e: Entity) { e.fruit && e.velocity.Some? && e.diameter.Some? }

  /** The value of the `Collided` counter, 0 for an entity without one. */
  function Hits(e: Entity): nat { if e.collided.Some? then e.collided.value else 0 }

  /** What no system of the tick changes: which components and markers an entity has and
      its diameter (the translation, the velocity, the force and the counter values may change). */
  function Shape(e: Entity): Entity {
    e.(translation := Vec3(0.0, 0.0, 0.0),
       velocity := if e.velocity.Some? then Some(ZERO) else None,
       forces := if e.forces.Some? then Some(ZERO) else None,
       collided := if e.collided.Some? then Some(0) else None)
  }

  predicate SameShape(s: seq<Entity>, t: seq<Entity>) {
    |s| == |t| && forall k :: 0 <= k < |s| ==> Shape(s[k]) == Shape(t[k])
  }

  /** The body store the fixed-update systems run over, addressed by index; the index
      order is the order in which queries visit the entities. */
  class World {
    var bodies: seq<Entity>
  }
}
