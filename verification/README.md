# mel0n physics tick, modelled in Dafny

This project models the fixed-step physics tick of the `mel0n` crate, a small falling-fruit game built on Bevy. Each `FixedUpdate` runs five systems in a fixed chain over the bodies of the ECS world:

1. `apply_gravity` adds 0.4 to the vertical force accumulator and caps it at ±20.
2. `apply_friction` scales every force accumulator by 1.0.
3. `integrate_position` performs a semi-implicit Euler step: `v += f / 16`, then `xy += v`, then `f := 0` and `z := 1`.
4. `apply_collisions` walks every unordered pair of fruits. For each pair whose bounding circles overlap, it bumps both `Collided` counters and applies the impulse of `resolve_collision` as `a += J`, `b -= J`.
5. `constrain_objects` clamps every fruit into the arena. When a coordinate was out of range, it multiplies that velocity component by -0.2.

The wall entities (`WallLocation::position`, `WallLocation::size`, `Wall::new`) are modelled too. So are the two bounding-volume helpers.

## How the model is built

**Numbers and components**
- `real` stands in for `f32`; vectors are the `Math.Vec2` and `Math.Vec3` datatypes.
- An entity is one `Entities.Entity` record.
  - Optional components (`Velocity`, `ActingForces`, `Diameter`, `Collided`, `Collider`) are `Option` fields.
  - Marker components (`Gravity`, `Physics`, `Fruit`, `Wall`) are flags.
  - Each Bevy query is a predicate on the record.

**The world and the systems**
- The world is the class `Entities.World`. Its field `bodies: seq<Entity>` is visited in index order, which stands in for the query iteration order.
- Each system is a method that updates `w.bodies` in place with a loop, as the Rust code does.
- Each method is proved equal to a specification function on the old store: `GravityStep`, `FrictionStep`, `IntegrateStep`, `CollisionStep` or `ConstrainStep`.
- The properties are proved as lemmas about those functions.

**Collisions**
- `Collisions.ApplyCollisions` is the pair walk (i, j), i < j, row by row, in the order `iter_combinations_mut` produces.
- Each pair sees the velocities left by earlier pairs.
- Its loop body is `Collisions.CollidePair`.

**The tick**
- `Mel0n.Tick` calls the five systems in the order of `mel0n/src/lib.rs:85-96`.
- Gravity and friction are gated by `not_moon_physics`.

**The contact normal**
- The code computes `Vec2::from_angle(a.xy.angle_to(b.xy)).normalize()`.
- The model takes the normal as a parameter `normalOf` and requires it to always be a unit vector.
- Note that `angle_to` gives the angle between the two position vectors as seen from the origin. The normal the code uses is therefore not, in general, the direction from one fruit to the other. The properties below hold for any unit normal, including that one.

**The two impulse formulas.** `resolve_collision` holds two formulas:
- Line 56, which runs: `-(1+e)·((va-vb)·n)`.
- Line 55, commented out: the same value divided by `ia + ib`.

The model keeps both as `Physics.ImpulseFormula` (`AsWritten`, `MassWeighted`). `apply_collisions` uses `AsWritten`, as the code does.

The two unit tests (`conservation_of_energy`, `inelastic_collision_standstill`) use unit inverse masses. They hold only for `MassWeighted`:
- `ElasticTestMassWeighted` and `InelasticTestMassWeighted` prove the tests' expected velocities for `MassWeighted`.
- `ElasticTestAsWritten` and `InelasticTestAsWritten` prove the velocities the live formula gives instead: (-60, 0)/(60, 0) and (-20, 0)/(20, 0).

In general:
- With `AsWritten`, the normal separation speed is (1 + 2e) times the approach speed (`AsWrittenSeparation`).
- With `MassWeighted` applied per inverse mass, it is e times the approach speed (`MassWeightedRestitution`).

The comment at line 54 presents the live line as a deliberate simplification, so the model follows it everywhere.

**What the code does not do.** A reader expecting a textbook impulse solver should note the following about the code:
- the impulse that runs is line 56, which ignores mass; the divided form at line 55 is commented out;
- the normal comes from `angle_to` between the two position vectors, not from an atan2 of their difference;
- `integrate_position` has no time step `dt`: each fixed update adds `f / MASS` to the velocity and the new velocity to the position;
- `MASS` is divided out only in `integrate_position`; the collision response uses `INV_MASS` only as a field of `Body`, which line 56 never reads;
- there is no positional (penetration) correction, so overlapping fruits are not pushed apart;
- no pair is skipped for already moving apart: every overlapping pair receives the impulse;
- no guard exists for a zero-length normal;
- no impulse event is sent.

## Model

| member | source | states |
|---|---|---|
| Math.Clamp | mel0n/src/wall.rs:93-101 | `f32::clamp`: needs lo <= hi (the code panics otherwise); an input below the range becomes lo, one above it becomes hi, and one inside it is kept (so the result lies in [lo, hi] and equals the input exactly when the input was in range) |
| Helpers.BoundingCircle | mel0n/src/physics.rs:188-191 | the radius is half the diameter, and the circle's bounding square runs from the translation to the translation plus (d, d) |
| Helpers.Aabb2d | mel0n/src/physics.rs:193-198 | the box built from a translation and a half size starts at the translation and spans twice the half size |
| Helpers.Intersects | mel0n/src/physics.rs:133 | bevy's circle overlap test: circles sharing a centre always overlap; circles whose centres are further apart along either axis than the sum of the radii never do; on a common horizontal line they overlap exactly when the centres are at most that sum apart |
| Helpers.IntersectsSymmetric | mel0n/src/physics.rs:133 | the circle overlap test (squared centre distance at most the squared sum of radii) does not depend on argument order |
| Physics.ImpulseMagnitude | mel0n/src/physics.rs:39-56 | the magnitude times the divisor (1 for line 56, ia + ib for line 55) is -(1+e)·((va-vb)·n); with a positive divisor it never has the sign of the approach speed (va-vb)·n, so along n the impulse opposes the approach; because n is the `angle_to` normal and not the direction between the fruits, this does not mean the fruits separate, and the impulse can raise their closing speed |
| Physics.ResolveCollision | mel0n/src/physics.rs:30-72 | under the assertions of lines 31-41, the impulse lies along the contact normal and its component along the normal is the impulse magnitude |
| Physics.Exchange | mel0n/src/physics.rs:175-176 | applied as a += J, b -= J: the sum of the two velocities is kept, each velocity's component across the normal is kept, and the components along the normal move by +m and -m |
| Physics.AsWrittenIgnoresMass | mel0n/src/physics.rs:56 | the live impulse does not depend on the inverse masses |
| Physics.AsWrittenSeparation | mel0n/src/physics.rs:147-176 | applied as a += J, b -= J, the live impulse keeps va + vb and turns the normal approach speed d into -(1+2e)·d |
| Physics.MassWeightedRestitution | mel0n/src/physics.rs:55 | the divided impulse, applied per inverse mass, turns d into -e·d (the law of restitution) |
| Physics.MassWeightedElasticExchange | mel0n/src/physics.rs:217-247 | with e = 1 and unit inverse masses, the divided impulse swaps the normal components of the two velocities and keeps the length of va - vb |
| Physics.MassWeightedInelasticMeet | mel0n/src/physics.rs:249-272 | with e = 0 and unit inverse masses, both bodies end with the same normal velocity |
| Physics.HeadOnAsWritten | mel0n/src/physics.rs:56 | for the tests' head-on geometry (normal X, velocities (v, 0) and (-v, 0)), the live formula gives (-(1+2e)v, 0) and ((1+2e)v, 0) |
| Physics.HeadOnMassWeighted | mel0n/src/physics.rs:55 | for the same geometry, the divided formula gives (-ev, 0) and (ev, 0) |
| Physics.ElasticTestMassWeighted | mel0n/src/physics.rs:217-247 | `conservation_of_energy` holds for the divided formula: (-20, 0) and (20, 0) |
| Physics.ElasticTestAsWritten | mel0n/src/physics.rs:217-247 | the live formula gives (-60, 0) and (60, 0), so that test's assertions do not hold for it |
| Physics.InelasticTestMassWeighted | mel0n/src/physics.rs:249-272 | `inelastic_collision_standstill` holds for the divided formula: both bodies stop |
| Physics.InelasticTestAsWritten | mel0n/src/physics.rs:249-272 | the live formula gives (-20, 0) and (20, 0) instead of rest |
| Physics.GravityForce | mel0n/src/physics.rs:91 | the new vertical force lies in [-20, 20], is never below a force already in range, is exactly fy + 0.4 iff that is in range, and is 20 (or -20) when fy + 0.4 is above (or below) the range |
| Physics.Gravitated | mel0n/src/physics.rs:90-92 | one entity: in the query, only fy changes, to its next capped value, and fx is kept; outside the query, nothing changes |
| Physics.GravityStep | mel0n/src/physics.rs:88-93 | only entities with `Gravity` and `ActingForces` change; of those only fy changes, to the capped fy + 0.4, and fx is kept |
| Physics.ApplyGravity | mel0n/src/physics.rs:88-93 | the in-place loop leaves the store equal to `GravityStep` of the old store |
| Physics.RepeatedGravity | mel0n/src/physics.rs:89-91 | from fy in [-20, 20], n gravity steps give exactly min(fy + 0.4·n, 20) |
| Physics.GravityApproachesCap | mel0n/src/physics.rs:89-91 | repeated gravity stays in range, never decreases, never exceeds 20, and reaches 20 after at most 100 steps |
| Physics.Frictioned | mel0n/src/physics.rs:98-101 | one entity: with coefficient 1.0 the scaling leaves the entity exactly as it was |
| Physics.FrictionStep | mel0n/src/physics.rs:96-102 | only force accumulators change; shapes are kept |
| Physics.ApplyFriction | mel0n/src/physics.rs:96-102 | the in-place loop (x, then y) leaves the store equal to `FrictionStep` of the old store |
| Physics.FrictionIsIdentity | mel0n/src/physics.rs:97-101 | with coefficient 1.0, friction changes nothing at all |
| Physics.Integrated | mel0n/src/physics.rs:107-113 | one entity with velocity and force: force becomes (0, 0), 16·(v' - v) = f, xy' = xy + v', z' = 1, nothing else changes; any other entity is untouched |
| Physics.IntegrateStep | mel0n/src/physics.rs:106-114 | for each entity with velocity and force: force becomes (0, 0), 16·(v' - v) = f, xy' = xy + v' (the new velocity, no dt), z' = 1, nothing else changes; other entities are untouched |
| Physics.IntegratePosition | mel0n/src/physics.rs:106-114 | the in-place loop leaves the store equal to `IntegrateStep` of the old store |
| Collisions.Interacts | mel0n/src/physics.rs:116-135 | the pairs the loop acts on: two distinct members of the `(With<Physics>, With<Fruit>)` query with `Diameter`, `Velocity` and `Collided` whose bounding circles intersect; a pair never involves one entity twice or an entity outside the query, and two fruits of one size at one spot always pair |
| Collisions.PairContact | mel0n/src/physics.rs:142-159 | the `Contact` built for a pair: the normal `normalOf(a.xy, b.xy)` in that order, restitution min(0.7, 0.7) = 0.7, each body's own velocity and inverse mass 1/16 on both sides, so the assertions of `resolve_collision` hold exactly when the normal is a unit vector, under either formula |
| Collisions.InteractsSymmetric | mel0n/src/physics.rs:130-135 | whether two fruits form an acting pair does not depend on their order |
| Collisions.InteractsLayout | mel0n/src/physics.rs:116-135 | which pairs act depends only on positions, diameters and markers, none of which the loop writes |
| Collisions.PairContactAllowed | mel0n/src/physics.rs:142-159 | the contact the loop builds (unit normal, restitution 0.7 on both sides) always passes the assertions of `resolve_collision` |
| Collisions.PairStep | mel0n/src/physics.rs:130-176 | one pass of the loop body for the pair (i, j): the store keeps its length, and each of the two counters goes up by one exactly when the pair overlaps |
| Collisions.PairVelocities | mel0n/src/physics.rs:142-176 | for an overlapping pair, the first velocity becomes va + J and the second vb - J, where J is `resolve_collision`'s impulse for the contact built from the two translations and velocities (the pair `Exchange` describes) |
| Collisions.PairEffect | mel0n/src/physics.rs:130-176 | one pair step moves nothing and keeps every component shape; it adds exactly one hit to each side of an overlapping pair and leaves every other entity (and both sides of a non-overlapping pair) unchanged; it keeps the sum of all velocities |
| Collisions.CollidePair | mel0n/src/physics.rs:130-176 | the loop body, updating the two bodies in place, leaves the store equal to `PairStep` of the old store |
| Collisions.RowKeepsLayout | mel0n/src/physics.rs:122-177 | a row of pairs moves nothing and changes no component except velocity and counter values |
| Collisions.RowKeepsVelocitySum | mel0n/src/physics.rs:122-177 | a row of pairs keeps the sum of all velocities |
| Collisions.RowsKeepLayout | mel0n/src/physics.rs:122-177 | the remaining rows move nothing and change no component except velocity and counter values |
| Collisions.RowsKeepVelocitySum | mel0n/src/physics.rs:122-177 | the remaining rows keep the sum of all velocities |
| Collisions.RowEffect | mel0n/src/physics.rs:122-138 | after the pairs (i, j) … (i, n-1), fruit i has as many extra hits as it has partners from j on, each later fruit has one more hit iff it overlaps i, and an entity with no extra hit is unchanged |
| Collisions.RowsEffect | mel0n/src/physics.rs:122-138 | after rows i … n-1, each fruit k >= i has as many extra hits as it has partners from index i on; fruits before i are unchanged |
| Collisions.CollideRowPairs | mel0n/src/physics.rs:122-177 | the in-place walk over the pairs (i, i+1) … (i, n-1) leaves the store equal to that row of `PairStep`s applied to the old store |
| Collisions.ApplyCollisions | mel0n/src/physics.rs:116-178 | the nested in-place pair loop leaves the store equal to `CollisionStep` of the old store |
| Collisions.CountInIsSetSize | mel0n/src/physics.rs:137-138 | the partner count of a fruit is the size of its set of overlapping partners |
| Collisions.CollisionStep | mel0n/src/physics.rs:116-178 | `apply_collisions` keeps the store's length and the sum of all velocities, and changes nothing but velocity and counter values (no position moves); each `Collided` grows by exactly the number of fruits that fruit overlaps; an entity is unchanged iff it has no partner (so every non-fruit, every body without `Physics`, and every isolated fruit keeps its velocity) |
| Walls.Position | mel0n/src/wall.rs:31-38 | the side walls sit at y = 0, and the bottom and top walls at x = 0 |
| Walls.Size | mel0n/src/wall.rs:41-56 | both dimensions are positive (the code's two assertions hold); side walls are (1, height + 1), bottom and top are (width + 1, 1) |
| Walls.NewWall | mel0n/src/wall.rs:63-77 | a wall has the `Wall` and `Physics` markers, a translation at its position with z = 0, and a collider whose half size is half its size, and nothing else; the box `aabb2d` would build from it spans position .. position + size |
| Walls.WallGeometry | mel0n/src/wall.rs:9-56 | Left (62, 0), Right (178, 0), Bottom (0, 147), Top (0, 0); side walls 1 × 148, bottom and top 117 × 1 |
| Walls.WallBoxes | mel0n/src/wall.rs:63-77 | the boxes `aabb2d` would build from the walls' translations and colliders (no system of the program computes them): Left (62, 0)-(63, 148), Right (178, 0)-(179, 148), Bottom (0, 147)-(117, 148), Top (0, 0)-(117, 1) |
| Walls.Constrained | mel0n/src/wall.rs:93-101 | one fruit ends inside the arena with its diameter, its z and every other component kept, only translation and velocity changing; any other entity is untouched |
| Walls.ConstrainStep | mel0n/src/wall.rs:87-103 | every fruit ends with 62 <= x <= 178 - d and -9999 <= y <= 147 - d, with its z, diameter and other components kept; only the translation and velocity of fruits change |
| Walls.ConstrainObjects | mel0n/src/wall.rs:87-103 | the in-place loop, with the clamp bounds it needs to not panic, leaves the store equal to `ConstrainStep` of the old store |
| Walls.BounceRule | mel0n/src/wall.rs:93-98 | each velocity component becomes -0.2 times itself exactly when its coordinate was out of range, and is kept otherwise; the axes are decided independently |
| Walls.ClampMovesOnlyOutliers | mel0n/src/wall.rs:100-101 | a coordinate changes iff it was out of range, and then lands on the bound it crossed: x below 62 becomes 62, x above 178 - d becomes 178 - d, y below -9999 becomes -9999, y above 147 - d becomes 147 - d |
| Walls.ContainedUntouched | mel0n/src/wall.rs:93-101 | a fruit already in the arena is left exactly as it was |
| Walls.ConstrainIdempotent | mel0n/src/wall.rs:87-103 | applying `constrain_objects` twice equals applying it once |
| Walls.ContainedBetweenWalls | mel0n/src/wall.rs:93-101 | a contained fruit's bounding square starts at or right of the left wall box's outer edge (62), so it can overlap that box by at most its one-unit width; it ends at or left of the right wall box's inner edge (178) and its y + d is at most the bottom wall box's smaller y (147) |
| Mel0n.ClampSafeByShape | mel0n/src/wall.rs:93-96 | the clamp bounds the fruits satisfy at the start of a tick still hold when `constrain_objects` runs |
| Mel0n.Forced | mel0n/src/lib.rs:88-89 | the gated gravity and friction steps keep every entity's shape |
| Mel0n.Moved | mel0n/src/lib.rs:90-91 | integration and collisions keep every entity's shape |
| Mel0n.TickSpec | mel0n/src/lib.rs:85-96 | the chain gravity → friction → integrate → collisions → constrain keeps every entity's shape |
| Mel0n.Tick | mel0n/src/lib.rs:85-96 | running the five systems in order leaves the store equal to `TickSpec` of the old store |
| Mel0n.TickWithoutFriction | mel0n/src/lib.rs:69-89 | as `MOON_PHYSICS` is false and friction is the identity, the forcing step is just gravity, and a tick is gravity, integration, collisions, then the constraint |
| Mel0n.TickClearsForces | mel0n/src/lib.rs:90-92 | after a tick, every entity with both a velocity and a force accumulator has force (0, 0) |
| Mel0n.TickContains | mel0n/src/lib.rs:92 | after a tick, every fruit is inside the arena bounds of `constrain_objects` |
| Mel0n.TickCounts | mel0n/src/lib.rs:91 | over a tick, each `Collided` grows by exactly the number of fruits it overlaps after integration, so it never decreases |
| Mel0n.TickLeavesStaticAlone | mel0n/src/lib.rs:85-96 | an entity with neither velocity nor force (every wall `Wall::new` builds) comes out of a tick unchanged |

## Left out

- Floating point: `f32` rounding, NaN and infinities are not modelled. `real` is exact, so `is_normalized`'s tolerance becomes an exact unit length.
- The trigonometry of the normal (`angle_to`, `from_angle`, `normalize`): the normal is the parameter `normalOf`, which must always return a unit vector.
- Bevy's bounding-volume internals: `BoundingCircle::intersects` is modelled as its formula (squared centre distance at most the squared sum of radii).
- Collided counter: the model uses an unbounded `nat`, so the `u32` overflow of `+= 1` is not modelled.
- Collisions.PairContactAllowed: holds only because `normalOf` is required to return a unit vector for every pair of positions. In the code, `angle_to` of a zero vector is NaN, so a fruit whose translation is exactly (0, 0) when `apply_collisions` runs makes the `is_normalized` assertion (mel0n/src/physics.rs:31-34) panic; the model does not capture that panic.
- Physics.ResolveCollision: its assertions become the precondition `ContactAllowed`. For the line 55 variant this also requires a non-zero inverse-mass sum, where the code would divide by zero.
- The `warn!` logging of large impulses (mel0n/src/physics.rs:61-70): a side effect with no effect on the result.
- `CollisionEvent`, the `Collision` enum and `ImpulseGizmoEvent` carry no physics state.
- `add_walls` (mel0n/src/wall.rs:80-85) only spawns the four `Wall::new` bundles through `Commands`; entity spawning is not part of this model.
- Transform scale and rotation: only the translation is modelled.
- Query order is taken to be the store's index order; Bevy's archetype-dependent iteration order is not modelled.
- The `MOON_PHYSICS = true` configuration: the gate is modelled, but with the constant false the skipping branch never runs.
- The plugin wiring, `make_root`, the `Startup` and `Update` systems, fruit spawning and input (mel0n/src/fruit.rs), the desktop and GBA front ends (bin-desktop/src/main.rs, bin-gba/src/main.rs, mel0n/src/gba.rs): ECS plumbing, rendering and input.
- `kill_busy_fruits` and the `angle_draw` atan2 experiment in the desktop front end are not part of the tick.
- Mel0n.TickClearsForces: this covers only entities with both a velocity and a force. An entity with `ActingForces` but no `Velocity` is not integrated, so its force is not cleared.
