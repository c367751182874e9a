/** `apply_collisions`: every unordered pair of fruits, in query order, is checked for
    overlap of their bounding circles; an overlapping pair has both `Collided` counters
    bumped and receives the live impulse of `resolve_collision`, added to the first
    velocity and subtracted from the second. Velocities are updated in place, so a later
    pair sees the velocities an earlier pair left behind. */
module Collisions {
  import opened Math
  import opened Entities
  import opened Helpers
  import opened Physics

  /** The contact normal of a pair, from the two translations. In the code it is
      `Vec2::from_angle(a.angle_to(b)).normalize()`; here it is any function that always
      returns a unit vector. */
  type NormalFn = (Vec2, Vec2) -> Vec2

  ghost predicate UnitNormals(normalOf: NormalFn) {
    forall p, q :: IsUnit(normalOf(p, q))
  }

  /** The bounding circle `apply_collisions` builds for an entity. */
  function Bound(e: Entity): Circle
    requires e.diameter.Some?
  {
    BoundingCircle(e.diameter.value, e.translation)
  }

  /** Entities `i` and `j` form a pair the loop acts on: two distinct members of the
      collision query whose bounding circles intersect. An entity never pairs with itself
      or outside the query, and two fruits of one size at one spot always pair. */
  function Interacts(s: seq<Entity>, i: int, j: int): (r: bool)
    requires 0 <= i < |s| && 0 <= j < |s|
    ensures r ==> i != j && InCollisionQuery(s[i]) && InCollisionQuery(s[j])
    ensures (&& i != j && InCollisionQuery(s[i]) && InCollisionQuery(s[j])
             && s[i].translation == s[j].translation && s[i].diameter == s[j].diameter) ==> r
  {
    && i != j
    && InCollisionQuery(s[i]) && InCollisionQuery(s[j])
    && Intersects(Bound(s[i]), Bound(s[j]))
  }

  lemma InteractsSymmetric(s: seq<Entity>, i: int, j: int)
    requires 0 <= i < |s| && 0 <= j < |s|
    ensures Interacts(s, i, j) == Interacts(s, j, i)
  {
    if InCollisionQuery(s[i]) && InCollisionQuery(s[j]) {
      IntersectsSymmetric(Bound(s[i]), Bound(s[j]));
    }
  }

  /** What `apply_collisions` never changes: everything except the velocity and counter
      values (the translation is borrowed mutably but never written). */
  function Layout(e: Entity): Entity {
    e.(velocity := if e.velocity.Some? then Some(ZERO) else None,
       collided := if e.collided.Some? then Some(0) else None)
  }

  predicate SameLayout(s: seq<Entity>, t: seq<Entity>) {
    |s| == |t| && forall k :: 0 <= k < |s| ==> Layout(s[k]) == Layout(t[k])
  }

  lemma SameLayoutTransitive(s: seq<Entity>, t: seq<Entity>, u: seq<Entity>)
    requires SameLayout(s, t) && SameLayout(t, u)
    ensures SameLayout(s, u)
  {
    forall k | 0 <= k < |s|
      ensures Layout(s[k]) == Layout(u[k])
    {
      assert Layout(s[k]) == Layout(t[k]);
    }
  }

  /** Which pairs interact depends only on the layout, so it does not change while the
      loop runs. */
  lemma InteractsLayout(s: seq<Entity>, t: seq<Entity>, i: int, j: int)
    requires SameLayout(s, t)
    requires 0 <= i < |s| && 0 <= j < |s|
    ensures Interacts(s, i, j) == Interacts(t, i, j)
  {
    assert Layout(s[i]) == Layout(t[i]);
    assert Layout(s[j]) == Layout(t[j]);
  }

  /** The contact `apply_collisions` hands to `resolve_collision`: both bodies carry
      restitution 0.7, their own velocity and `INV_MASS`, so whether the contact passes the
      assertions of `resolve_collision` depends only on the normal, for either formula. */
  function PairContact(a: Entity, b: Entity, normalOf: NormalFn): (c: Contact)
    requires a.velocity.Some? && b.velocity.Some?
    ensures Restitution(c) == 0.7
    ensures c.a.velocity == a.velocity.value && c.b.velocity == b.velocity.value
    ensures c.a.inverseMass == c.b.inverseMass == 1.0 / 16.0
    ensures ContactAllowed(c, AsWritten) <==> IsUnit(c.normal)
    ensures ContactAllowed(c, MassWeighted) <==> IsUnit(c.normal)
  {
    Contact(normalOf(Xy(a.translation), Xy(b.translation)),
            Body(ELASTICITY, a.velocity.value, INV_MASS),
            Body(ELASTICITY, b.velocity.value, INV_MASS))
  }

  /** The assertions of `resolve_collision` never fire inside `apply_collisions`. */
  lemma PairContactAllowed(a: Entity, b: Entity, normalOf: NormalFn)
    requires a.velocity.Some? && b.velocity.Some?
    requires UnitNormals(normalOf)
    ensures ContactAllowed(PairContact(a, b, normalOf), AsWritten)
  {
    var n := normalOf(Xy(a.translation), Xy(b.translation));
    assert IsUnit(n);
  }

  /** One entity of an overlapping pair after the loop body: new velocity, counter + 1. */
  function Bumped(e: Entity, v: Vec2): Entity {
    e.(velocity := Some(v), collided := Some(Hits(e) + 1))
  }

  /** The velocity an entity contributes to the total, (0, 0) without a `Velocity`. */
  function VelocityOf(e: Entity): Vec2 {
    if e.velocity.Some? then e.velocity.value else ZERO
  }

  datatype Axis = X | Y

  function Along(v: Vec2, axis: Axis): real {
    match axis
    case X => v.x
    case Y => v.y
  }

  /** The sum of one coordinate of all velocities in the store. */
  function AxisSum(s: seq<Entity>, axis: Axis): real {
    if |s| == 0 then 0.0 else Along(VelocityOf(s[0]), axis) + AxisSum(s[1..], axis)
  }

  /** The sum of all velocities in the store. */
  function VelocitySum(s: seq<Entity>): Vec2 {
    Vec2(AxisSum(s, X), AxisSum(s, Y))
  }

  lemma {:induction false} AxisSumUpdate(s: seq<Entity>, k: int, e: Entity, axis: Axis)
    requires 0 <= k < |s|
    ensures AxisSum(s[k := e], axis) == AxisSum(s, axis) - Along(VelocityOf(s[k]), axis) + Along(VelocityOf(e), axis)
  {
    var t := s[k := e];
    if k == 0 {
      assert t[1..] == s[1..];
    } else {
      assert t[1..] == s[1..][k - 1 := e];
      AxisSumUpdate(s[1..], k - 1, e, axis);
    }
  }

  /** Replacing entity `k` changes the total by the difference of the two velocities. */
  lemma VelocitySumUpdate(s: seq<Entity>, k: int, e: Entity)
    requires 0 <= k < |s|
    ensures VelocitySum(s[k := e]) == Add(Sub(VelocitySum(s), VelocityOf(s[k])), VelocityOf(e))
  {
    AxisSumUpdate(s, k, e, X);
    AxisSumUpdate(s, k, e, Y);
  }

  /** The share of the counter increments a step gives entity `k`: `c` more hits, and
      when `c` is 0 the entity is not touched at all. */
  predicate Gained(s: seq<Entity>, r: seq<Entity>, k: int, c: nat)
    requires 0 <= k < |s| == |r|
  {
    Hits(r[k]) == Hits(s[k]) + c && (c == 0 ==> r[k] == s[k])
  }

  /** What the pair (i, j) gives entity k: one hit to each side of an overlapping pair. */
  function PairShare(s: seq<Entity>, i: int, j: int, k: int): nat
    requires 0 <= i < j < |s| && 0 <= k < |s|
  {
    if Interacts(s, i, j) && (k == i || k == j) then 1 else 0
  }

  /** One pass of the loop body, for the pair (i, j) with i < j: both counters of the pair
      go up by one exactly when the pair overlaps (the whole effect is stated by
      `PairEffect`). */
  function PairStep(s: seq<Entity>, i: int, j: int, normalOf: NormalFn): (r: seq<Entity>)
    requires 0 <= i < j < |s|
    requires UnitNormals(normalOf)
    ensures |r| == |s|
    ensures Interacts(s, i, j) <==> Hits(r[i]) == Hits(s[i]) + 1
    ensures Interacts(s, i, j) <==> Hits(r[j]) == Hits(s[j]) + 1
  {
    if Interacts(s, i, j) then
      PairContactAllowed(s[i], s[j], normalOf);
      var v := Exchange(PairContact(s[i], s[j], normalOf), AsWritten);
      s[i := Bumped(s[i], v.0)][j := Bumped(s[j], v.1)]
    else
      s
  }

  /** A pair step moves nothing, bumps the two counters of an overlapping pair and
      nothing else, and keeps the sum of the velocities. */
  lemma PairEffect(s: seq<Entity>, i: int, j: int, normalOf: NormalFn)
    requires 0 <= i < j < |s|
    requires UnitNormals(normalOf)
    ensures SameLayout(s, PairStep(s, i, j, normalOf))
    ensures forall k :: 0 <= k < |s| ==> Gained(s, PairStep(s, i, j, normalOf), k, PairShare(s, i, j, k))
    ensures VelocitySum(PairStep(s, i, j, normalOf)) == VelocitySum(s)
  {
    if Interacts(s, i, j) {
      PairContactAllowed(s[i], s[j], normalOf);
      var v := Exchange(PairContact(s[i], s[j], normalOf), AsWritten);
      var t := s[i := Bumped(s[i], v.0)];
      VelocitySumUpdate(s, i, Bumped(s[i], v.0));
      VelocitySumUpdate(t, j, Bumped(s[j], v.1));
    }
  }

  /** The velocities an overlapping pair leaves behind: the impulse `resolve_collision`
      computes for the pair is added to the first velocity and subtracted from the
      second, which is the exchange `Exchange` describes. */
  lemma PairVelocities(s: seq<Entity>, i: int, j: int, normalOf: NormalFn)
    requires 0 <= i < j < |s|
    requires UnitNormals(normalOf)
    requires Interacts(s, i, j)
    ensures var c := PairContact(s[i], s[j], normalOf);
            var jv := ResolveCollision(c, AsWritten);
            && PairStep(s, i, j, normalOf)[i].velocity == Some(Add(s[i].velocity.value, jv))
            && PairStep(s, i, j, normalOf)[j].velocity == Some(Sub(s[j].velocity.value, jv))
            && Exchange(c, AsWritten) == (Add(s[i].velocity.value, jv), Sub(s[j].velocity.value, jv))
  {
    PairContactAllowed(s[i], s[j], normalOf);
  }

  /** The pairs (i, j), (i, j + 1), ..., (i, n - 1), in that order. */
  function CollideRow(s: seq<Entity>, i: int, j: int, normalOf: NormalFn): (r: seq<Entity>)
    requires 0 <= i < |s| && i < j <= |s|
    requires UnitNormals(normalOf)
    ensures |r| == |s|
    decreases |s| - j
  {
    if j == |s| then s else CollideRow(PairStep(s, i, j, normalOf), i, j + 1, normalOf)
  }

  /** A row of pairs moves nothing and changes no component except velocity and counter
      values. */
  lemma {:induction false} RowKeepsLayout(s: seq<Entity>, i: int, j: int, normalOf: NormalFn)
    requires 0 <= i < |s| && i < j <= |s|
    requires UnitNormals(normalOf)
    ensures SameLayout(s, CollideRow(s, i, j, normalOf))
    decreases |s| - j
  {
    if j < |s| {
      var p := PairStep(s, i, j, normalOf);
      PairEffect(s, i, j, normalOf);
      RowKeepsLayout(p, i, j + 1, normalOf);
      RowUnfold(s, i, j, normalOf);
      SameLayoutTransitive(s, p, CollideRow(p, i, j + 1, normalOf));
    }
  }

  /** A row of pairs keeps the sum of the velocities. */
  lemma {:induction false} RowKeepsVelocitySum(s: seq<Entity>, i: int, j: int, normalOf: NormalFn)
    requires 0 <= i < |s| && i < j <= |s|
    requires UnitNormals(normalOf)
    ensures VelocitySum(CollideRow(s, i, j, normalOf)) == VelocitySum(s)
    decreases |s| - j
  {
    if j < |s| {
      var p := PairStep(s, i, j, normalOf);
      PairEffect(s, i, j, normalOf);
      RowKeepsVelocitySum(p, i, j + 1, normalOf);
      RowUnfold(s, i, j, normalOf);
    }
  }

  /** The rows i, i + 1, ..., n - 1, in that order. */
  function CollideRows(s: seq<Entity>, i: int, normalOf: NormalFn): (r: seq<Entity>)
    requires 0 <= i <= |s|
    requires UnitNormals(normalOf)
    ensures |r| == |s|
    decreases |s| - i
  {
    if i == |s| then s else CollideRows(CollideRow(s, i, i + 1, normalOf), i + 1, normalOf)
  }

  /** The first row, then the remaining rows. */
  lemma RowsUnfold(s: seq<Entity>, i: int, normalOf: NormalFn)
    requires 0 <= i < |s|
    requires UnitNormals(normalOf)
    ensures CollideRows(s, i, normalOf) == CollideRows(CollideRow(s, i, i + 1, normalOf), i + 1, normalOf)
  {
  }

  /** The remaining rows move nothing and change no component except velocity and counter
      values. */
  lemma {:induction false} RowsKeepLayout(s: seq<Entity>, i: int, normalOf: NormalFn)
    requires 0 <= i <= |s|
    requires UnitNormals(normalOf)
    ensures SameLayout(s, CollideRows(s, i, normalOf))
    decreases |s| - i
  {
    if i < |s| {
      var q := CollideRow(s, i, i + 1, normalOf);
      RowKeepsLayout(s, i, i + 1, normalOf);
      RowsKeepLayout(q, i + 1, normalOf);
      RowsUnfold(s, i, normalOf);
      SameLayoutTransitive(s, q, CollideRows(q, i + 1, normalOf));
    }
  }

  /** The remaining rows keep the sum of the velocities. */
  lemma {:induction false} RowsKeepVelocitySum(s: seq<Entity>, i: int, normalOf: NormalFn)
    requires 0 <= i <= |s|
    requires UnitNormals(normalOf)
    ensures VelocitySum(CollideRows(s, i, normalOf)) == VelocitySum(s)
    decreases |s| - i
  {
    if i < |s| {
      var q := CollideRow(s, i, i + 1, normalOf);
      RowKeepsVelocitySum(s, i, i + 1, normalOf);
      RowsKeepVelocitySum(q, i + 1, normalOf);
      RowsUnfold(s, i, normalOf);
    }
  }

  /** The effect of `apply_collisions`: every unordered pair, in the order
      `iter_combinations_mut` yields them. It keeps the sum of the velocities, moves nothing
      and changes no component except velocity and counter values; each fruit's `Collided`
      grows by exactly its number of overlapping partners, and an entity with no partner (in
      particular one outside the query) is left exactly as it was. */
  function CollisionStep(s: seq<Entity>, normalOf: NormalFn): (r: seq<Entity>)
    requires UnitNormals(normalOf)
    ensures |r| == |s|
    ensures VelocitySum(r) == VelocitySum(s)
    ensures forall k :: 0 <= k < |s| ==> Layout(r[k]) == Layout(s[k])
    ensures forall k :: 0 <= k < |s| ==> Hits(r[k]) == Hits(s[k]) + Partners(s, k)
    ensures forall k :: 0 <= k < |s| ==> (r[k] == s[k] <==> Partners(s, k) == 0)
  {
    RowsKeepLayout(s, 0, normalOf);
    RowsKeepVelocitySum(s, 0, normalOf);
    RowsEffect(s, 0, normalOf);
    assert forall k :: 0 <= k < |s| ==> RowsShare(s, 0, k) == Partners(s, k);
    CollideRows(s, 0, normalOf)
  }

  /** The body of the `while let` loop for the pair (i, j): skip a pair that does not
      overlap, otherwise bump both counters and apply the impulse to both velocities. */
  method CollidePair(w: World, i: int, j: int, normalOf: NormalFn)
    requires 0 <= i < j < |w.bodies|
    requires UnitNormals(normalOf)
    modifies w
    ensures w.bodies == PairStep(old(w.bodies), i, j, normalOf)
  {
    var a, b := w.bodies[i], w.bodies[j];
    if !(InCollisionQuery(a) && InCollisionQuery(b)) {
      return;
    }
    var aBound := BoundingCircle(a.diameter.value, a.translation);
    var bBound := BoundingCircle(b.diameter.value, b.translation);
    if !Intersects(aBound, bBound) {
      return;
    }
    a := a.(collided := Some(a.collided.value + 1));
    b := b.(collided := Some(b.collided.value + 1));
    var normal := normalOf(Xy(a.translation), Xy(b.translation));
    PairContactAllowed(a, b, normalOf);
    var impulse := ResolveCollision(
      Contact(normal, Body(ELASTICITY, a.velocity.value, INV_MASS), Body(ELASTICITY, b.velocity.value, INV_MASS)),
      AsWritten);
    a := a.(velocity := Some(Add(a.velocity.value, impulse)));
    b := b.(velocity := Some(Sub(b.velocity.value, impulse)));
    w.bodies := w.bodies[i := a][j := b];
  }

  /** The first pair of a row, then the rest of the row. */
  lemma RowUnfold(s: seq<Entity>, i: int, j: int, normalOf: NormalFn)
    requires 0 <= i < j < |s|
    requires UnitNormals(normalOf)
    ensures CollideRow(s, i, j, normalOf) == CollideRow(PairStep(s, i, j, normalOf), i, j + 1, normalOf)
  {
  }

  /** One row of the pair walk: the pairs (i, i + 1), ..., (i, n - 1), in that order. */
  method CollideRowPairs(w: World, i: int, normalOf: NormalFn)
    requires 0 <= i < |w.bodies|
    requires UnitNormals(normalOf)
    modifies w
    ensures w.bodies == CollideRow(old(w.bodies), i, i + 1, normalOf)
  {
    ghost var target := CollideRow(w.bodies, i, i + 1, normalOf);
    var j := i + 1;
    while j < |w.bodies|
      invariant i < j <= |w.bodies|
      invariant CollideRow(w.bodies, i, j, normalOf) == target
      decreases |w.bodies| - j
    {
      RowUnfold(w.bodies, i, j, normalOf);
      CollidePair(w, i, j, normalOf);
      j := j + 1;
    }
  }

  /** `apply_collisions`: the pairs (i, j) with i < j, row by row. */
  method ApplyCollisions(w: World, normalOf: NormalFn)
    requires UnitNormals(normalOf)
    modifies w
    ensures w.bodies == CollisionStep(old(w.bodies), normalOf)
  {
    ghost var target := CollideRows(w.bodies, 0, normalOf);
    var i := 0;
    while i < |w.bodies|
      invariant 0 <= i <= |w.bodies|
      invariant CollideRows(w.bodies, i, normalOf) == target
      decreases |w.bodies| - i
    {
      ghost var s := w.bodies;
      CollideRowPairs(w, i, normalOf);
      assert CollideRows(s, i, normalOf) == CollideRows(w.bodies, i + 1, normalOf);
      i := i + 1;
    }
  }

  // ---------------------------------------------------------------------------------
  // Collision counts
  // ---------------------------------------------------------------------------------

  /** The number of partners of entity `k` among the indices lo .. hi - 1. */
  function CountIn(s: seq<Entity>, k: int, lo: int, hi: int): (r: nat)
    requires 0 <= k < |s| && 0 <= lo <= hi <= |s|
    ensures r <= hi - lo
    decreases hi - lo
  {
    if lo == hi then 0 else (if Interacts(s, k, lo) then 1 else 0) + CountIn(s, k, lo + 1, hi)
  }

  /** The number of fruits entity `k` overlaps. */
  function Partners(s: seq<Entity>, k: int): nat
    requires 0 <= k < |s|
  {
    CountIn(s, k, 0, |s|)
  }

  /** The partners of entity `k` among the indices lo .. hi - 1. */
  ghost function PartnerSet(s: seq<Entity>, k: int, lo: int, hi: int): set<int>
    requires 0 <= k < |s| && 0 <= lo <= hi <= |s|
  {
    set j | lo <= j < hi && Interacts(s, k, j)
  }

  lemma PartnerSetStep(s: seq<Entity>, k: int, lo: int, hi: int)
    requires 0 <= k < |s| && 0 <= lo < hi <= |s|
    ensures lo !in PartnerSet(s, k, lo + 1, hi)
    ensures Interacts(s, k, lo) ==> PartnerSet(s, k, lo, hi) == PartnerSet(s, k, lo + 1, hi) + {lo}
    ensures !Interacts(s, k, lo) ==> PartnerSet(s, k, lo, hi) == PartnerSet(s, k, lo + 1, hi)
  {
  }

  /** The count agrees with the size of the set of partners. */
  lemma {:induction false} CountInIsSetSize(s: seq<Entity>, k: int, lo: int, hi: int)
    requires 0 <= k < |s| && 0 <= lo <= hi <= |s|
    ensures CountIn(s, k, lo, hi) == |PartnerSet(s, k, lo, hi)|
    decreases hi - lo
  {
    if lo == hi {
      assert PartnerSet(s, k, lo, hi) == {};
    } else {
      CountInIsSetSize(s, k, lo + 1, hi);
      PartnerSetStep(s, k, lo, hi);
    }
  }

  lemma {:induction false} CountInLayout(s: seq<Entity>, t: seq<Entity>, k: int, lo: int, hi: int)
    requires SameLayout(s, t)
    requires 0 <= k < |s| && 0 <= lo <= hi <= |s|
    ensures CountIn(s, k, lo, hi) == CountIn(t, k, lo, hi)
    decreases hi - lo
  {
    if lo < hi {
      InteractsLayout(s, t, k, lo);
      CountInLayout(s, t, k, lo + 1, hi);
    }
  }

  lemma GainedChain(s: seq<Entity>, p: seq<Entity>, r: seq<Entity>, k: int, a: nat, b: nat)
    requires 0 <= k < |s| == |p| == |r|
    requires Gained(s, p, k, a) && Gained(p, r, k, b)
    ensures Gained(s, r, k, a + b)
  {
  }

  /** What row i, from pair (i, j) on, gives entity k. */
  function RowShare(s: seq<Entity>, i: int, j: int, k: int): nat
    requires 0 <= i < |s| && i < j <= |s| && 0 <= k < |s|
  {
    if k == i then CountIn(s, i, j, |s|) else if j <= k && Interacts(s, i, k) then 1 else 0
  }

  lemma {:induction false} RowEffect(s: seq<Entity>, i: int, j: int, normalOf: NormalFn)
    requires 0 <= i < |s| && i < j <= |s|
    requires UnitNormals(normalOf)
    ensures forall k :: 0 <= k < |s| ==> Gained(s, CollideRow(s, i, j, normalOf), k, RowShare(s, i, j, k))
    decreases |s| - j
  {
    var r := CollideRow(s, i, j, normalOf);
    if j < |s| {
      var p := PairStep(s, i, j, normalOf);
      PairEffect(s, i, j, normalOf);
      RowEffect(p, i, j + 1, normalOf);
      assert r == CollideRow(p, i, j + 1, normalOf);
      CountInLayout(s, p, i, j + 1, |s|);
      forall k | 0 <= k < |s|
        ensures Gained(s, r, k, RowShare(s, i, j, k))
      {
        InteractsLayout(s, p, i, k);
        assert RowShare(p, i, j + 1, k) == RowShare(s, i, j + 1, k);
        GainedChain(s, p, r, k, PairShare(s, i, j, k), RowShare(s, i, j + 1, k));
      }
    }
  }

  /** What rows i .. n - 1 give entity k: all its partners from index i on. */
  function RowsShare(s: seq<Entity>, i: int, k: int): nat
    requires 0 <= i <= |s| && 0 <= k < |s|
  {
    if k < i then 0 else CountIn(s, k, i, |s|)
  }

  lemma {:induction false} RowsEffect(s: seq<Entity>, i: int, normalOf: NormalFn)
    requires 0 <= i <= |s|
    requires UnitNormals(normalOf)
    ensures forall k :: 0 <= k < |s| ==> Gained(s, CollideRows(s, i, normalOf), k, RowsShare(s, i, k))
    decreases |s| - i
  {
    var r := CollideRows(s, i, normalOf);
    if i < |s| {
      var q := CollideRow(s, i, i + 1, normalOf);
      RowKeepsLayout(s, i, i + 1, normalOf);
      RowEffect(s, i, i + 1, normalOf);
      RowsEffect(q, i + 1, normalOf);
      assert r == CollideRows(q, i + 1, normalOf);
      forall k | 0 <= k < |s|
        ensures Gained(s, r, k, RowsShare(s, i, k))
      {
        if k > i {
          CountInLayout(s, q, k, i + 1, |s|);
          InteractsSymmetric(s, i, k);
        }
        GainedChain(s, q, r, k, RowShare(s, i, i + 1, k), RowsShare(q, i + 1, k));
      }
    }
  }
}
