/**
  The scene: a list of bodies held by value, built by Initialize and stepped
  by Update. A step applies gravity, stops every body that overlaps another
  (unless both are static), then moves every body by its velocity.
*/
module Scenes {
  import opened Vectors
  import opened Shapes
  import opened Bodies
  import opened Contacts
  import opened Intersections

  /** The gravitational acceleration Scene::Update applies. */
  const Gravity: Vec3 := Vec3(0.0, 0.0, -1000.0)

  /** The mass the gravity loop derives from the inverse mass: zero for a body that is not movable. */
  function MassOf(invMass: real): real {
    if invMass > 0.0 then 1.0 / invMass else 0.0
  }

  /** The velocity the gravity loop promises: a movable body gains Gravity·dt, any other keeps its velocity. */
  function AfterGravity(v: Vec3, invMass: real, dt: real): Vec3 {
    if invMass > 0.0 then Add(v, Scale(Gravity, dt)) else v
  }

  /**
    The impulse Gravity·mass·dt, applied through ApplyImpulseLinear (which
    scales it by invMass), changes the velocity as AfterGravity says:
    mass·invMass is exactly 1 for a movable body, and the impulse is zero for
    any other.
  */
  lemma GravityImpulse(v: Vec3, invMass: real, dt: real)
    ensures Add(v, Scale(Scale(Scale(Gravity, MassOf(invMass)), dt), invMass)) == AfterGravity(v, invMass, dt)
  {
    if invMass > 0.0 {
      var m := 1.0 / invMass;
      assert m * invMass == 1.0;
      assert (-1000.0 * m) * dt * invMass == -1000.0 * dt * (m * invMass);
      assert (0.0 * m) * dt * invMass == 0.0 * dt;
    }
  }

  /** Two body indices, as the collision loop of Update visits them. */
  datatype IndexPair = IndexPair(i: nat, j: nat)

  /** The pairs (i, i+1), …, (i, j−1): what the inner loop has visited when it reaches j. */
  function Row(i: nat, j: nat): seq<IndexPair>
    decreases j
  {
    if j <= i + 1 then [] else Row(i, j - 1) + [IndexPair(i, j - 1)]
  }

  /** The pairs the outer loop has visited after its first i turns, over n bodies. */
  function VisitOrder(i: nat, n: nat): seq<IndexPair>
    decreases i
  {
    if i == 0 then [] else VisitOrder(i - 1, n) + Row(i - 1, n)
  }

  /** Row(i, j) lists (i, i+1), …, (i, j−1) in that order. */
  lemma {:induction false} RowElements(i: nat, j: nat)
    ensures |Row(i, j)| == if j > i + 1 then j - i - 1 else 0
    ensures forall x :: 0 <= x < |Row(i, j)| ==> Row(i, j)[x] == IndexPair(i, i + 1 + x)
    decreases j
  {
    if j > i + 1 {
      RowElements(i, j - 1);
    }
  }

  lemma RowMembers(i: nat, j: nat)
    ensures forall p :: p in Row(i, j) <==> p.i == i && i < p.j < j
  {
    RowElements(i, j);
    forall p: IndexPair | p.i == i && i < p.j < j
      ensures p in Row(i, j)
    {
      assert Row(i, j)[p.j - i - 1] == p;
    }
  }

  /** Every pair of VisitOrder(i, n) starts below i and ends above its start, below n. */
  lemma {:induction false} VisitOrderBounds(i: nat, n: nat)
    ensures forall x :: 0 <= x < |VisitOrder(i, n)| ==>
              VisitOrder(i, n)[x].i < i && VisitOrder(i, n)[x].i < VisitOrder(i, n)[x].j < n
    decreases i
  {
    if i > 0 {
      VisitOrderBounds(i - 1, n);
      RowElements(i - 1, n);
      var u, v := VisitOrder(i - 1, n), Row(i - 1, n);
      var s := u + v;
      forall x | 0 <= x < |s|
        ensures s[x].i < i && s[x].i < s[x].j < n
      {
        if x < |u| {
          assert s[x] == u[x];
        } else {
          assert s[x] == v[x - |u|];
        }
      }
    }
  }

  lemma {:induction false} VisitOrderMembers(i: nat, n: nat)
    ensures forall p :: p in VisitOrder(i, n) <==> p.i < i && p.i < p.j < n
    decreases i
  {
    VisitOrderBounds(i, n);
    if i > 0 {
      VisitOrderMembers(i - 1, n);
      RowMembers(i - 1, n);
      var u, v := VisitOrder(i - 1, n), Row(i - 1, n);
      forall p: IndexPair | p.i < i && p.i < p.j < n
        ensures p in u + v
      {
        if p.i < i - 1 {
          assert p in u;
        } else {
          assert p in v;
        }
      }
    }
  }

  /** Lexicographic order on index pairs: the order the two nested loops run in. */
  predicate Precedes(p: IndexPair, q: IndexPair) {
    p.i < q.i || (p.i == q.i && p.j < q.j)
  }

  ghost predicate StrictlyOrdered(s: seq<IndexPair>) {
    forall x, y :: 0 <= x < y < |s| ==> Precedes(s[x], s[y])
  }

  /** Two ordered runs, every pair of the first preceding every pair of the second, make one ordered run. */
  lemma OrderedConcat(u: seq<IndexPair>, v: seq<IndexPair>)
    requires StrictlyOrdered(u) && StrictlyOrdered(v)
    requires forall x, y :: 0 <= x < |u| && 0 <= y < |v| ==> Precedes(u[x], v[y])
    ensures StrictlyOrdered(u + v)
  {
    var s := u + v;
    forall x, y | 0 <= x < y < |s|
      ensures Precedes(s[x], s[y])
    {
      if y < |u| {
        assert s[x] == u[x] && s[y] == u[y];
      } else if x < |u| {
        assert s[x] == u[x] && s[y] == v[y - |u|];
      } else {
        assert s[x] == v[x - |u|] && s[y] == v[y - |u|];
      }
    }
  }

  lemma RowOrdered(i: nat, j: nat)
    ensures StrictlyOrdered(Row(i, j))
  {
    RowElements(i, j);
  }

  lemma {:induction false} VisitOrderOrdered(i: nat, n: nat)
    ensures StrictlyOrdered(VisitOrder(i, n))
    decreases i
  {
    if i > 0 {
      VisitOrderOrdered(i - 1, n);
      VisitOrderBounds(i - 1, n);
      RowOrdered(i - 1, n);
      RowElements(i - 1, n);
      OrderedConcat(VisitOrder(i - 1, n), Row(i - 1, n));
    }
  }

  /**
    The two nested loops of Update visit every pair i < j of the n bodies,
    each exactly once, in lexicographic order.
  */
  lemma VisitsEveryPairOnce(n: nat)
    ensures forall p :: p in VisitOrder(n, n) <==> p.i < p.j < n
    ensures StrictlyOrdered(VisitOrder(n, n))
    ensures forall x, y :: 0 <= x < y < |VisitOrder(n, n)| ==> VisitOrder(n, n)[x] != VisitOrder(n, n)[y]
  {
    VisitOrderMembers(n, n);
    VisitOrderOrdered(n, n);
  }

  /** Every body of the list has a sphere shape: the only shape Intersect handles. */
  ghost predicate AllSpheres(bs: seq<Body>)
    reads bs`shape
  {
    forall k :: 0 <= k < |bs| ==> IsSphere(bs[k])
  }

  /** What the collision test reads of a body: its inverse mass, its position and its shape. */
  datatype Solid = Solid(invMass: real, position: Vec3, shape: ShapeRef)

  function SolidOf(b: Body): Solid
    reads b`invMass, b`position, b`shape
  {
    Solid(b.invMass, b.position, b.shape)
  }

  /** The collision-relevant state of every body, in order. */
  function Solids(bs: seq<Body>): (r: seq<Solid>)
    reads bs`invMass, bs`position, bs`shape
    ensures |r| == |bs|
    ensures forall k :: 0 <= k < |bs| ==> r[k] == SolidOf(bs[k])
    decreases |bs|
  {
    if bs == [] then [] else Solids(bs[..|bs| - 1]) + [SolidOf(bs[|bs| - 1])]
  }

  predicate IsSphereSolid(s: Solid) {
    s.shape.Ref? && s.shape.kind.SphereShape?
  }

  /**
    The collision test for the pair (i, j): it is not skipped for being
    static on both sides, both are spheres, and the squared distance of the
    centres is at most the squared sum of the radii.
  */
  predicate Hits(ss: seq<Solid>, i: nat, j: nat)
    requires i < |ss| && j < |ss|
  {
    var a, b := ss[i], ss[j];
    && !(a.invMass == 0.0 && b.invMass == 0.0)
    && IsSphereSolid(a) && IsSphereSolid(b)
    && LengthSqr(Sub(b.position, a.position)) <= (a.shape.kind.radius + b.shape.kind.radius) * (a.shape.kind.radius + b.shape.kind.radius)
  }

  /** On sphere bodies, Hits is exactly the loop's test: not both static, and Intersect reports overlap. */
  lemma HitsIntersect(ss: seq<Solid>, i: nat, j: nat, a: Body, b: Body)
    requires i < |ss| && j < |ss| && ss[i] == SolidOf(a) && ss[j] == SolidOf(b) && IsSphere(a) && IsSphere(b)
    ensures Hits(ss, i, j) <==> !(a.invMass == 0.0 && b.invMass == 0.0) && Intersect(a, b, DefaultContact(Zero))
  {
    var ra, rb := Radius(a), Radius(b);
    assert ss[i].shape.kind.radius == ra && ss[j].shape.kind.radius == rb;
    assert ss[i].position == a.position && ss[j].position == b.position;
  }

  lemma HitsSymmetric(ss: seq<Solid>, i: nat, j: nat)
    requires i < |ss| && j < |ss|
    ensures Hits(ss, i, j) == Hits(ss, j, i)
  {
    var d := Sub(ss[j].position, ss[i].position);
    var e := Sub(ss[i].position, ss[j].position);
    assert e == Scale(d, -1.0);
    assert LengthSqr(e) == LengthSqr(d);
  }

  /** Body k overlaps some other body, and the two are not both static. */
  ghost predicate Blocked(ss: seq<Solid>, k: nat)
    requires k < |ss|
  {
    exists m: nat :: m < |ss| && m != k && Hits(ss, k, m)
  }

  /**
    Body k is stopped by the inner loop for body i once it reaches j: it is
    an end of a colliding pair (i, m) with i < m < j.
  */
  ghost predicate StoppedInRow(ss: seq<Solid>, i: nat, j: nat, k: nat)
    requires i < |ss| && j <= |ss| && k < |ss|
  {
    (k == i && exists m: nat :: i < m < j && Hits(ss, i, m)) || (i < k < j && Hits(ss, i, k))
  }

  /**
    Body k is stopped once the outer loop reaches i: it is an end of a
    colliding pair (a, b) with a < b and a < i.
  */
  ghost predicate StoppedBefore(ss: seq<Solid>, i: nat, k: nat)
    requires k < |ss|
  {
    exists a: nat, b: nat :: a < i && a < b < |ss| && Hits(ss, a, b) && (k == a || k == b)
  }

  /** One turn of the inner loop: visiting (i, j) stops both bodies when that pair collides. */
  lemma RowStep(ss: seq<Solid>, i: nat, j: nat)
    requires i < j < |ss|
    ensures forall k: nat :: k < |ss| ==>
              StoppedInRow(ss, i, j + 1, k) == (StoppedInRow(ss, i, j, k) || (Hits(ss, i, j) && (k == i || k == j)))
  {
    forall k: nat | k < |ss|
      ensures StoppedInRow(ss, i, j + 1, k) == (StoppedInRow(ss, i, j, k) || (Hits(ss, i, j) && (k == i || k == j)))
    {
      if k == i && StoppedInRow(ss, i, j + 1, k) && !Hits(ss, i, j) {
        var m: nat :| i < m < j + 1 && Hits(ss, i, m);
        assert m < j;
      }
    }
  }

  /** One turn of the outer loop: the row of body i adds what it stops to what the earlier rows stopped. */
  lemma VisitStep(ss: seq<Solid>, i: nat)
    requires i < |ss|
    ensures forall k: nat :: k < |ss| ==>
              StoppedBefore(ss, i + 1, k) == (StoppedBefore(ss, i, k) || StoppedInRow(ss, i, |ss|, k))
  {
    forall k: nat | k < |ss|
      ensures StoppedBefore(ss, i + 1, k) == (StoppedBefore(ss, i, k) || StoppedInRow(ss, i, |ss|, k))
    {
      if StoppedBefore(ss, i + 1, k) && !StoppedBefore(ss, i, k) {
        var a: nat, b: nat :| a < i + 1 && a < b < |ss| && Hits(ss, a, b) && (k == a || k == b);
        assert a == i;
      }
      if StoppedInRow(ss, i, |ss|, k) {
        if k == i && exists m: nat :: i < m < |ss| && Hits(ss, i, m) {
          var m: nat :| i < m < |ss| && Hits(ss, i, m);
          assert Hits(ss, i, m) && (k == i || k == m);
        } else {
          assert Hits(ss, i, k) && (k == i || k == k);
        }
      }
    }
  }

  /** After the last row, the stopped bodies are exactly the blocked ones. */
  lemma StoppedIffBlocked(ss: seq<Solid>, k: nat)
    requires k < |ss|
    ensures StoppedBefore(ss, |ss|, k) <==> Blocked(ss, k)
  {
    if StoppedBefore(ss, |ss|, k) {
      var a: nat, b: nat :| a < |ss| && a < b < |ss| && Hits(ss, a, b) && (k == a || k == b);
      if k == b {
        HitsSymmetric(ss, a, b);
        assert Hits(ss, k, a);
      } else {
        assert Hits(ss, k, b);
      }
    }
    if Blocked(ss, k) {
      var m: nat :| m < |ss| && m != k && Hits(ss, k, m);
      if k < m {
        assert Hits(ss, k, m) && (k == k || k == m);
      } else {
        HitsSymmetric(ss, k, m);
        assert Hits(ss, m, k) && (k == m || k == k);
      }
    }
  }

  class Scene {
    var bodies: seq<Body>

    /** The vector holds its bodies by value: no two slots share a body. */
    ghost predicate Valid()
      reads this
    {
      forall x, y :: 0 <= x < y < |bodies| ==> bodies[x] != bodies[y]
    }

    /** A new scene holds no bodies. */
    constructor ()
      ensures bodies == []
    {
      bodies := [];
    }

    /**
      Scene::Initialize: one default Body is set up and pushed (copied) twice:
      a movable sphere of radius 1 at (0, 0, 2), then a static sphere of
      radius 100 at (0, 0, −101). The spheres' centres of mass are at their
      origins.
    */
    method Initialize()
      modifies this
      ensures |bodies| == |old(bodies)| + 2 && bodies[..|old(bodies)|] == old(bodies)
      ensures fresh(bodies[|old(bodies)|]) && fresh(bodies[|old(bodies)| + 1])
      ensures old(Valid()) ==> Valid()
      ensures var b := bodies[|old(bodies)|];
              && b.position == Vec3(0.0, 0.0, 2.0) && b.orientation == Identity
              && b.invMass == 1.0 && b.shape == Ref(SphereShape(1.0), Zero)
              && b.linearVelocity == Zero && b.elasticity == 1.0
      ensures var b := bodies[|old(bodies)| + 1];
              && b.position == Vec3(0.0, 0.0, -101.0) && b.orientation == Identity
              && b.invMass == 0.0 && b.shape == Ref(SphereShape(100.0), Zero)
              && b.linearVelocity == Zero && b.elasticity == 1.0
    {
      var body := new Body();
      body.position := Vec3(0.0, 0.0, 2.0);
      body.orientation := Identity;
      body.invMass := 1.0;
      body.shape := Ref(SphereShape(1.0), Zero);
      var first := body.Clone();
      bodies := bodies + [first];

      body.position := Vec3(0.0, 0.0, -101.0);
      body.orientation := Identity;
      body.invMass := 0.0;
      body.shape := Ref(SphereShape(100.0), Zero);
      var second := body.Clone();
      bodies := bodies + [second];
    }

    /** Scene::Reset: drop every body, then Initialize; afterwards the scene holds exactly its two bodies. */
    method Reset()
      modifies this
      ensures |bodies| == 2 && Valid() && fresh(bodies[0]) && fresh(bodies[1])
      ensures bodies[0].position == Vec3(0.0, 0.0, 2.0) && bodies[0].invMass == 1.0
      ensures bodies[0].shape == Ref(SphereShape(1.0), Zero)
      ensures bodies[1].position == Vec3(0.0, 0.0, -101.0) && bodies[1].invMass == 0.0
      ensures bodies[1].shape == Ref(SphereShape(100.0), Zero)
      ensures bodies[0].orientation == Identity && bodies[1].orientation == Identity
      ensures bodies[0].linearVelocity == Zero && bodies[1].linearVelocity == Zero
    {
      bodies := [];
      Initialize();
    }

    /** Lines 76-82: every body receives the impulse Gravity·mass·dt through ApplyImpulseLinear. */
    method ApplyGravity(dt: real)
      requires Valid()
      modifies bodies`linearVelocity
      ensures forall k :: 0 <= k < |bodies| ==>
                bodies[k].linearVelocity == AfterGravity(old(bodies[k].linearVelocity), bodies[k].invMass, dt)
    {
      var i := 0;
      while i < |bodies|
        invariant 0 <= i <= |bodies|
        invariant forall k :: 0 <= k < i ==>
                    bodies[k].linearVelocity == AfterGravity(old(bodies[k].linearVelocity), bodies[k].invMass, dt)
        invariant forall k :: i <= k < |bodies| ==> bodies[k].linearVelocity == old(bodies[k].linearVelocity)
      {
        var body := bodies[i];
        var mass := if body.invMass > 0.0 then 1.0 / body.invMass else 0.0;
        var gravityImpulse := Scale(Scale(Gravity, mass), dt);
        GravityImpulse(body.linearVelocity, body.invMass, dt);
        body.ApplyImpulseLinear(gravityImpulse);
        i := i + 1;
      }
    }

    /**
      Lines 88-101 for one pair i < j: skip it when both bodies are static,
      otherwise zero both linear velocities when Intersect reports overlap.
    */
    method VisitPair(i: nat, j: nat, ghost ss: seq<Solid>)
      requires Valid() && AllSpheres(bodies) && i < j < |bodies| && |ss| == |bodies|
      requires ss[i] == SolidOf(bodies[i]) && ss[j] == SolidOf(bodies[j])
      modifies bodies`linearVelocity
      ensures forall k :: 0 <= k < |bodies| ==>
                bodies[k].linearVelocity ==
                  (if (k == i || k == j) && Hits(ss, i, j) then Zero else old(bodies[k].linearVelocity))
    {
      var bodyA, bodyB := bodies[i], bodies[j];
      HitsIntersect(ss, i, j, bodyA, bodyB);
      if bodyA.invMass == 0.0 && bodyB.invMass == 0.0 {
        return;
      }
      var contact := DefaultContact(Zero);
      if Intersect(bodyA, bodyB, contact) {
        bodyA.linearVelocity := Zero;
        bodyB.linearVelocity := Zero;
      }
    }

    /**
      The inner loop for body i: visit (i, i+1), …, (i, n−1) of the bodies
      whose collision state ss records, in that order (row); a body ends at
      rest exactly when one of these pairs stopped it.
    */
    method StopRow(i: nat, ghost ss: seq<Solid>) returns (ghost row: seq<IndexPair>)
      requires Valid() && AllSpheres(bodies) && i < |bodies|
      requires |ss| == |bodies| && forall k :: 0 <= k < |bodies| ==> SolidOf(bodies[k]) == ss[k]
      modifies bodies`linearVelocity
      ensures row == Row(i, |bodies|)
      ensures forall k :: 0 <= k < |bodies| ==>
                bodies[k].linearVelocity ==
                  (if StoppedInRow(ss, i, |bodies|, k) then Zero else old(bodies[k].linearVelocity))
    {
      var n := |bodies|;
      row := [];
      var j := i + 1;
      while j < n
        invariant i < j <= n && row == Row(i, j)
        invariant forall k :: 0 <= k < n ==> SolidOf(bodies[k]) == ss[k]
        invariant forall k :: 0 <= k < n ==>
                    bodies[k].linearVelocity == (if StoppedInRow(ss, i, j, k) then Zero else old(bodies[k].linearVelocity))
      {
        RowStep(ss, i, j);
        VisitPair(i, j, ss);
        row := row + [IndexPair(i, j)];
        j := j + 1;
      }
    }

    /**
      Lines 84-103: visit every pair i < j in order (visited), skipping those
      where both bodies are static and zeroing both linear velocities when
      Intersect reports overlap. Afterwards a body is at rest exactly when it
      was blocked by another; otherwise its velocity is untouched.
    */
    method StopOverlapping() returns (ghost visited: seq<IndexPair>)
      requires Valid() && AllSpheres(bodies)
      modifies bodies`linearVelocity
      ensures visited == VisitOrder(|bodies|, |bodies|)
      ensures forall k :: 0 <= k < |bodies| ==>
                bodies[k].linearVelocity ==
                  (if old(Blocked(Solids(bodies), k)) then Zero else old(bodies[k].linearVelocity))
    {
      var n := |bodies|;
      ghost var ss := Solids(bodies);
      visited := [];
      var i := 0;
      while i < n
        invariant 0 <= i <= n && visited == VisitOrder(i, n)
        invariant forall k :: 0 <= k < n ==> SolidOf(bodies[k]) == ss[k]
        invariant forall k :: 0 <= k < n ==>
                    bodies[k].linearVelocity == (if StoppedBefore(ss, i, k) then Zero else old(bodies[k].linearVelocity))
      {
        ghost var row := StopRow(i, ss);
        VisitStep(ss, i);
        visited := visited + row;
        i := i + 1;
      }
      forall k: nat | k < n
        ensures StoppedBefore(ss, n, k) <==> Blocked(ss, k)
      {
        StoppedIffBlocked(ss, k);
      }
    }

    /** Lines 105-108: every body moves by its velocity over dt. */
    method Integrate(dt: real)
      requires Valid()
      modifies bodies`position
      ensures forall k :: 0 <= k < |bodies| ==>
                bodies[k].position == Add(old(bodies[k].position), Scale(bodies[k].linearVelocity, dt))
    {
      var i := 0;
      while i < |bodies|
        invariant 0 <= i <= |bodies|
        invariant forall k :: 0 <= k < i ==>
                    bodies[k].position == Add(old(bodies[k].position), Scale(bodies[k].linearVelocity, dt))
        invariant forall k :: i <= k < |bodies| ==> bodies[k].position == old(bodies[k].position)
      {
        bodies[i].position := Add(bodies[i].position, Scale(bodies[i].linearVelocity, dt));
        i := i + 1;
      }
    }

    /**
      Scene::Update: gravity, then the overlap stop, then integration. A body
      that overlaps another (not both static) ends at rest where it was; any
      other body gains Gravity·dt if it is movable and moves by its new
      velocity. Only linear velocities and positions change (the modifies
      clause); orientation and angular velocity are stated unchanged, and the
      list itself stays the same.
    */
    method Update(dt: real)
      requires Valid() && AllSpheres(bodies)
      modifies bodies`linearVelocity, bodies`position
      ensures bodies == old(bodies)
      ensures forall k :: 0 <= k < |bodies| ==>
                bodies[k].linearVelocity ==
                  (if old(Blocked(Solids(bodies), k)) then Zero
                   else AfterGravity(old(bodies[k].linearVelocity), bodies[k].invMass, dt))
      ensures forall k :: 0 <= k < |bodies| ==>
                bodies[k].position == Add(old(bodies[k].position), Scale(bodies[k].linearVelocity, dt))
      ensures unchanged(bodies`orientation, bodies`angularVelocity)
    {
      ghost var ss := Solids(bodies);
      ApplyGravity(dt);
      assert Solids(bodies) == ss;
      ghost var visited := StopOverlapping();
      Integrate(dt);
    }
  }
}
