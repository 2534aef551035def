/**
  The narrow-phase test in use: two bodies whose shapes are spheres overlap
  when the distance between their positions is at most the sum of the radii.
  The time-of-impact overload is a stub.
*/
module Intersections {
  import opened Vectors
  import opened Shapes
  import opened Bodies
  import opened Contacts

  /** The body's shape is a sphere: the only shape Intersect reads a radius from. */
  predicate IsSphere(b: Body)
    reads b`shape
  {
    b.shape.Ref? && b.shape.kind.SphereShape?
  }

  function Radius(b: Body): real
    reads b`shape
    requires IsSphere(b)
  {
    b.shape.kind.radius
  }

  /**
    Intersect(bodyA, bodyB, contact): true exactly when the squared distance
    between the positions is at most the squared sum of the radii, so touching
    spheres count as intersecting. Being a function, it changes neither body;
    the contact argument is only passed through and is not written.
  */
  function Intersect(a: Body, b: Body, contact: Contact): (r: bool)
    reads a`position, a`shape, b`position, b`shape
    requires IsSphere(a) && IsSphere(b)
    ensures r <==> LengthSqr(Sub(b.position, a.position)) <= (Radius(a) + Radius(b)) * (Radius(a) + Radius(b))
  {
    var dist := Sub(b.position, a.position);
    var totalRadii := Radius(a) + Radius(b);
    LengthSqr(dist) <= totalRadii * totalRadii
  }

  /** The test does not depend on the order of the two bodies. */
  lemma IntersectSymmetric(a: Body, b: Body, contact: Contact)
    requires IsSphere(a) && IsSphere(b)
    ensures Intersect(a, b, contact) == Intersect(b, a, contact)
  {
    var d := Sub(b.position, a.position);
    var e := Sub(a.position, b.position);
    assert e == Scale(d, -1.0);
    assert LengthSqr(e) == LengthSqr(d);
  }

  /** Spheres at the same position always intersect. */
  lemma CoincidentSpheresIntersect(a: Body, b: Body, contact: Contact)
    requires IsSphere(a) && IsSphere(b)
    requires a.position == b.position
    ensures Intersect(a, b, contact)
  {
    var s := Radius(a) + Radius(b);
    assert Sub(b.position, a.position) == Zero;
    if s < 0.0 {
      assert s * s == (-s) * (-s);
    }
  }

  /**
    Spheres whose centres lie on a common axis exactly the sum of the radii
    apart are reported as intersecting; a gap of any positive size is not.
  */
  lemma TouchingCounts(a: Body, b: Body, contact: Contact, gap: real)
    requires IsSphere(a) && IsSphere(b)
    requires Radius(a) >= 0.0 && Radius(b) >= 0.0 && gap >= 0.0
    requires b.position == Add(a.position, Vec3(Radius(a) + Radius(b) + gap, 0.0, 0.0))
    ensures Intersect(a, b, contact) <==> gap == 0.0
  {
    var s := Radius(a) + Radius(b);
    var d := Sub(b.position, a.position);
    assert d == Vec3(s + gap, 0.0, 0.0);
    assert LengthSqr(d) == (s + gap) * (s + gap);
    if gap > 0.0 {
      assert (s + gap) * (s + gap) == s * s + gap * (2.0 * s + gap);
      assert gap * (2.0 * s + gap) > 0.0;
    }
  }

  /**
    Intersect(bodyA, bodyB, dt, contact): the time-of-impact overload is a stub
    that always reports no intersection and leaves the contact as it was.
  */
  function IntersectSwept(a: Body, b: Body, dt: real, contact: Contact): (r: (bool, Contact))
    ensures !r.0
    ensures r.1 == contact
  {
    (false, contact)
  }
}
