/**
  contact_t, the time-of-impact comparator and the structural part of
  ResolveContact: how the collision and friction impulses reach the two bodies
  and how interpenetration is split between them.
*/
module Contacts {
  import opened Vectors
  import opened Shapes
  import opened Bodies

  /** The default separationDistance and timeOfImpact of a contact_t. */
  const DefaultSeparation: real := -1000.0
  const DefaultTimeOfImpact: real := -1000.0

  datatype Contact = Contact(
    ptOnAWorld: Vec3,
    ptOnBWorld: Vec3,
    ptOnALocal: Vec3,
    ptOnBLocal: Vec3,
    normal: Vec3,
    separationDistance: real,
    timeOfImpact: real,
    bodyA: Body?,
    bodyB: Body?)

  /** A contact_t as declared: the default distance and time and no bodies; the points are as given. */
  function DefaultContact(point: Vec3): (c: Contact)
    ensures c.bodyA == null && c.bodyB == null
    ensures c.separationDistance == DefaultSeparation && c.timeOfImpact == DefaultTimeOfImpact
  {
    Contact(point, point, point, point, point, DefaultSeparation, DefaultTimeOfImpact, null, null)
  }

  /** CompareContacts: a three-way comparison on the time of impact. */
  function CompareContacts(c1: Contact, c2: Contact): (r: int)
    ensures r == -1 || r == 0 || r == 1
    ensures r == -1 <==> c1.timeOfImpact < c2.timeOfImpact
    ensures r == 0 <==> c1.timeOfImpact == c2.timeOfImpact
    ensures r == 1 <==> c1.timeOfImpact > c2.timeOfImpact
  {
    if c1.timeOfImpact < c2.timeOfImpact then -1
    else if c1.timeOfImpact == c2.timeOfImpact then 0
    else 1
  }

  /** Swapping the arguments negates the comparison. */
  lemma CompareContactsAntisymmetric(c1: Contact, c2: Contact)
    ensures CompareContacts(c1, c2) == -CompareContacts(c2, c1)
  {
  }

  /** The comparison orders contacts consistently: "not after" is transitive. */
  lemma CompareContactsTransitive(c1: Contact, c2: Contact, c3: Contact)
    requires CompareContacts(c1, c2) <= 0 && CompareContacts(c2, c3) <= 0
    ensures CompareContacts(c1, c3) <= 0
  {
  }

  /** A contact that still has the default time of impact sorts before every contact with a time in [0, ∞). */
  lemma DefaultContactSortsFirst(point: Vec3, c: Contact)
    requires c.timeOfImpact >= 0.0
    ensures CompareContacts(DefaultContact(point), c) == -1
  {
  }

  /**
    The combined elasticity or friction of a contact: the product of the two
    bodies' coefficients. For coefficients in [0, 1] it stays in [0, 1] and is
    at most either of them; a zero coefficient on either side gives zero.
  */
  function CombinedCoefficient(a: real, b: real): (r: real)
    ensures 0.0 <= a <= 1.0 && 0.0 <= b <= 1.0 ==> 0.0 <= r <= a
    ensures 0.0 <= a <= 1.0 && 0.0 <= b <= 1.0 ==> r <= b
    ensures a == 0.0 || b == 0.0 ==> r == 0.0
  {
    var r := a * b;
    ProductBounded(a, b, r);
    r
  }

  lemma ProductBounded(a: real, b: real, r: real)
    requires r == a * b
    ensures 0.0 <= a <= 1.0 && 0.0 <= b <= 1.0 ==> 0.0 <= r <= a && r <= b
  {
    if 0.0 <= a <= 1.0 && 0.0 <= b <= 1.0 {
      MulNonNegative(a, b);
      MulNonNegative(a, 1.0 - b);
      MulNonNegative(1.0 - a, b);
      assert a * (1.0 - b) == a - r;
      assert (1.0 - a) * b == b - r;
    }
  }

  lemma MulNonNegative(x: real, y: real)
    requires x >= 0.0 && y >= 0.0
    ensures x * y >= 0.0
  {
  }

  /**
    The interpenetration split: tA = mA⁻¹ / (mA⁻¹ + mB⁻¹), tB = mB⁻¹ / (mA⁻¹ + mB⁻¹).
    The shares add up to one and a static body (inverse mass 0) gets none.
  */
  function PositionalSplit(invMassA: real, invMassB: real): (t: (real, real))
    requires invMassA + invMassB != 0.0
    ensures t.0 + t.1 == 1.0
    ensures invMassA == 0.0 ==> t.0 == 0.0 && t.1 == 1.0
    ensures invMassB == 0.0 ==> t.1 == 0.0 && t.0 == 1.0
    ensures invMassA >= 0.0 && invMassB >= 0.0 ==> 0.0 <= t.0 <= 1.0 && 0.0 <= t.1 <= 1.0
    ensures invMassA == invMassB ==> t.0 == t.1 == 0.5
  {
    var sum := invMassA + invMassB;
    assert invMassA / sum + invMassB / sum == sum / sum;
    (invMassA / sum, invMassB / sum)
  }

  /**
    Applying an impulse j to body B and its negation to body A (inverse masses
    mA and mB): the two new linear velocities. A static side keeps its
    velocity, and when both sides are movable their total linear momentum
    v/m is conserved.
  */
  function ExchangeImpulse(vA: Vec3, vB: Vec3, invMassA: real, invMassB: real, j: Vec3): (r: (Vec3, Vec3))
    ensures invMassA == 0.0 ==> r.0 == vA
    ensures invMassB == 0.0 ==> r.1 == vB
    ensures invMassA > 0.0 && invMassB > 0.0 ==>
              Add(Scale(r.0, 1.0 / invMassA), Scale(r.1, 1.0 / invMassB)) ==
              Add(Scale(vA, 1.0 / invMassA), Scale(vB, 1.0 / invMassB))
  {
    var r := (Add(vA, Scale(Scale(j, -1.0), invMassA)), Add(vB, Scale(j, invMassB)));
    MomentumOfKick(vA, Scale(j, -1.0), invMassA);
    MomentumOfKick(vB, j, invMassB);
    r
  }

  /** Kicking a body of inverse mass m by impulse j changes its momentum v/m by exactly j. */
  lemma MomentumOfKick(v: Vec3, j: Vec3, invMass: real)
    ensures invMass > 0.0 ==> Scale(Add(v, Scale(j, invMass)), 1.0 / invMass) == Add(Scale(v, 1.0 / invMass), j)
  {
    if invMass > 0.0 {
    var k := 1.0 / invMass;
    assert invMass * k == 1.0;
    assert (v.x + j.x * invMass) * k == v.x * k + j.x * (invMass * k);
    assert (v.y + j.y * invMass) * k == v.y * k + j.y * (invMass * k);
    assert (v.z + j.z * invMass) * k == v.z * k + j.z * (invMass * k);
    }
  }

  /** Velocity of a body's point at offset r from its centre of mass: v + ω × r. */
  function PointVelocity(b: Body, r: Vec3): Vec3
    reads b
  {
    Add(b.linearVelocity, Cross(b.angularVelocity, r))
  }

  /** The tangential part of the relative velocity: vab − n (n · vab). */
  function Tangential(vab: Vec3, n: Vec3): Vec3 {
    Sub(vab, Scale(n, Dot(n, vab)))
  }

  /** Tangential removes the normal direction of a unit normal. */
  lemma TangentialIsOrthogonal(vab: Vec3, n: Vec3)
    ensures LengthSqr(n) == 1.0 ==> Dot(Tangential(vab, n), n) == 0.0
  {
    var d := Dot(n, vab);
    calc {
      Dot(Tangential(vab, n), n);
      (vab.x - n.x * d) * n.x + (vab.y - n.y * d) * n.y + (vab.z - n.z * d) * n.z;
      Dot(vab, n) - d * (n.x * n.x + n.y * n.y + n.z * n.z);
      Dot(vab, n) - d * LengthSqr(n);
    }
  }

  /** The angular velocity of a body after ApplyImpulse at a point, when it is movable. */
  function KickedAngular(w: Vec3, point: Vec3, com: Vec3, j: Vec3, invInertia: Mat3, normalize: Normalizer): Vec3
    requires IsNormalizer(normalize)
  {
    ClampAngular(Add(w, MulVec(invInertia, Cross(Sub(point, com), j))), normalize)
  }

  /**
    Lines 24-40: the relative velocity of the contact points, A's minus B's.
    Without spin it is the difference of the linear velocities, and two
    bodies moving together without spin have none.
  */
  function RelativeVelocity(contact: Contact, rotate: Rotation): (vab: Vec3)
    reads contact.bodyA, contact.bodyB
    requires contact.bodyA != null && contact.bodyB != null
    requires contact.bodyA.shape.Ref? && contact.bodyB.shape.Ref?
    ensures contact.bodyA.angularVelocity == Zero && contact.bodyB.angularVelocity == Zero ==>
              vab == Sub(contact.bodyA.linearVelocity, contact.bodyB.linearVelocity)
    ensures && contact.bodyA.angularVelocity == Zero && contact.bodyB.angularVelocity == Zero
            && contact.bodyA.linearVelocity == contact.bodyB.linearVelocity
            ==> vab == Zero
  {
    var ra := Sub(contact.ptOnAWorld, contact.bodyA.CenterOfMassWorldSpace(rotate));
    var rb := Sub(contact.ptOnBWorld, contact.bodyB.CenterOfMassWorldSpace(rotate));
    Sub(PointVelocity(contact.bodyA, ra), PointVelocity(contact.bodyB, rb))
  }

  /**
    Lines 51-62: the friction impulse, the tangential relative velocity times the
    reduced mass times the combined friction. It has no component along a unit normal.
  */
  function FrictionImpulse(contact: Contact, reducedMass: real, rotate: Rotation): (f: Vec3)
    reads contact.bodyA, contact.bodyB
    requires contact.bodyA != null && contact.bodyB != null
    requires contact.bodyA.shape.Ref? && contact.bodyB.shape.Ref?
    ensures LengthSqr(contact.normal) == 1.0 ==> Dot(f, contact.normal) == 0.0
  {
    var vt := Tangential(RelativeVelocity(contact, rotate), contact.normal);
    TangentialIsOrthogonal(RelativeVelocity(contact, rotate), contact.normal);
    ScaleKeepsOrthogonal(vt, reducedMass, CombinedCoefficient(contact.bodyA.friction, contact.bodyB.friction), contact.normal);
    Scale(Scale(vt, reducedMass), CombinedCoefficient(contact.bodyA.friction, contact.bodyB.friction))
  }

  lemma ScaleKeepsOrthogonal(v: Vec3, s: real, t: real, n: Vec3)
    ensures Dot(v, n) == 0.0 ==> Dot(Scale(Scale(v, s), t), n) == 0.0
  {
    assert Dot(Scale(Scale(v, s), t), n) == s * t * Dot(v, n);
  }

  /**
    ResolveContact. The collision impulse n·impulse and then the friction
    impulse are applied to A negated and to B as they are, each through
    ApplyImpulse at the contact point; a static body keeps both velocities.
    With a time of impact of 0 the bodies are pushed apart along ptOnB − ptOnA
    in the proportions PositionalSplit gives; otherwise no position changes.
    Orientation, masses, coefficients and shapes never change.
    The impulse magnitude (line 41), the reduced mass (line 61) and the two
    world-space inverse inertia tensors are given.
  */
  method ResolveContact(contact: Contact, impulse: real, reducedMass: real,
                        invInertiaA: Mat3, invInertiaB: Mat3,
                        rotate: Rotation, normalize: Normalizer)
    requires contact.bodyA != null && contact.bodyB != null && contact.bodyA != contact.bodyB
    requires contact.bodyA.shape.Ref? && contact.bodyB.shape.Ref?
    requires IsNormalizer(normalize)
    requires contact.timeOfImpact == 0.0 ==> contact.bodyA.invMass + contact.bodyB.invMass != 0.0
    modifies contact.bodyA`linearVelocity, contact.bodyA`angularVelocity, contact.bodyA`position
    modifies contact.bodyB`linearVelocity, contact.bodyB`angularVelocity, contact.bodyB`position
    ensures var j := Scale(contact.normal, impulse);
            var f := old(FrictionImpulse(contact, reducedMass, rotate));
            var afterJ := ExchangeImpulse(old(contact.bodyA.linearVelocity), old(contact.bodyB.linearVelocity),
                                          contact.bodyA.invMass, contact.bodyB.invMass, j);
            (contact.bodyA.linearVelocity, contact.bodyB.linearVelocity) ==
              ExchangeImpulse(afterJ.0, afterJ.1, contact.bodyA.invMass, contact.bodyB.invMass, f)
    ensures contact.bodyA.invMass == 0.0 ==> contact.bodyA.angularVelocity == old(contact.bodyA.angularVelocity)
    ensures contact.bodyB.invMass == 0.0 ==> contact.bodyB.angularVelocity == old(contact.bodyB.angularVelocity)
    ensures contact.bodyA.invMass != 0.0 ==>
              var com := old(contact.bodyA.CenterOfMassWorldSpace(rotate));
              var j := Scale(contact.normal, impulse);
              var f := old(FrictionImpulse(contact, reducedMass, rotate));
              contact.bodyA.angularVelocity ==
                KickedAngular(KickedAngular(old(contact.bodyA.angularVelocity), contact.ptOnAWorld, com, Scale(j, -1.0), invInertiaA, normalize),
                              contact.ptOnAWorld, com, Scale(f, -1.0), invInertiaA, normalize)
    ensures contact.bodyB.invMass != 0.0 ==>
              var com := old(contact.bodyB.CenterOfMassWorldSpace(rotate));
              var j := Scale(contact.normal, impulse);
              var f := old(FrictionImpulse(contact, reducedMass, rotate));
              contact.bodyB.angularVelocity ==
                KickedAngular(KickedAngular(old(contact.bodyB.angularVelocity), contact.ptOnBWorld, com, j, invInertiaB, normalize),
                              contact.ptOnBWorld, com, f, invInertiaB, normalize)
    ensures contact.timeOfImpact != 0.0 ==>
              contact.bodyA.position == old(contact.bodyA.position) && contact.bodyB.position == old(contact.bodyB.position)
    ensures contact.timeOfImpact == 0.0 ==>
              var t := PositionalSplit(contact.bodyA.invMass, contact.bodyB.invMass);
              var ds := Sub(contact.ptOnBWorld, contact.ptOnAWorld);
              contact.bodyA.position == Add(old(contact.bodyA.position), Scale(ds, t.0)) &&
              contact.bodyB.position == Sub(old(contact.bodyB.position), Scale(ds, t.1))
  {
    var bodyA, bodyB := contact.bodyA, contact.bodyB;
    var n := contact.normal;
    ghost var comA := bodyA.CenterOfMassWorldSpace(rotate);
    ghost var comB := bodyB.CenterOfMassWorldSpace(rotate);
    var vab := RelativeVelocity(contact, rotate);
    var impulseVector := Scale(n, impulse);
    var frictionImpulse := FrictionImpulse(contact, reducedMass, rotate);
    assert Scale(impulseVector, 1.0) == impulseVector;

    bodyA.ApplyImpulse(contact.ptOnAWorld, Scale(impulseVector, -1.0), rotate, invInertiaA, normalize);
    bodyB.ApplyImpulse(contact.ptOnBWorld, Scale(impulseVector, 1.0), rotate, invInertiaB, normalize);

    bodyA.ApplyImpulse(contact.ptOnAWorld, Scale(frictionImpulse, -1.0), rotate, invInertiaA, normalize);
    bodyB.ApplyImpulse(contact.ptOnBWorld, frictionImpulse, rotate, invInertiaB, normalize);

    if contact.timeOfImpact == 0.0 {
      var split := PositionalSplit(bodyA.invMass, bodyB.invMass);
      var tA, tB := split.0, split.1;
      var ds := Sub(contact.ptOnBWorld, contact.ptOnAWorld);
      bodyA.position := Add(bodyA.position, Scale(ds, tA));
      bodyB.position := Sub(bodyB.position, Scale(ds, tB));
    }
  }
}
