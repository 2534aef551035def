/**
  Body: a rigid body's state, its frame conversions and the impulse rules
  that update its velocities in place.
*/
module Bodies {
  import opened Vectors
  import opened Shapes

  /** kMaxAngularSpeed: the angular speed ApplyImpulseAngular clamps to. */
  const MaxAngularSpeed: real := 30.0

  /**
    The clamp at the end of ApplyImpulseAngular: an angular velocity whose
    squared length exceeds 30² is normalised and scaled to length 30; any other
    is left as it is. The result is never faster than 30.
  */
  function ClampAngular(w: Vec3, normalize: Normalizer): (r: Vec3)
    requires IsNormalizer(normalize)
    ensures LengthSqr(r) <= MaxAngularSpeed * MaxAngularSpeed
    ensures LengthSqr(w) <= MaxAngularSpeed * MaxAngularSpeed ==> r == w
    ensures LengthSqr(w) > MaxAngularSpeed * MaxAngularSpeed ==> LengthSqr(r) == MaxAngularSpeed * MaxAngularSpeed
  {
    if LengthSqr(w) > MaxAngularSpeed * MaxAngularSpeed then
      assert LengthSqr(Scale(normalize(w), MaxAngularSpeed))
          == MaxAngularSpeed * MaxAngularSpeed * LengthSqr(normalize(w));
      Scale(normalize(w), MaxAngularSpeed)
    else
      w
  }

  class Body {
    var position: Vec3
    var orientation: Quat
    var linearVelocity: Vec3
    var angularVelocity: Vec3
    var invMass: real
    var elasticity: real
    var friction: real
    var shape: ShapeRef

    /**
      Body::Body: at the origin, identity orientation, at rest, static
      (invMass 0), fully elastic and without a shape. The angular velocity is a
      default-constructed vector, taken to be zero; the friction is not
      initialised, so nothing is promised about it.
    */
    constructor ()
      ensures position == Zero && orientation == Identity && linearVelocity == Zero
      ensures angularVelocity == Zero
      ensures invMass == 0.0 && elasticity == 1.0 && shape == Null
    {
      position := Zero;
      orientation := Identity;
      linearVelocity := Zero;
      angularVelocity := Zero;
      invMass := 0.0;
      elasticity := 1.0;
      shape := Null;
    }

    /** A separate body with the same field values: what copying a Body into a container makes. */
    method Clone() returns (c: Body)
      ensures fresh(c)
      ensures c.position == position && c.orientation == orientation
      ensures c.linearVelocity == linearVelocity && c.angularVelocity == angularVelocity
      ensures c.invMass == invMass && c.elasticity == elasticity && c.friction == friction && c.shape == shape
    {
      c := new Body();
      c.position := position;
      c.orientation := orientation;
      c.linearVelocity := linearVelocity;
      c.angularVelocity := angularVelocity;
      c.invMass := invMass;
      c.elasticity := elasticity;
      c.friction := friction;
      c.shape := shape;
    }

    /** GetCenterOfMassModelSpace: the shape's own centre of mass, in the shape's coordinates. */
    function CenterOfMassModelSpace(): (c: Vec3)
      reads this
      requires shape.Ref?
      ensures c == shape.centerOfMass
    {
      shape.centerOfMass
    }

    /**
      GetCenterOfMassWorldSpace: the model-space centre of mass rotated by the
      orientation and placed at the position. It sits at the position itself
      when the shape's centre of mass is its origin.
    */
    function CenterOfMassWorldSpace(rotate: Rotation): (c: Vec3)
      reads this
      requires shape.Ref?
      ensures Sub(c, position) == rotate(orientation, shape.centerOfMass)
      ensures FixesOrigin(rotate) && shape.centerOfMass == Zero ==> c == position
    {
      Add(position, rotate(orientation, CenterOfMassModelSpace()))
    }

    /**
      WorldSpaceToBodySpace: the offset from the world-space centre of mass,
      rotated by the inverse orientation. Rotated back by the orientation, it
      is that offset again.
    */
    function WorldSpaceToBodySpace(worldPoint: Vec3, rotate: Rotation, inverse: Inversion): (b: Vec3)
      reads this
      requires shape.Ref?
      ensures IsInverseRotation(rotate, inverse) ==>
                rotate(orientation, b) == Sub(worldPoint, CenterOfMassWorldSpace(rotate))
    {
      var point := Sub(worldPoint, CenterOfMassWorldSpace(rotate));
      rotate(inverse(orientation), point)
    }

    /** BodySpaceToWorldSpace: the world point whose offset from the centre of mass is the rotated body point. */
    function BodySpaceToWorldSpace(bodyPoint: Vec3, rotate: Rotation): (w: Vec3)
      reads this
      requires shape.Ref?
      ensures Sub(w, CenterOfMassWorldSpace(rotate)) == rotate(orientation, bodyPoint)
    {
      Add(CenterOfMassWorldSpace(rotate), rotate(orientation, bodyPoint))
    }

    /** Going to world space and back returns the point. */
    lemma BodyWorldRoundTrip(bodyPoint: Vec3, rotate: Rotation, inverse: Inversion)
      requires shape.Ref?
      requires IsInverseRotation(rotate, inverse)
      ensures WorldSpaceToBodySpace(BodySpaceToWorldSpace(bodyPoint, rotate), rotate, inverse) == bodyPoint
    {
      var com := CenterOfMassWorldSpace(rotate);
      var rotated := rotate(orientation, bodyPoint);
      assert Sub(Add(com, rotated), com) == rotated;
      assert rotate(inverse(orientation), rotated) == bodyPoint;
    }

    /** Going to body space and back returns the point. */
    lemma WorldBodyRoundTrip(worldPoint: Vec3, rotate: Rotation, inverse: Inversion)
      requires shape.Ref?
      requires IsInverseRotation(rotate, inverse)
      ensures BodySpaceToWorldSpace(WorldSpaceToBodySpace(worldPoint, rotate, inverse), rotate) == worldPoint
    {
      var com := CenterOfMassWorldSpace(rotate);
      var p := Sub(worldPoint, com);
      assert rotate(orientation, rotate(inverse(orientation), p)) == p;
      assert Add(com, p) == worldPoint;
    }

    /** The world-space centre of mass is the origin of body space, and the other way round. */
    lemma CenterOfMassIsBodyOrigin(rotate: Rotation, inverse: Inversion)
      requires shape.Ref?
      requires FixesOrigin(rotate)
      ensures WorldSpaceToBodySpace(CenterOfMassWorldSpace(rotate), rotate, inverse) == Zero
      ensures BodySpaceToWorldSpace(Zero, rotate) == CenterOfMassWorldSpace(rotate)
    {
      var com := CenterOfMassWorldSpace(rotate);
      assert Sub(com, com) == Zero;
      assert rotate(inverse(orientation), Zero) == Zero;
      assert rotate(orientation, Zero) == Zero;
      assert Add(com, Zero) == com;
    }

    /** ApplyImpulseLinear: v += impulse * invMass, nothing else changes; a static body keeps its velocity. */
    method ApplyImpulseLinear(impulse: Vec3)
      modifies this`linearVelocity
      ensures linearVelocity == Add(old(linearVelocity), Scale(impulse, invMass))
      ensures invMass == 0.0 ==> linearVelocity == old(linearVelocity)
    {
      linearVelocity := Add(linearVelocity, Scale(impulse, invMass));
    }

    /**
      ApplyImpulseAngular: a static body is left alone; otherwise
      ω += I⁻¹ · impulse (the world-space inverse inertia tensor is given) and
      then clamped to 30, so the result is never faster than 30 and an ω already
      within 30 is left unclamped.
    */
    method ApplyImpulseAngular(impulse: Vec3, invInertiaWorld: Mat3, normalize: Normalizer)
      requires IsNormalizer(normalize)
      modifies this`angularVelocity
      ensures invMass == 0.0 ==> angularVelocity == old(angularVelocity)
      ensures invMass != 0.0 ==>
                angularVelocity == ClampAngular(Add(old(angularVelocity), MulVec(invInertiaWorld, impulse)), normalize)
      ensures invMass != 0.0 ==> LengthSqr(angularVelocity) <= MaxAngularSpeed * MaxAngularSpeed
    {
      if 0.0 == invMass {
        return;
      }
      angularVelocity := Add(angularVelocity, MulVec(invInertiaWorld, impulse));
      if LengthSqr(angularVelocity) > MaxAngularSpeed * MaxAngularSpeed {
        angularVelocity := normalize(angularVelocity);
        angularVelocity := Scale(angularVelocity, MaxAngularSpeed);
      }
    }

    /**
      ApplyImpulse at a world-space point: a static body is left alone;
      otherwise the linear impulse is applied and the angular impulse
      (point − centre of mass) × impulse goes through ApplyImpulseAngular. Only
      the two velocities can change.
    */
    method ApplyImpulse(point: Vec3, impulse: Vec3, rotate: Rotation, invInertiaWorld: Mat3, normalize: Normalizer)
      requires IsNormalizer(normalize)
      requires invMass != 0.0 ==> shape.Ref?
      modifies this`linearVelocity, this`angularVelocity
      ensures invMass == 0.0 ==> linearVelocity == old(linearVelocity) && angularVelocity == old(angularVelocity)
      ensures invMass != 0.0 ==> linearVelocity == Add(old(linearVelocity), Scale(impulse, invMass))
      ensures invMass != 0.0 ==>
                angularVelocity == ClampAngular(Add(old(angularVelocity),
                  MulVec(invInertiaWorld, Cross(Sub(point, CenterOfMassWorldSpace(rotate)), impulse))), normalize)
    {
      if 0.0 == invMass {
        return;
      }
      ApplyImpulseLinear(impulse);
      var cm := CenterOfMassWorldSpace(rotate);
      var r := Sub(point, cm);
      var angularImpulse := Cross(r, impulse);
      ApplyImpulseAngular(angularImpulse, invInertiaWorld, normalize);
    }
  }
}
