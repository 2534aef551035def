/**
  Real-valued stand-ins for the engine's math primitives: Vec3, Quat, Mat3 and
  Bounds. Only the arithmetic that the physics code relies on is defined here;
  rotation by a quaternion, quaternion inverse and vector normalisation involve
  square roots and code that is not part of this model, so they enter the other
  modules as function-valued parameters (Rotation, Inversion, Normalizer).
*/
module Vectors {

  datatype Vec3 = Vec3(x: real, y: real, z: real)

  const Zero: Vec3 := Vec3(0.0, 0.0, 0.0)

  function Add(a: Vec3, b: Vec3): Vec3 { Vec3(a.x + b.x, a.y + b.y, a.z + b.z) }

  function Sub(a: Vec3, b: Vec3): Vec3 { Vec3(a.x - b.x, a.y - b.y, a.z - b.z) }

  function Scale(a: Vec3, s: real): Vec3 { Vec3(a.x * s, a.y * s, a.z * s) }

  function Dot(a: Vec3, b: Vec3): real { a.x * b.x + a.y * b.y + a.z * b.z }

  function Cross(a: Vec3, b: Vec3): Vec3 {
    Vec3(a.y * b.z - a.z * b.y, a.z * b.x - a.x * b.z, a.x * b.y - a.y * b.x)
  }

  function LengthSqr(a: Vec3): real { Dot(a, a) }

  /** A quaternion (x, y, z, w); (0, 0, 0, 1) is the identity rotation. */
  datatype Quat = Quat(x: real, y: real, z: real, w: real)

  const Identity: Quat := Quat(0.0, 0.0, 0.0, 1.0)

  /** Quat::RotatePoint. */
  type Rotation = (Quat, Vec3) -> Vec3

  /** Quat::Inverse. */
  type Inversion = Quat -> Quat

  /** Vec3::Normalize, as a function from a vector to its normalised copy. */
  type Normalizer = Vec3 -> Vec3

  /** The one property of Normalize the model relies on: a non-zero vector becomes a unit vector. */
  ghost predicate IsNormalizer(normalize: Normalizer) {
    forall v :: LengthSqr(v) > 0.0 ==> LengthSqr(normalize(v)) == 1.0
  }

  /**
    The property of Quat::Inverse the model relies on: rotating by a
    quaternion and then by its inverse (or the other way round) gives every
    vector back.
  */
  ghost predicate IsInverseRotation(rotate: Rotation, inverse: Inversion) {
    forall q, v :: rotate(inverse(q), rotate(q, v)) == v && rotate(q, rotate(inverse(q), v)) == v
  }

  /** A rotation, being linear, leaves the zero vector where it is. */
  ghost predicate FixesOrigin(rotate: Rotation) {
    forall q :: rotate(q, Zero) == Zero
  }

  /** A 3x3 matrix stored by rows. */
  datatype Mat3 = Mat3(r0: Vec3, r1: Vec3, r2: Vec3)

  function MulVec(m: Mat3, v: Vec3): Vec3 { Vec3(Dot(m.r0, v), Dot(m.r1, v), Dot(m.r2, v)) }

  function AddMat(m: Mat3, n: Mat3): Mat3 { Mat3(Add(m.r0, n.r0), Add(m.r1, n.r1), Add(m.r2, n.r2)) }

  predicate IsSymmetric(m: Mat3) {
    m.r0.y == m.r1.x && m.r0.z == m.r2.x && m.r1.z == m.r2.y
  }

  predicate IsDiagonal(m: Mat3) {
    m.r0.y == 0.0 && m.r0.z == 0.0 && m.r1.x == 0.0 && m.r1.z == 0.0 && m.r2.x == 0.0 && m.r2.y == 0.0
  }

  /** An axis-aligned box given by its minimum and maximum corners. */
  datatype Bounds = Bounds(mins: Vec3, maxs: Vec3)

  function Min(a: real, b: real): real { if a <= b then a else b }

  function Max(a: real, b: real): real { if a >= b then a else b }

  /** Component-wise a <= b. */
  predicate LessEq(a: Vec3, b: Vec3) { a.x <= b.x && a.y <= b.y && a.z <= b.z }

  predicate Contains(b: Bounds, p: Vec3) { LessEq(b.mins, p) && LessEq(p, b.maxs) }

  /** Bounds whose minimum corner is not above the maximum corner on any axis. */
  predicate IsProper(b: Bounds) { LessEq(b.mins, b.maxs) }

  /** `inner` lies inside `outer` on every axis. */
  predicate Encloses(outer: Bounds, inner: Bounds) {
    LessEq(outer.mins, inner.mins) && LessEq(inner.maxs, outer.maxs)
  }

  /**
    Bounds::Expand(p): grow the box component-wise so that it contains p.
    Bounds.h is not part of this model; this is the component-wise min/max growth it performs.
  */
  function Expand(b: Bounds, p: Vec3): (r: Bounds)
    ensures Contains(r, p)
    ensures Encloses(r, b)
    ensures Contains(b, p) ==> r == b
  {
    Bounds(Vec3(Min(b.mins.x, p.x), Min(b.mins.y, p.y), Min(b.mins.z, p.z)),
           Vec3(Max(b.maxs.x, p.x), Max(b.maxs.y, p.y), Max(b.maxs.z, p.z)))
  }

  /**
    Expand by every point of `pts` in order, starting from `b`: the result
    encloses the starting box and contains every point.
  */
  function ExpandAll(b: Bounds, pts: seq<Vec3>): (r: Bounds)
    ensures Encloses(r, b)
    ensures forall k :: 0 <= k < |pts| ==> Contains(r, pts[k])
    decreases |pts|
  {
    if pts == [] then b
    else
      var r := ExpandAll(Expand(b, pts[0]), pts[1..]);
      assert forall k :: 1 <= k < |pts| ==> pts[k] == pts[1..][k - 1];
      r
  }

  /** ExpandAll grows no more than it must: every box that encloses the start and contains the points encloses it. */
  lemma {:induction false} ExpandAllSmallest(b: Bounds, pts: seq<Vec3>, outer: Bounds)
    requires Encloses(outer, b)
    requires forall k :: 0 <= k < |pts| ==> Contains(outer, pts[k])
    ensures Encloses(outer, ExpandAll(b, pts))
    decreases |pts|
  {
    if pts != [] {
      assert Contains(outer, pts[0]);
      assert forall k :: 0 <= k < |pts| - 1 ==> pts[1..][k] == pts[k + 1];
      ExpandAllSmallest(Expand(b, pts[0]), pts[1..], outer);
    }
  }

  /** ExpandAll over a non-empty list yields proper bounds, whatever it started from. */
  lemma {:induction false} ExpandAllProper(b: Bounds, pts: seq<Vec3>)
    requires pts != [] || IsProper(b)
    ensures IsProper(ExpandAll(b, pts))
    decreases |pts|
  {
    if pts != [] {
      ExpandAllProper(Expand(b, pts[0]), pts[1..]);
    }
  }

  /** The centre of a box: (mins + maxs) * 0.5, which lies inside proper bounds. */
  function Midpoint(b: Bounds): (c: Vec3)
    ensures IsProper(b) ==> Contains(b, c)
    ensures Sub(c, b.mins) == Sub(b.maxs, c)
  {
    Scale(Add(b.mins, b.maxs), 0.5)
  }
}
