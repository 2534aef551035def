/**
  ShapeBox and ShapeConvex: the box's eight corners, centre of mass and
  inertia tensor, the fastest-point speed bound both shapes share, and their
  world-space bounds.
*/
module Shapes {
  import opened Vectors

  /** What a Body needs to know about its Shape: its kind and its centre of mass. */
  datatype ShapeKind = SphereShape(radius: real) | BoxShape | ConvexShape

  /** A Shape* as a Body holds it: null, or a shape's kind and centre of mass. */
  datatype ShapeRef = Null | Ref(kind: ShapeKind, centerOfMass: Vec3)

  /** The point of `b` that takes each coordinate from maxs when its flag is set, from mins otherwise. */
  function Pick(b: Bounds, maxX: bool, maxY: bool, maxZ: bool): Vec3 {
    Vec3(if maxX then b.maxs.x else b.mins.x, if maxY then b.maxs.y else b.mins.y, if maxZ then b.maxs.z else b.mins.z)
  }

  /** Every coordinate of p is the bounds' min or max on that axis. */
  predicate OnCornerGrid(b: Bounds, p: Vec3) {
    && (p.x == b.mins.x || p.x == b.maxs.x)
    && (p.y == b.mins.y || p.y == b.maxs.y)
    && (p.z == b.mins.z || p.z == b.maxs.z)
  }

  /**
    The eight corners of `b` in the order ShapeBox::Build and both GetBounds
    list them. All eight min/max combinations occur, and for bounds that are
    strictly wider than zero on every axis no corner repeats.
  */
  function Corners(b: Bounds): (c: seq<Vec3>)
    ensures |c| == 8
    ensures forall k :: 0 <= k < 8 ==> OnCornerGrid(b, c[k])
    ensures forall maxX, maxY, maxZ :: Pick(b, maxX, maxY, maxZ) in c
    ensures b.mins.x < b.maxs.x && b.mins.y < b.maxs.y && b.mins.z < b.maxs.z ==>
              forall i, j :: 0 <= i < j < 8 ==> c[i] != c[j]
  {
    var lo, hi := b.mins, b.maxs;
    [Vec3(lo.x, lo.y, lo.z), Vec3(hi.x, lo.y, lo.z), Vec3(lo.x, hi.y, lo.z), Vec3(lo.x, lo.y, hi.z),
     Vec3(hi.x, hi.y, hi.z), Vec3(lo.x, hi.y, hi.z), Vec3(hi.x, lo.y, hi.z), Vec3(hi.x, hi.y, lo.z)]
  }

  // ---------------------------------------------------------------------------
  // FastestLinearSpeed, shared by ShapeBox and ShapeConvex

  /** The speed of point p along dir when the shape spins at w about com: dir · (w × (p − com)). */
  function PointSpeed(p: Vec3, com: Vec3, w: Vec3, dir: Vec3): real {
    Dot(dir, Cross(w, Sub(p, com)))
  }

  /** max(0, the largest PointSpeed over points): the running maximum starts at zero. */
  function MaxSpeed(points: seq<Vec3>, com: Vec3, w: Vec3, dir: Vec3): (r: real)
    ensures r >= 0.0
    ensures forall i :: 0 <= i < |points| ==> PointSpeed(points[i], com, w, dir) <= r
    ensures r == 0.0 || exists i :: 0 <= i < |points| && r == PointSpeed(points[i], com, w, dir)
    decreases |points|
  {
    if points == [] then 0.0
    else
      var rest := MaxSpeed(points[..|points| - 1], com, w, dir);
      var s := PointSpeed(points[|points| - 1], com, w, dir);
      if s > rest then s else rest
  }

  /** The loop both FastestLinearSpeed methods run. */
  method FastestSpeed(points: seq<Vec3>, com: Vec3, w: Vec3, dir: Vec3) returns (maxSpeed: real)
    ensures maxSpeed == MaxSpeed(points, com, w, dir)
  {
    maxSpeed := 0.0;
    var i := 0;
    while i < |points|
      invariant 0 <= i <= |points|
      invariant maxSpeed == MaxSpeed(points[..i], com, w, dir)
    {
      var r := Sub(points[i], com);
      var linearVelocity := Cross(w, r);
      var speed := Dot(dir, linearVelocity);
      assert points[..i + 1][..i] == points[..i];
      if speed > maxSpeed {
        maxSpeed := speed;
      }
      i := i + 1;
    }
    assert points[..i] == points;
  }

  // ---------------------------------------------------------------------------
  // GetBounds, shared by ShapeBox and ShapeConvex

  /** The corners of `b` rotated by orient and moved to pos. */
  function PlacedCorners(b: Bounds, pos: Vec3, orient: Quat, rotate: Rotation): (c: seq<Vec3>)
    ensures |c| == 8
  {
    var corners := Corners(b);
    seq(8, k requires 0 <= k < 8 => Add(rotate(orient, corners[k]), pos))
  }

  /**
    The loop of GetBounds: each corner is rotated, translated and expanded into
    `init`, a default-constructed Bounds. The result holds every placed corner.
  */
  method TransformedBounds(b: Bounds, pos: Vec3, orient: Quat, rotate: Rotation, init: Bounds) returns (r: Bounds)
    ensures r == ExpandAll(init, PlacedCorners(b, pos, orient, rotate))
    ensures forall k :: 0 <= k < 8 ==> Contains(r, Add(rotate(orient, Corners(b)[k]), pos))
  {
    var corners := Corners(b);
    ghost var placed := PlacedCorners(b, pos, orient, rotate);
    r := init;
    var i := 0;
    while i < 8
      invariant 0 <= i <= 8 && |corners| == 8
      invariant forall k :: 0 <= k < i ==> corners[k] == placed[k]
      invariant forall k :: i <= k < 8 ==> corners[k] == Corners(b)[k]
      invariant ExpandAll(r, placed[i..]) == ExpandAll(init, placed)
    {
      corners := corners[i := Add(rotate(orient, corners[i]), pos)];
      assert corners[i] == placed[i];
      assert placed[i..] == [placed[i]] + placed[i + 1..];
      r := Expand(r, corners[i]);
      i := i + 1;
    }
    forall k | 0 <= k < 8
      ensures Contains(r, Add(rotate(orient, Corners(b)[k]), pos))
    {
      assert placed[k] == Add(rotate(orient, Corners(b)[k]), pos);
    }
  }

  // ---------------------------------------------------------------------------
  // ShapeBox

  /** The box's own tensor about its centre: (dy² + dz²)/12, (dx² + dz²)/12, (dx² + dy²)/12 on the diagonal. */
  function BaseInertia(b: Bounds): (m: Mat3)
    ensures IsDiagonal(m)
    ensures m.r0.x >= 0.0 && m.r1.y >= 0.0 && m.r2.z >= 0.0
  {
    var d := Sub(b.maxs, b.mins);
    assert d.x * d.x >= 0.0 && d.y * d.y >= 0.0 && d.z * d.z >= 0.0;
    Mat3(Vec3((d.y * d.y + d.z * d.z) / 12.0, 0.0, 0.0),
         Vec3(0.0, (d.x * d.x + d.z * d.z) / 12.0, 0.0),
         Vec3(0.0, 0.0, (d.x * d.x + d.y * d.y) / 12.0))
  }

  /**
    The parallel-axis addend for offset r, with the signs as written: |r|² − r_i²
    on the diagonal and r_i · r_j off it. It is symmetric, its diagonal is never
    negative, and it vanishes for a zero offset.
  */
  function ParallelAxis(r: Vec3): (m: Mat3)
    ensures IsSymmetric(m)
    ensures m.r0.x >= 0.0 && m.r1.y >= 0.0 && m.r2.z >= 0.0
    ensures r == Zero ==> m == Mat3(Zero, Zero, Zero)
  {
    var r2 := LengthSqr(r);
    assert r.x * r.x >= 0.0 && r.y * r.y >= 0.0 && r.z * r.z >= 0.0;
    Mat3(Vec3(r2 - r.x * r.x, r.x * r.y, r.x * r.z),
         Vec3(r.y * r.x, r2 - r.y * r.y, r.y * r.z),
         Vec3(r.z * r.x, r.z * r.y, r2 - r.z * r.z))
  }

  /** A diagonal matrix plus a symmetric one is symmetric, and non-negative diagonals add up non-negative. */
  lemma AddPreservesShape(base: Mat3, addend: Mat3)
    requires IsDiagonal(base) && IsSymmetric(addend)
    requires base.r0.x >= 0.0 && base.r1.y >= 0.0 && base.r2.z >= 0.0
    requires addend.r0.x >= 0.0 && addend.r1.y >= 0.0 && addend.r2.z >= 0.0
    ensures var m := AddMat(base, addend);
            IsSymmetric(m) && m.r0.x >= 0.0 && m.r1.y >= 0.0 && m.r2.z >= 0.0
    ensures addend == Mat3(Zero, Zero, Zero) ==> AddMat(base, addend) == base
  {
  }

  class ShapeBox {
    var bounds: Bounds
    var points: seq<Vec3>
    var centerOfMass: Vec3

    /** A box before Build, holding the bounds it starts expanding from. */
    constructor (initial: Bounds)
      ensures bounds == initial && points == [] && centerOfMass == Zero
    {
      bounds := initial;
      points := [];
      centerOfMass := Zero;
    }

    /**
      Build: the bounds are expanded by every input point from their previous
      value (not reset), the corner list is replaced by the eight corners, and the
      centre of mass is the midpoint of the bounds.
    */
    method Build(pts: seq<Vec3>)
      modifies this
      ensures bounds == ExpandAll(old(bounds), pts)
      ensures Encloses(bounds, old(bounds)) && forall k :: 0 <= k < |pts| ==> Contains(bounds, pts[k])
      ensures points == Corners(bounds)
      ensures centerOfMass == Midpoint(bounds)
    {
      var i := 0;
      while i < |pts|
        invariant 0 <= i <= |pts|
        invariant ExpandAll(bounds, pts[i..]) == ExpandAll(old(bounds), pts)
      {
        assert pts[i..] == [pts[i]] + pts[i + 1..];
        bounds := Expand(bounds, pts[i]);
        i := i + 1;
      }

      var lo, hi := bounds.mins, bounds.maxs;
      points := [];
      points := points + [Vec3(lo.x, lo.y, lo.z)];
      points := points + [Vec3(hi.x, lo.y, lo.z)];
      points := points + [Vec3(lo.x, hi.y, lo.z)];
      points := points + [Vec3(lo.x, lo.y, hi.z)];
      points := points + [Vec3(hi.x, hi.y, hi.z)];
      points := points + [Vec3(lo.x, hi.y, hi.z)];
      points := points + [Vec3(hi.x, lo.y, hi.z)];
      points := points + [Vec3(hi.x, hi.y, lo.z)];

      centerOfMass := Scale(Add(bounds.mins, bounds.maxs), 0.5);
    }

    /**
      InertiaTensor: the base diagonal plus the parallel-axis addend for the
      offset from the bounds' midpoint to the origin. The result is symmetric
      with a non-negative diagonal, and for bounds centred on the origin it is
      exactly the base diagonal.
    */
    function InertiaTensor(): (m: Mat3)
      reads this
      ensures IsSymmetric(m)
      ensures m.r0.x >= 0.0 && m.r1.y >= 0.0 && m.r2.z >= 0.0
      ensures Midpoint(bounds) == Zero ==> m == BaseInertia(bounds)
    {
      var base := BaseInertia(bounds);
      var addend := ParallelAxis(Sub(Zero, Midpoint(bounds)));
      AddPreservesShape(base, addend);
      AddMat(base, addend)
    }

    method FastestLinearSpeed(angularVelocity: Vec3, dir: Vec3) returns (maxSpeed: real)
      ensures maxSpeed == MaxSpeed(points, centerOfMass, angularVelocity, dir)
      ensures maxSpeed >= 0.0
    {
      maxSpeed := FastestSpeed(points, centerOfMass, angularVelocity, dir);
    }

    method GetBounds(pos: Vec3, orient: Quat, rotate: Rotation, init: Bounds) returns (r: Bounds)
      ensures forall k :: 0 <= k < 8 ==> Contains(r, Add(rotate(orient, Corners(bounds)[k]), pos))
    {
      r := TransformedBounds(bounds, pos, orient, rotate, init);
    }
  }

  // ---------------------------------------------------------------------------
  // ShapeConvex

  /** The convex shape's state; its Build is an empty stub, so the fields are given. */
  class ShapeConvex {
    var points: seq<Vec3>
    var centerOfMass: Vec3
    var bounds: Bounds

    constructor (points: seq<Vec3>, centerOfMass: Vec3, bounds: Bounds)
      ensures this.points == points && this.centerOfMass == centerOfMass && this.bounds == bounds
    {
      this.points := points;
      this.centerOfMass := centerOfMass;
      this.bounds := bounds;
    }

    method FastestLinearSpeed(angularVelocity: Vec3, dir: Vec3) returns (maxSpeed: real)
      ensures maxSpeed == MaxSpeed(points, centerOfMass, angularVelocity, dir)
      ensures maxSpeed >= 0.0
    {
      maxSpeed := FastestSpeed(points, centerOfMass, angularVelocity, dir);
    }

    method GetBounds(pos: Vec3, orient: Quat, rotate: Rotation, init: Bounds) returns (r: Bounds)
      ensures forall k :: 0 <= k < 8 ==> Contains(r, Add(rotate(orient, Corners(bounds)[k]), pos))
    {
      r := TransformedBounds(bounds, pos, orient, rotate, init);
    }
  }
}
