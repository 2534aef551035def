/**
  The QuickHull mesh bookkeeping of ShapeConvex.cpp: seeding a tetrahedron,
  pruning candidate points, adding one point at a time (facing triangles,
  silhouette edges, erase, fan) and compacting unreferenced vertices.

  A hull is a point list and a triangle list whose entries index the point list.
  The std::vector parameters the source mutates in place become sequences that
  go in and come back out. The geometric tests are parameters:
  DistanceFromLine and DistanceFromTriangle normalise a vector, which needs a
  square root, and edge_t's operator == is not part of this model.
*/
module ConvexHull {
  import opened Vectors

  /** tri_t: three indices into the hull's point list. */
  datatype Tri = Tri(a: int, b: int, c: int)

  /** edge_t: a directed edge between two point indices. */
  datatype Edge = Edge(a: int, b: int)

  /** DistanceFromLine(a, b, point). */
  type LineDistance = (Vec3, Vec3, Vec3) -> real

  /** DistanceFromTriangle(a, b, c, point): signed distance from the triangle's plane, positive in front. */
  type PlaneDistance = (Vec3, Vec3, Vec3, Vec3) -> real

  /** edge_t::operator ==. */
  type EdgeEquality = (Edge, Edge) -> bool

  // ---------------------------------------------------------------------------
  // Sequences that only lose elements

  /** `f` maps each position of `sub` to a position of `s`, strictly increasing, with equal elements. */
  ghost predicate Embeds<T>(sub: seq<T>, s: seq<T>, f: seq<int>) {
    && |f| == |sub|
    && (forall k :: 0 <= k < |f| ==> 0 <= f[k] < |s| && sub[k] == s[f[k]])
    && (forall k, l :: 0 <= k < l < |f| ==> f[k] < f[l])
  }

  /** `sub` is `s` with some elements deleted: nothing inserted, nothing reordered. */
  ghost predicate IsSubsequence<T>(sub: seq<T>, s: seq<T>) {
    exists f :: Embeds(sub, s, f)
  }

  lemma EmbedsMembers<T>(sub: seq<T>, s: seq<T>, f: seq<int>)
    requires Embeds(sub, s, f)
    ensures forall x :: x in sub ==> x in s
  {
    forall x | x in sub ensures x in s {
      var k :| 0 <= k < |sub| && sub[k] == x;
      assert s[f[k]] == x;
    }
  }

  lemma SubsequenceMembers<T>(sub: seq<T>, s: seq<T>)
    requires IsSubsequence(sub, s)
    ensures forall x :: x in sub ==> x in s
  {
    var f :| Embeds(sub, s, f);
    EmbedsMembers(sub, s, f);
  }

  lemma EmbedsCompose<T>(a: seq<T>, b: seq<T>, c: seq<T>, f: seq<int>, g: seq<int>)
    requires Embeds(a, b, f) && Embeds(b, c, g)
    ensures Embeds(a, c, seq(|f|, k requires 0 <= k < |f| => g[f[k]]))
  {
  }

  lemma SubsequenceTransitive<T>(a: seq<T>, b: seq<T>, c: seq<T>)
    requires IsSubsequence(a, b) && IsSubsequence(b, c)
    ensures IsSubsequence(a, c)
  {
    var f :| Embeds(a, b, f);
    var g :| Embeds(b, c, g);
    EmbedsCompose(a, b, c, f, g);
  }

  /** Deleting position i of `sub` keeps an embedding. */
  lemma EmbedsErase<T>(sub: seq<T>, s: seq<T>, f: seq<int>, i: int)
    requires Embeds(sub, s, f) && 0 <= i < |sub|
    ensures Embeds(sub[..i] + sub[i + 1..], s, f[..i] + f[i + 1..])
  {
    var sub', f' := sub[..i] + sub[i + 1..], f[..i] + f[i + 1..];
    forall k | 0 <= k < |f'|
      ensures 0 <= f'[k] < |s| && sub'[k] == s[f'[k]]
    {
      if k < i { assert f'[k] == f[k] && sub'[k] == sub[k]; }
      else { assert f'[k] == f[k + 1] && sub'[k] == sub[k + 1]; }
    }
    forall k, l | 0 <= k < l < |f'|
      ensures f'[k] < f'[l]
    {
      var k0 := if k < i then k else k + 1;
      var l0 := if l < i then l else l + 1;
      assert f'[k] == f[k0] && f'[l] == f[l0] && k0 < l0;
    }
  }

  /** Deleting positions lo..hi-1 of `sub` keeps an embedding. */
  lemma {:induction false} EmbedsEraseRange<T>(sub: seq<T>, s: seq<T>, f: seq<int>, lo: int, hi: int)
    requires Embeds(sub, s, f) && 0 <= lo <= hi <= |sub|
    ensures Embeds(sub[..lo] + sub[hi..], s, f[..lo] + f[hi..])
    decreases hi - lo
  {
    if lo < hi {
      EmbedsErase(sub, s, f, lo);
      var sub1, f1 := sub[..lo] + sub[lo + 1..], f[..lo] + f[lo + 1..];
      EmbedsEraseRange(sub1, s, f1, lo, hi - 1);
      assert sub1[..lo] + sub1[hi - 1..] == sub[..lo] + sub[hi..];
      assert f1[..lo] + f1[hi - 1..] == f[..lo] + f[hi..];
    }
  }

  lemma SubsequenceReflexive<T>(s: seq<T>)
    ensures IsSubsequence(s, s)
  {
    assert Embeds(s, s, IndexMap(|s|));
  }

  /** Deleting positions lo..hi-1 leaves a subsequence. */
  lemma EraseRangeIsSubsequence<T>(s: seq<T>, lo: int, hi: int)
    requires 0 <= lo <= hi <= |s|
    ensures IsSubsequence(s[..lo] + s[hi..], s)
  {
    var f := IndexMap(|s|);
    assert Embeds(s, s, f);
    EmbedsEraseRange(s, s, f, lo, hi);
  }

  function IndexMap(n: nat): (f: seq<int>)
    ensures |f| == n && forall k :: 0 <= k < n ==> f[k] == k
  {
    seq(n, k => k)
  }

  // ---------------------------------------------------------------------------
  // Furthest-point searches (FindPointFurthestInDir, FindPointFurthestFromLine,
  // FindPointFurthestFromTriangle share one running-maximum loop)

  function AlongDir(dir: Vec3): Vec3 -> real { p => Dot(dir, p) }

  function FromLine(dist: LineDistance, a: Vec3, b: Vec3): Vec3 -> real { p => dist(a, b, p) }

  function FromTriangle(dist: PlaneDistance, a: Vec3, b: Vec3, c: Vec3): Vec3 -> real { p => dist(a, b, c, p) }

  /**
    The index the running maximum over points[..n] ends on: a largest measure,
    and the first one among equals, because only a strictly larger value replaces it.
  */
  function FurthestIndex(points: seq<Vec3>, measure: Vec3 -> real, n: nat): (k: nat)
    requires 0 < n <= |points|
    ensures k < n
    ensures forall i :: 0 <= i < n ==> measure(points[i]) <= measure(points[k])
    ensures forall i :: 0 <= i < k ==> measure(points[i]) < measure(points[k])
    decreases n
  {
    if n == 1 then 0
    else
      var k := FurthestIndex(points, measure, n - 1);
      if measure(points[n - 1]) > measure(points[k]) then n - 1 else k
  }

  /** The loop shared by the three searches. */
  method FindFurthest(points: seq<Vec3>, measure: Vec3 -> real) returns (maxIdx: nat)
    requires |points| > 0
    ensures maxIdx == FurthestIndex(points, measure, |points|)
  {
    maxIdx := 0;
    var maxDist := measure(points[0]);
    var i := 1;
    while i < |points|
      invariant 1 <= i <= |points|
      invariant maxIdx == FurthestIndex(points, measure, i)
      invariant maxDist == measure(points[maxIdx])
    {
      var dist := measure(points[i]);
      if dist > maxDist {
        maxDist := dist;
        maxIdx := i;
      }
      i := i + 1;
    }
  }

  method FindPointFurthestInDir(points: seq<Vec3>, dir: Vec3) returns (idx: nat)
    requires |points| > 0
    ensures idx == FurthestIndex(points, AlongDir(dir), |points|)
    ensures idx < |points|
    ensures forall i :: 0 <= i < |points| ==> Dot(dir, points[i]) <= Dot(dir, points[idx])
    ensures forall i :: 0 <= i < idx ==> Dot(dir, points[i]) < Dot(dir, points[idx])
  {
    idx := FindFurthest(points, AlongDir(dir));
  }

  method FindPointFurthestFromLine(points: seq<Vec3>, a: Vec3, b: Vec3, dist: LineDistance) returns (p: Vec3)
    requires |points| > 0
    ensures p == points[FurthestIndex(points, FromLine(dist, a, b), |points|)]
    ensures p in points
    ensures forall i :: 0 <= i < |points| ==> dist(a, b, points[i]) <= dist(a, b, p)
  {
    var idx := FindFurthest(points, FromLine(dist, a, b));
    p := points[idx];
  }

  method FindPointFurthestFromTriangle(points: seq<Vec3>, a: Vec3, b: Vec3, c: Vec3, dist: PlaneDistance)
    returns (p: Vec3)
    requires |points| > 0
    ensures p == points[FurthestIndex(points, FromTriangle(dist, a, b, c), |points|)]
    ensures p in points
    ensures forall i :: 0 <= i < |points| ==> dist(a, b, c, points[i]) <= dist(a, b, c, p)
  {
    var idx := FindFurthest(points, FromTriangle(dist, a, b, c));
    p := points[idx];
  }

  // ---------------------------------------------------------------------------
  // Meshes

  predicate ValidTri(t: Tri, n: int) {
    0 <= t.a < n && 0 <= t.b < n && 0 <= t.c < n
  }

  /** Every triangle indexes existing points. */
  predicate ValidMesh(points: seq<Vec3>, tris: seq<Tri>) {
    forall k :: 0 <= k < |tris| ==> ValidTri(tris[k], |points|)
  }

  /** The edges a tri_t is split into: (a, b), (b, c), (c, a). */
  function TriEdges(t: Tri): seq<Edge> {
    [Edge(t.a, t.b), Edge(t.b, t.c), Edge(t.c, t.a)]
  }

  function DirectedEdges(tris: seq<Tri>): seq<Edge> {
    if tris == [] then [] else TriEdges(tris[0]) + DirectedEdges(tris[1..])
  }

  function Reverse(e: Edge): Edge { Edge(e.b, e.a) }

  /**
    No directed edge occurs twice and every edge's reverse occurs too: each
    edge is shared by exactly two triangles that traverse it in opposite
    directions, so the mesh is closed and consistently wound.
  */
  ghost predicate IsClosedAndWound(tris: seq<Tri>) {
    var es := DirectedEdges(tris);
    && (forall i, j :: 0 <= i < j < |es| ==> es[i] != es[j])
    && (forall i :: 0 <= i < |es| ==> Reverse(es[i]) in es)
  }

  const TetrahedronTriangles: seq<Tri> := [Tri(0, 1, 2), Tri(0, 2, 3), Tri(2, 1, 3), Tri(1, 0, 3)]

  lemma TetrahedronIsClosed()
    ensures IsClosedAndWound(TetrahedronTriangles)
    ensures forall k :: 0 <= k < |TetrahedronTriangles| ==> ValidTri(TetrahedronTriangles[k], 4)
  {
    var es := [Edge(0, 1), Edge(1, 2), Edge(2, 0), Edge(0, 2), Edge(2, 3), Edge(3, 0),
               Edge(2, 1), Edge(1, 3), Edge(3, 2), Edge(1, 0), Edge(0, 3), Edge(3, 1)];
    calc {
      DirectedEdges(TetrahedronTriangles);
      TriEdges(Tri(0, 1, 2)) + TriEdges(Tri(0, 2, 3)) + TriEdges(Tri(2, 1, 3)) + TriEdges(Tri(1, 0, 3));
      es;
    }
  }

  /** The four points BuildTetrahedron picks, in the order it picks them. */
  function TetrahedronCandidates(vertices: seq<Vec3>, line: LineDistance, plane: PlaneDistance): (q: seq<Vec3>)
    requires |vertices| > 0
    ensures |q| == 4 && forall k :: 0 <= k < 4 ==> q[k] in vertices
  {
    var n := |vertices|;
    var q0 := vertices[FurthestIndex(vertices, AlongDir(Vec3(1.0, 0.0, 0.0)), n)];
    var q1 := vertices[FurthestIndex(vertices, AlongDir(Scale(q0, -1.0)), n)];
    var q2 := vertices[FurthestIndex(vertices, FromLine(line, q0, q1), n)];
    var q3 := vertices[FurthestIndex(vertices, FromTriangle(plane, q0, q1, q2), n)];
    [q0, q1, q2, q3]
  }

  /**
    BuildTetrahedron: the outputs are cleared and refilled with the four extreme
    points (the first two swapped when the fourth lies in front of the first
    triangle) and the four triangles over them.
  */
  method BuildTetrahedron(vertices: seq<Vec3>, line: LineDistance, plane: PlaneDistance)
    returns (hullPoints: seq<Vec3>, hullTris: seq<Tri>)
    requires |vertices| > 0
    ensures var q := TetrahedronCandidates(vertices, line, plane);
            hullPoints == if plane(q[0], q[1], q[2], q[3]) > 0.0 then [q[1], q[0], q[2], q[3]] else q
    ensures |hullPoints| == 4 && forall k :: 0 <= k < 4 ==> hullPoints[k] in vertices
    ensures hullTris == TetrahedronTriangles
    ensures ValidMesh(hullPoints, hullTris) && IsClosedAndWound(hullTris)
  {
    var idx := FindPointFurthestInDir(vertices, Vec3(1.0, 0.0, 0.0));
    var p0 := vertices[idx];
    idx := FindPointFurthestInDir(vertices, Scale(p0, -1.0));
    var p1 := vertices[idx];
    var p2 := FindPointFurthestFromLine(vertices, p0, p1, line);
    var p3 := FindPointFurthestFromTriangle(vertices, p0, p1, p2, plane);

    ghost var q := TetrahedronCandidates(vertices, line, plane);
    assert q == [p0, p1, p2, p3];

    var dist := plane(p0, p1, p2, p3);
    if dist > 0.0 {
      p0, p1 := p1, p0;
    }
    hullPoints := [p0, p1, p2, p3];
    hullTris := [Tri(0, 1, 2), Tri(0, 2, 3), Tri(2, 1, 3), Tri(1, 0, 3)];
    TetrahedronIsClosed();
  }

  // ---------------------------------------------------------------------------
  // RemoveInternalPoints

  /**
    First pass of RemoveInternalPoints, as written: the erase sits inside the
    face loop. `point` is a reference to slot i of the vector's storage; after
    an erase that slot holds the next element, `i` has been decremented, and the
    following faces test the slot's new content and erase at the decremented
    index. The storage is modelled as a buffer whose tail keeps the values the
    erases leave behind. An erase at index -1 (before the vector's first
    element) has no defined meaning: the model stops there with defined ==
    false.
  */
  method RemoveBehindFaces(hullPoints: seq<Vec3>, hullTris: seq<Tri>, checkPoints: seq<Vec3>, plane: PlaneDistance)
    returns (remaining: seq<Vec3>, defined: bool)
    requires ValidMesh(hullPoints, hullTris)
    ensures |remaining| <= |checkPoints|
    ensures IsSubsequence(remaining, checkPoints)
  {
    var storage := checkPoints;
    var size := |checkPoints|;
    ghost var kept := IndexMap(|checkPoints|);
    var i: int := 0;
    defined := true;
    while i < size
      invariant 0 <= i <= size <= |storage| == |checkPoints|
      invariant Embeds(storage[..size], checkPoints, kept)
      decreases size - i
    {
      var slot := i;
      ghost var gap := size - i;
      var j := 0;
      while j < |hullTris|
        invariant 0 <= j <= |hullTris|
        invariant -1 <= i <= slot < |storage| == |checkPoints|
        invariant size <= |storage| && size - i == gap && gap >= 1
        invariant Embeds(storage[..size], checkPoints, kept)
      {
        var t := hullTris[j];
        if plane(hullPoints[t.a], hullPoints[t.b], hullPoints[t.c], storage[slot]) > 0.0 {
          break;
        }
        if i < 0 {
          defined := false;
          remaining := storage[..size];
          return;
        }
        EmbedsErase(storage[..size], checkPoints, kept, i);
        assert storage[..size][..i] + storage[..size][i + 1..] == storage[..i] + storage[i + 1..size];
        storage := storage[..i] + storage[i + 1..size] + storage[size - 1..];
        kept := kept[..i] + kept[i + 1..];
        size := size - 1;
        i := i - 1;
        j := j + 1;
      }
      i := i + 1;
    }
    remaining := storage[..size];
  }

  /** Points closer than this to a hull point are dropped (k_too_close_threshold, 1 cm). */
  const TooCloseThreshold: real := 0.01

  predicate TooClose(p: Vec3, hullPoints: seq<Vec3>) {
    exists j :: 0 <= j < |hullPoints| && LengthSqr(Sub(hullPoints[j], p)) < TooCloseThreshold * TooCloseThreshold
  }

  /** The points that are at least the threshold away from every hull point, in their order. */
  function KeepFar(points: seq<Vec3>, hullPoints: seq<Vec3>): seq<Vec3>
    decreases |points|
  {
    if points == [] then []
    else (if TooClose(points[0], hullPoints) then [] else [points[0]]) + KeepFar(points[1..], hullPoints)
  }

  /** A subsequence of a tail is a subsequence of the whole, with or without the head in front. */
  lemma SubsequenceOfTail<T>(r: seq<T>, s: seq<T>)
    requires s != [] && IsSubsequence(r, s[1..])
    ensures IsSubsequence(r, s) && IsSubsequence([s[0]] + r, s)
  {
    var f :| Embeds(r, s[1..], f);
    var shifted := seq(|f|, k requires 0 <= k < |f| => f[k] + 1);
    assert Embeds(r, s, shifted);
    assert Embeds([s[0]] + r, s, [0] + shifted);
  }

  /** KeepFar deletes points without reordering the rest. */
  lemma {:induction false} KeepFarIsSubsequence(points: seq<Vec3>, hullPoints: seq<Vec3>)
    ensures |KeepFar(points, hullPoints)| <= |points|
    ensures IsSubsequence(KeepFar(points, hullPoints), points)
    decreases |points|
  {
    if points == [] {
      assert Embeds([], points, []);
    } else {
      var rest := KeepFar(points[1..], hullPoints);
      KeepFarIsSubsequence(points[1..], hullPoints);
      SubsequenceOfTail(rest, points);
      if TooClose(points[0], hullPoints) {
        assert KeepFar(points, hullPoints) == rest;
      } else {
        assert KeepFar(points, hullPoints) == [points[0]] + rest;
      }
    }
  }

  /** KeepFar keeps exactly the points that are not too close to the hull. */
  lemma {:induction false} KeepFarKeepsExactlyFar(points: seq<Vec3>, hullPoints: seq<Vec3>)
    ensures forall p :: p in KeepFar(points, hullPoints) ==> p in points && !TooClose(p, hullPoints)
    ensures forall k :: 0 <= k < |points| && !TooClose(points[k], hullPoints) ==> points[k] in KeepFar(points, hullPoints)
    decreases |points|
  {
    if points != [] {
      KeepFarKeepsExactlyFar(points[1..], hullPoints);
      var r := KeepFar(points, hullPoints);
      assert r == (if TooClose(points[0], hullPoints) then [] else [points[0]]) + KeepFar(points[1..], hullPoints);
      forall k | 0 <= k < |points| && !TooClose(points[k], hullPoints)
        ensures points[k] in r
      {
        if k > 0 { assert points[k] == points[1..][k - 1]; }
      }
    }
  }

  /** Second pass of RemoveInternalPoints: drop every point too close to a hull point. */
  method RemoveTooClose(hullPoints: seq<Vec3>, checkPoints: seq<Vec3>) returns (remaining: seq<Vec3>)
    ensures remaining == KeepFar(checkPoints, hullPoints)
  {
    remaining := checkPoints;
    var i: int := 0;
    while i < |remaining|
      invariant 0 <= i <= |remaining|
      invariant remaining[..i] + KeepFar(remaining[i..], hullPoints) == KeepFar(checkPoints, hullPoints)
      decreases |remaining| - i
    {
      var point := remaining[i];
      var isTooClose := false;
      var j := 0;
      while j < |hullPoints|
        invariant 0 <= j <= |hullPoints|
        invariant !isTooClose
        invariant forall m :: 0 <= m < j ==> LengthSqr(Sub(hullPoints[m], point)) >= TooCloseThreshold * TooCloseThreshold
      {
        if LengthSqr(Sub(hullPoints[j], point)) < TooCloseThreshold * TooCloseThreshold {
          isTooClose := true;
          break;
        }
        j := j + 1;
      }
      assert isTooClose == TooClose(point, hullPoints);
      assert remaining[i..] == [point] + remaining[i + 1..];
      if isTooClose {
        ghost var before := remaining;
        remaining := remaining[..i] + remaining[i + 1..];
        assert remaining[i..] == before[i + 1..];
        i := i - 1;
      }
      i := i + 1;
    }
  }

  /**
    RemoveInternalPoints: the first pass drops points that lie behind faces (as
    written, see RemoveBehindFaces), the second drops points too close to a hull
    point. Either way, points are only deleted. `firstPass` is what the first
    pass leaves; when it is defined, the second pass keeps exactly its far points.
  */
  method RemoveInternalPoints(hullPoints: seq<Vec3>, hullTris: seq<Tri>, checkPoints: seq<Vec3>, plane: PlaneDistance)
    returns (remaining: seq<Vec3>, defined: bool, firstPass: seq<Vec3>)
    requires ValidMesh(hullPoints, hullTris)
    ensures IsSubsequence(firstPass, checkPoints)
    ensures defined ==> remaining == KeepFar(firstPass, hullPoints)
    ensures !defined ==> remaining == firstPass
    ensures |remaining| <= |checkPoints|
    ensures IsSubsequence(remaining, checkPoints)
    ensures forall p :: p in remaining ==> p in checkPoints
    ensures defined ==> forall p :: p in remaining ==> !TooClose(p, hullPoints)
  {
    firstPass, defined := RemoveBehindFaces(hullPoints, hullTris, checkPoints, plane);
    if !defined {
      remaining := firstPass;
    } else {
      remaining := RemoveTooClose(hullPoints, firstPass);
      KeepFarIsSubsequence(firstPass, hullPoints);
      KeepFarKeepsExactlyFar(firstPass, hullPoints);
      SubsequenceTransitive(remaining, firstPass, checkPoints);
    }
    SubsequenceMembers(remaining, checkPoints);
  }

  // ---------------------------------------------------------------------------
  // AddPoint and IsEdgeUnique

  predicate Faces(hullPoints: seq<Vec3>, t: Tri, p: Vec3, plane: PlaneDistance)
    requires ValidTri(t, |hullPoints|)
  {
    plane(hullPoints[t.a], hullPoints[t.b], hullPoints[t.c], p) > 0.0
  }

  /** The indices of the triangles that `p` lies in front of. */
  function FacingSet(hullPoints: seq<Vec3>, hullTris: seq<Tri>, p: Vec3, plane: PlaneDistance): set<int>
    requires ValidMesh(hullPoints, hullTris)
  {
    set t | 0 <= t < |hullTris| && Faces(hullPoints, hullTris[t], p, plane)
  }

  predicate StrictlyDecreasing(f: seq<int>) {
    forall k, l :: 0 <= k < l < |f| ==> f[k] > f[l]
  }

  predicate FacingValid(tris: seq<Tri>, facing: seq<int>) {
    forall k :: 0 <= k < |facing| ==> 0 <= facing[k] < |tris|
  }

  /**
    The facing triangles among hullTris[lo..], in the order AddPoint's downward
    scan collects them: largest index first.
  */
  function FacingFrom(hullPoints: seq<Vec3>, hullTris: seq<Tri>, p: Vec3, plane: PlaneDistance, lo: nat): (f: seq<int>)
    requires ValidMesh(hullPoints, hullTris) && lo <= |hullTris|
    ensures forall k :: 0 <= k < |f| ==> lo <= f[k] < |hullTris|
    ensures StrictlyDecreasing(f)
    ensures forall t :: lo <= t < |hullTris| ==> (t in f <==> Faces(hullPoints, hullTris[t], p, plane))
    decreases |hullTris| - lo
  {
    if lo == |hullTris| then []
    else FacingFrom(hullPoints, hullTris, p, plane, lo + 1) + (if Faces(hullPoints, hullTris[lo], p, plane) then [lo] else [])
  }

  /** No facing triangle other than `ignore` has an edge equal to `edge`. */
  predicate EdgeIsUnique(tris: seq<Tri>, facing: seq<int>, ignore: int, edge: Edge, eq: EdgeEquality)
    requires FacingValid(tris, facing)
  {
    forall k, e :: 0 <= k < |facing| && facing[k] != ignore && 0 <= e < 3 ==> !eq(edge, TriEdges(tris[facing[k]])[e])
  }

  method IsEdgeUnique(triangles: seq<Tri>, facing: seq<int>, ignore: int, edge: Edge, eq: EdgeEquality)
    returns (unique: bool)
    requires FacingValid(triangles, facing)
    ensures unique == EdgeIsUnique(triangles, facing, ignore, edge, eq)
  {
    var i := 0;
    while i < |facing|
      invariant 0 <= i <= |facing|
      invariant forall k, e :: 0 <= k < i && facing[k] != ignore && 0 <= e < 3 ==> !eq(edge, TriEdges(triangles[facing[k]])[e])
    {
      var triangleIndex := facing[i];
      if triangleIndex == ignore {
        i := i + 1;
        continue;
      }
      var edges := TriEdges(triangles[triangleIndex]);
      var e := 0;
      while e < 3
        invariant 0 <= e <= 3
        invariant forall e' :: 0 <= e' < e ==> !eq(edge, edges[e'])
      {
        if eq(edge, edges[e]) {
          return false;
        }
        e := e + 1;
      }
      i := i + 1;
    }
    return true;
  }

  /** The first `count` edges of triangle t that no other facing triangle shares. */
  function UniqueAmong(tris: seq<Tri>, facing: seq<int>, t: int, eq: EdgeEquality, count: nat): (r: seq<Edge>)
    requires FacingValid(tris, facing) && 0 <= t < |tris| && count <= 3
    ensures forall k :: 0 <= k < |r| ==> r[k] in TriEdges(tris[t])
  {
    if count == 0 then []
    else
      var e := TriEdges(tris[t])[count - 1];
      UniqueAmong(tris, facing, t, eq, count - 1) + (if EdgeIsUnique(tris, facing, t, e, eq) then [e] else [])
  }

  /** The silhouette: the unique edges of facing[..m], triangle by triangle, edge by edge. */
  function SilhouetteEdges(tris: seq<Tri>, facing: seq<int>, eq: EdgeEquality, m: nat): seq<Edge>
    requires FacingValid(tris, facing) && m <= |facing|
  {
    if m == 0 then [] else SilhouetteEdges(tris, facing, eq, m - 1) + UniqueAmong(tris, facing, facing[m - 1], eq, 3)
  }

  predicate EdgesWithin(es: seq<Edge>, n: int) {
    forall k :: 0 <= k < |es| ==> 0 <= es[k].a < n && 0 <= es[k].b < n
  }

  /** Silhouette edges join points of the mesh. */
  lemma {:induction false} SilhouetteEdgesValid(hullPoints: seq<Vec3>, tris: seq<Tri>, facing: seq<int>, eq: EdgeEquality, m: nat)
    requires ValidMesh(hullPoints, tris) && FacingValid(tris, facing) && m <= |facing|
    ensures EdgesWithin(SilhouetteEdges(tris, facing, eq, m), |hullPoints|)
  {
    if m > 0 {
      SilhouetteEdgesValid(hullPoints, tris, facing, eq, m - 1);
      var t := facing[m - 1];
      assert ValidTri(tris[t], |hullPoints|);
      var prev := SilhouetteEdges(tris, facing, eq, m - 1);
      var last := UniqueAmong(tris, facing, t, eq, 3);
      var es := SilhouetteEdges(tris, facing, eq, m);
      assert es == prev + last;
      forall k | 0 <= k < |es|
        ensures 0 <= es[k].a < |hullPoints| && 0 <= es[k].b < |hullPoints|
      {
        if k < |prev| {
          assert es[k] == prev[k];
        } else {
          var x := last[k - |prev|];
          assert es[k] == x;
          assert x in TriEdges(tris[t]);
          assert x == Edge(tris[t].a, tris[t].b) || x == Edge(tris[t].b, tris[t].c) || x == Edge(tris[t].c, tris[t].a);
        }
      }
    }
  }

  /** The triangles of tris[lo..] whose index is not in `removed`, in their original order. */
  function SurvivorsFrom(tris: seq<Tri>, removed: set<int>, lo: nat): seq<Tri>
    requires lo <= |tris|
    decreases |tris| - lo
  {
    if lo == |tris| then []
    else (if lo in removed then [] else [tris[lo]]) + SurvivorsFrom(tris, removed, lo + 1)
  }

  lemma {:induction false} SurvivorsPrefix(tris: seq<Tri>, removed: set<int>, lo: nat, m: nat)
    requires lo <= m <= |tris|
    requires forall r :: r in removed ==> r < lo || r >= m
    ensures SurvivorsFrom(tris, removed, lo) == tris[lo..m] + SurvivorsFrom(tris, removed, m)
    decreases m - lo
  {
    if lo < m {
      assert lo !in removed;
      SurvivorsPrefix(tris, removed, lo + 1, m);
      assert SurvivorsFrom(tris, removed, lo) == [tris[lo]] + SurvivorsFrom(tris, removed, lo + 1);
      assert tris[lo..m] == [tris[lo]] + tris[lo + 1..m];
    }
  }

  lemma {:induction false} SurvivorsAgree(tris: seq<Tri>, r1: set<int>, r2: set<int>, lo: nat)
    requires lo <= |tris|
    requires forall k :: lo <= k < |tris| ==> (k in r1 <==> k in r2)
    ensures SurvivorsFrom(tris, r1, lo) == SurvivorsFrom(tris, r2, lo)
    decreases |tris| - lo
  {
    if lo < |tris| {
      SurvivorsAgree(tris, r1, r2, lo + 1);
    }
  }

  /** Survivors are triangles of the original list. */
  lemma {:induction false} SurvivorsComeFrom(tris: seq<Tri>, removed: set<int>, lo: nat)
    requires lo <= |tris|
    ensures forall x :: x in SurvivorsFrom(tris, removed, lo) ==> x in tris[lo..]
    decreases |tris| - lo
  {
    if lo < |tris| {
      SurvivorsComeFrom(tris, removed, lo + 1);
      assert tris[lo..] == [tris[lo]] + tris[lo + 1..];
    }
  }

  lemma DeleteMiddle<T>(a: seq<T>, x: T, b: seq<T>)
    ensures var c := a + [x] + b;
            |a| < |c| && c[..|a|] + c[|a| + 1..] == a + b
  {
    var c := a + [x] + b;
    assert c[..|a|] == a;
    assert c[|a| + 1..] == b;
  }

  /**
    Erasing position f of the survivors, when every index removed so far is
    larger than f, removes exactly triangle f: erasing the facing triangles
    largest index first deletes the facing triangles and nothing else.
  */
  lemma EraseSurvivor(tris: seq<Tri>, removed: set<int>, f: int)
    requires 0 <= f < |tris| && forall r :: r in removed ==> r > f
    ensures var cur := SurvivorsFrom(tris, removed, 0);
            f < |cur| && cur[..f] + cur[f + 1..] == SurvivorsFrom(tris, removed + {f}, 0)
  {
    var cur := SurvivorsFrom(tris, removed, 0);
    var rest := SurvivorsFrom(tris, removed, f + 1);
    var front := tris[0..f];
    SurvivorsPrefix(tris, removed, 0, f);
    assert SurvivorsFrom(tris, removed, f) == [tris[f]] + rest;
    assert cur == front + [tris[f]] + rest;
    DeleteMiddle(front, tris[f], rest);
    SurvivorsPrefix(tris, removed + {f}, 0, f);
    SurvivorsAgree(tris, removed, removed + {f}, f + 1);
    assert SurvivorsFrom(tris, removed + {f}, f) == rest;
  }

  /** One new triangle (edge.a, edge.b, apex) per silhouette edge. */
  function Fan(edges: seq<Edge>, apex: int): seq<Tri> {
    seq(|edges|, k requires 0 <= k < |edges| => Tri(edges[k].a, edges[k].b, apex))
  }

  /** AddPoint's first loop: scan the triangles from the last down and collect those `point` faces. */
  method CollectFacing(hullPoints: seq<Vec3>, hullTris: seq<Tri>, point: Vec3, plane: PlaneDistance)
    returns (facing: seq<int>)
    requires ValidMesh(hullPoints, hullTris)
    ensures facing == FacingFrom(hullPoints, hullTris, point, plane, 0)
  {
    facing := [];
    var i := |hullTris| - 1;
    while i >= 0
      invariant -1 <= i < |hullTris|
      invariant facing == FacingFrom(hullPoints, hullTris, point, plane, i + 1)
    {
      var t := hullTris[i];
      var dist := plane(hullPoints[t.a], hullPoints[t.b], hullPoints[t.c], point);
      if dist > 0.0 {
        facing := facing + [i];
      }
      i := i - 1;
    }
  }

  /** AddPoint's second loop: the unique edges of the facing triangles. */
  method CollectSilhouette(hullTris: seq<Tri>, facing: seq<int>, eq: EdgeEquality) returns (uniqueEdges: seq<Edge>)
    requires FacingValid(hullTris, facing)
    ensures uniqueEdges == SilhouetteEdges(hullTris, facing, eq, |facing|)
  {
    uniqueEdges := [];
    var i := 0;
    while i < |facing|
      invariant 0 <= i <= |facing|
      invariant uniqueEdges == SilhouetteEdges(hullTris, facing, eq, i)
    {
      var found := UniqueEdgesOf(hullTris, facing, facing[i], eq);
      uniqueEdges := uniqueEdges + found;
      i := i + 1;
    }
  }

  /** The body of AddPoint's second loop: the edges of one facing triangle that IsEdgeUnique accepts. */
  method UniqueEdgesOf(hullTris: seq<Tri>, facing: seq<int>, triangleIndex: int, eq: EdgeEquality) returns (found: seq<Edge>)
    requires FacingValid(hullTris, facing) && 0 <= triangleIndex < |hullTris|
    ensures found == UniqueAmong(hullTris, facing, triangleIndex, eq, 3)
  {
    var edges := TriEdges(hullTris[triangleIndex]);
    found := [];
    var e := 0;
    while e < 3
      invariant 0 <= e <= 3
      invariant found == UniqueAmong(hullTris, facing, triangleIndex, eq, e)
    {
      var unique := IsEdgeUnique(hullTris, facing, triangleIndex, edges[e], eq);
      if unique {
        found := found + [edges[e]];
      }
      e := e + 1;
    }
  }

  /** AddPoint's third loop: erase the facing triangles, largest index first. */
  method EraseFacing(hullTris: seq<Tri>, facing: seq<int>) returns (newTris: seq<Tri>)
    requires FacingValid(hullTris, facing) && StrictlyDecreasing(facing)
    ensures newTris == SurvivorsFrom(hullTris, set k | 0 <= k < |facing| :: facing[k], 0)
    ensures |newTris| == |hullTris| - |facing|
  {
    newTris := hullTris;
    SurvivorsPrefix(hullTris, {}, 0, |hullTris|);
    ghost var removed: set<int> := {};
    var i := 0;
    while i < |facing|
      invariant 0 <= i <= |facing|
      invariant removed == set k | 0 <= k < i :: facing[k]
      invariant newTris == SurvivorsFrom(hullTris, removed, 0)
      invariant |newTris| == |hullTris| - i
    {
      EraseSurvivor(hullTris, removed, facing[i]);
      newTris := newTris[..facing[i]] + newTris[facing[i] + 1..];
      removed := removed + {facing[i]};
      i := i + 1;
    }
  }

  /**
    AddPoint: the triangles `point` lies in front of are erased, the point is
    appended, and each edge of the silhouette (an edge of a facing triangle that
    no other facing triangle shares) becomes a triangle with the new point.
  */
  method AddPoint(hullPoints: seq<Vec3>, hullTris: seq<Tri>, point: Vec3, plane: PlaneDistance, eq: EdgeEquality)
    returns (newPoints: seq<Vec3>, newTris: seq<Tri>)
    requires ValidMesh(hullPoints, hullTris)
    ensures newPoints == hullPoints + [point]
    ensures var facing := FacingFrom(hullPoints, hullTris, point, plane, 0);
            var silhouette := SilhouetteEdges(hullTris, facing, eq, |facing|);
            && newTris == SurvivorsFrom(hullTris, FacingSet(hullPoints, hullTris, point, plane), 0) + Fan(silhouette, |hullPoints|)
            && |newTris| == |hullTris| - |facing| + |silhouette|
    ensures ValidMesh(newPoints, newTris)
  {
    var facing := CollectFacing(hullPoints, hullTris, point, plane);
    var uniqueEdges := CollectSilhouette(hullTris, facing, eq);
    newTris := EraseFacing(hullTris, facing);
    ghost var removed := set k | 0 <= k < |facing| :: facing[k];
    assert removed == FacingSet(hullPoints, hullTris, point, plane) by {
      assert forall t :: t in removed <==> t in facing;
    }
    newPoints := hullPoints + [point];
    var newPointIndex := |newPoints| - 1;
    newTris := AppendFan(newTris, uniqueEdges, newPointIndex);
    SilhouetteEdgesValid(hullPoints, hullTris, facing, eq, |facing|);
    FanKeepsMeshValid(hullPoints, hullTris, removed, uniqueEdges, point);
  }

  /** AddPoint's last loop: one triangle per silhouette edge, closed by the new point. */
  method AppendFan(tris: seq<Tri>, edges: seq<Edge>, apex: int) returns (newTris: seq<Tri>)
    ensures newTris == tris + Fan(edges, apex)
  {
    newTris := tris;
    var i := 0;
    while i < |edges|
      invariant 0 <= i <= |edges|
      invariant newTris == tris + Fan(edges[..i], apex)
    {
      var edge := edges[i];
      newTris := newTris + [Tri(edge.a, edge.b, apex)];
      i := i + 1;
    }
    assert edges[..i] == edges;
  }

  /** Surviving triangles plus a fan over edges between existing points index the extended point list. */
  lemma FanKeepsMeshValid(hullPoints: seq<Vec3>, hullTris: seq<Tri>, removed: set<int>, edges: seq<Edge>, point: Vec3)
    requires ValidMesh(hullPoints, hullTris) && EdgesWithin(edges, |hullPoints|)
    ensures ValidMesh(hullPoints + [point], SurvivorsFrom(hullTris, removed, 0) + Fan(edges, |hullPoints|))
  {
    var survivors := SurvivorsFrom(hullTris, removed, 0);
    var newTris := survivors + Fan(edges, |hullPoints|);
    SurvivorsComeFrom(hullTris, removed, 0);
    forall k | 0 <= k < |newTris|
      ensures ValidTri(newTris[k], |hullPoints| + 1)
    {
      if k < |survivors| {
        assert survivors[k] in hullTris[0..];
      } else {
        assert newTris[k] == Fan(edges, |hullPoints|)[k - |survivors|];
      }
    }
  }

  // ---------------------------------------------------------------------------
  // RemoveUnreferencedVertices

  predicate References(t: Tri, v: int) {
    t.a == v || t.b == v || t.c == v
  }

  predicate IsReferenced(tris: seq<Tri>, v: int) {
    exists k :: 0 <= k < |tris| && References(tris[k], v)
  }

  /** Every point of the hull is a corner of some triangle. */
  predicate AllReferenced(points: seq<Vec3>, tris: seq<Tri>) {
    forall v :: 0 <= v < |points| ==> IsReferenced(tris, v)
  }

  /** A triangle with every index above `bound` lowered by one. */
  function DecrementAbove(t: Tri, bound: int): Tri {
    Tri(if t.a > bound then t.a - 1 else t.a,
        if t.b > bound then t.b - 1 else t.b,
        if t.c > bound then t.c - 1 else t.c)
  }

  /**
    The triangles after the correction loop: triangle t renumbered against
    pointIndex - t. Every index above the erased point is one lower in every
    triangle; in triangle t the indices at or below pointIndex - t are kept.
  */
  function Renumbered(tris: seq<Tri>, pointIndex: int): (r: seq<Tri>)
    ensures |r| == |tris|
    ensures forall t :: 0 <= t < |tris| ==>
              && (tris[t].a > pointIndex ==> r[t].a == tris[t].a - 1)
              && (tris[t].b > pointIndex ==> r[t].b == tris[t].b - 1)
              && (tris[t].c > pointIndex ==> r[t].c == tris[t].c - 1)
              && (tris[t].a <= pointIndex - t ==> r[t].a == tris[t].a)
              && (tris[t].b <= pointIndex - t ==> r[t].b == tris[t].b)
              && (tris[t].c <= pointIndex - t ==> r[t].c == tris[t].c)
  {
    seq(|tris|, t requires 0 <= t < |tris| => DecrementAbove(tris[t], pointIndex - t))
  }

  /**
    The correction loop of RemoveUnreferencedVertices for an unreferenced
    point, as written: the erase and the decrement of point_index sit inside the
    loop over triangles, so triangle t is renumbered against point_index - t and
    one point is erased per triangle. Once the index has dropped below zero
    the erase lies before the vector's first element, which has no defined
    meaning: the model stops there with defined == false.
  */
  method DropVertex(points: seq<Vec3>, tris: seq<Tri>, pointIndex: int)
    returns (newPoints: seq<Vec3>, newTris: seq<Tri>, nextIndex: int, defined: bool)
    requires 0 <= pointIndex < |points|
    ensures |newTris| == |tris|
    ensures defined <==> |tris| <= pointIndex + 1
    ensures defined ==> newPoints == points[..pointIndex + 1 - |tris|] + points[pointIndex + 1..]
    ensures !defined ==> newPoints == points[pointIndex + 1..]
    ensures |tris| == 0 ==> newPoints == points && newTris == tris
    ensures defined ==> nextIndex == pointIndex - |tris|
    ensures defined ==> newTris == Renumbered(tris, pointIndex)
  {
    newPoints, newTris := points, tris;
    var p := pointIndex;
    nextIndex := p;
    var t := 0;
    while t < |newTris|
      invariant 0 <= t <= |tris| && p == pointIndex - t && p >= -1
      invariant |newTris| == |tris|
      invariant forall s :: 0 <= s < t ==> newTris[s] == DecrementAbove(tris[s], pointIndex - s)
      invariant forall s :: t <= s < |tris| ==> newTris[s] == tris[s]
      invariant newPoints == points[..pointIndex + 1 - t] + points[pointIndex + 1..]
    {
      newTris := newTris[t := DecrementAbove(newTris[t], p)];
      if p < 0 {
        defined := false;
        return;
      }
      newPoints := newPoints[..p] + newPoints[p + 1..];
      p := p - 1;
      t := t + 1;
    }
    defined := true;
    nextIndex := p;
  }

  /** The first inner loop of RemoveUnreferencedVertices: does some triangle use point v? */
  method IsUsed(tris: seq<Tri>, v: int) returns (isUsed: bool)
    ensures isUsed == IsReferenced(tris, v)
  {
    isUsed := false;
    var t := 0;
    while t < |tris|
      invariant 0 <= t <= |tris|
      invariant forall s :: 0 <= s < t ==> !References(tris[s], v)
    {
      if References(tris[t], v) {
        return true;
      }
      t := t + 1;
    }
  }

  /**
    RemoveUnreferencedVertices, as written. It changes nothing exactly when
    every point is referenced (given at least one triangle), it never changes
    the number of triangles, and points are only deleted.
  */
  method RemoveUnreferencedVertices(hullPoints: seq<Vec3>, hullTris: seq<Tri>)
    returns (newPoints: seq<Vec3>, newTris: seq<Tri>, defined: bool)
    ensures |newTris| == |hullTris|
    ensures IsSubsequence(newPoints, hullPoints)
    ensures AllReferenced(hullPoints, hullTris) ==> newPoints == hullPoints && newTris == hullTris && defined
    ensures |hullTris| > 0 && !AllReferenced(hullPoints, hullTris) ==> !defined || |newPoints| < |hullPoints|
  {
    newPoints, newTris := hullPoints, hullTris;
    SubsequenceReflexive(hullPoints);
    ghost var changed := false;
    ghost var missing := 0;
    defined := true;
    var pointIndex: int := 0;
    while pointIndex < |newPoints|
      invariant 0 <= pointIndex <= |newPoints| <= |hullPoints|
      invariant |newTris| == |hullTris|
      invariant IsSubsequence(newPoints, hullPoints)
      invariant !changed ==> newPoints == hullPoints && newTris == hullTris
      invariant changed ==> |newPoints| < |hullPoints| && 0 <= missing < |hullPoints| && !IsReferenced(hullTris, missing)
      invariant !changed && |hullTris| > 0 ==> forall v :: 0 <= v < pointIndex ==> IsReferenced(hullTris, v)
      decreases |newPoints| - pointIndex
    {
      var isUsed := IsUsed(newTris, pointIndex);
      if isUsed {
        pointIndex := pointIndex + 1;
        continue;
      }
      if !changed {
        missing := pointIndex;
      }
      assert 0 <= missing < |hullPoints| && !IsReferenced(hullTris, missing);
      ghost var before := newPoints;
      var ok;
      var next;
      newPoints, newTris, next, ok := DropVertex(newPoints, newTris, pointIndex);
      if !ok {
        EraseRangeIsSubsequence(before, 0, pointIndex + 1);
        assert newPoints == before[..0] + before[pointIndex + 1..];
        SubsequenceTransitive(newPoints, before, hullPoints);
        defined := false;
        return;
      }
      EraseRangeIsSubsequence(before, pointIndex + 1 - |hullTris|, pointIndex + 1);
      SubsequenceTransitive(newPoints, before, hullPoints);
      changed := changed || |hullTris| > 0;
      pointIndex := next + 1;
    }
    if !changed && |hullTris| > 0 {
      assert AllReferenced(hullPoints, hullTris);
    }
  }

  // ---------------------------------------------------------------------------
  // ExpandConvexHull and BuildConvexHull

  /**
    ExpandConvexHull: prune the candidates, then repeatedly add the candidate
    furthest along the first remaining one and prune again, and finally drop
    unreferenced points. The hull only ever takes points from the old hull and
    the candidates.
  */
  method ExpandConvexHull(hullPoints: seq<Vec3>, hullTris: seq<Tri>, vertices: seq<Vec3>,
                          plane: PlaneDistance, eq: EdgeEquality)
    returns (newPoints: seq<Vec3>, newTris: seq<Tri>, defined: bool)
    requires ValidMesh(hullPoints, hullTris)
    ensures forall p :: p in newPoints ==> p in hullPoints || p in vertices
  {
    var external, ok, _ := RemoveInternalPoints(hullPoints, hullTris, vertices, plane);
    newPoints, newTris := hullPoints, hullTris;
    if !ok {
      defined := false;
      return;
    }
    while |external| > 0
      invariant ValidMesh(newPoints, newTris)
      invariant forall p :: p in newPoints ==> p in hullPoints || p in vertices
      invariant forall p :: p in external ==> p in vertices
      decreases |external|
    {
      var furthestIndex := FindPointFurthestInDir(external, external[0]);
      var furthest := external[furthestIndex];
      assert furthest in vertices;
      external := external[..furthestIndex] + external[furthestIndex + 1..];
      newPoints, newTris := AddPoint(newPoints, newTris, furthest, plane, eq);
      var firstPass;
      external, ok, firstPass := RemoveInternalPoints(newPoints, newTris, external, plane);
      if !ok {
        defined := false;
        return;
      }
    }
    var compacted;
    compacted, newTris, defined := RemoveUnreferencedVertices(newPoints, newTris);
    SubsequenceMembers(compacted, newPoints);
    newPoints := compacted;
  }

  /**
    BuildConvexHull: fewer than four vertices leave the outputs untouched;
    otherwise the hull is seeded with a tetrahedron and expanded over all
    vertices, so every hull point is one of the vertices.
  */
  method BuildConvexHull(verts: seq<Vec3>, hullPts: seq<Vec3>, hullTris: seq<Tri>,
                         line: LineDistance, plane: PlaneDistance, eq: EdgeEquality)
    returns (outPts: seq<Vec3>, outTris: seq<Tri>, defined: bool)
    ensures |verts| < 4 ==> outPts == hullPts && outTris == hullTris && defined
    ensures |verts| >= 4 ==> forall p :: p in outPts ==> p in verts
  {
    if |verts| < 4 {
      return hullPts, hullTris, true;
    }
    var tetraPts, tetraTris := BuildTetrahedron(verts, line, plane);
    outPts, outTris, defined := ExpandConvexHull(tetraPts, tetraTris, verts, plane, eq);
  }
}
