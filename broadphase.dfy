/**
  Sweep and prune along one axis. Every body becomes an interval on the axis
  (its bounds swept by its velocity and padded), laid out as a min event and a
  max event, sorted by value and scanned for overlapping starts.
*/
module Broadphase {
  import opened Vectors
  import opened Shapes
  import opened Bodies

  /** pseudoBody_t: one end of a body's interval on the sweep axis. */
  datatype PseudoBody = PseudoBody(id: int, value: real, isMin: bool)

  /** collisionPair_t: two body indices that may be in contact. */
  datatype CollisionPair = CollisionPair(a: int, b: int)

  /** A body's projected interval on the sweep axis. */
  datatype Interval = Interval(lo: real, hi: real)

  /** Shape::GetBounds(position, orientation) of a body's shape. */
  type BoundsOracle = (ShapeRef, Vec3, Quat) -> Bounds

  /** The padding added on every side of the swept bounds. */
  const Epsilon: real := 0.01

  /** Expand the bounds by the motion over dt: first by the moved min corner, then by the moved (updated) max corner. */
  function SweptBounds(b: Bounds, v: Vec3, dt: real): (r: Bounds)
    ensures Encloses(r, b)
    ensures Contains(r, Add(b.mins, Scale(v, dt)))
    ensures IsProper(b) ==> Contains(r, Add(b.maxs, Scale(v, dt)))
  {
    var d := Scale(v, dt);
    var b1 := Expand(b, Add(b.mins, d));
    Expand(b1, Add(b1.maxs, d))
  }

  /** Every axis of the box has a strictly positive extent. */
  predicate StrictlyProper(b: Bounds) {
    b.mins.x < b.maxs.x && b.mins.y < b.maxs.y && b.mins.z < b.maxs.z
  }

  /**
    Pad the bounds by Epsilon: expand by the min corner moved by −Epsilon on
    every axis, then by the (updated) max corner moved by +Epsilon. The result
    reaches Epsilon beyond the min corner and strictly beyond the max corner on
    every axis, whatever bounds it starts from.
  */
  function PaddedBounds(b: Bounds): (r: Bounds)
    ensures Encloses(r, b)
    ensures LessEq(r.mins, Add(b.mins, Scale(Vec3(-1.0, -1.0, -1.0), Epsilon)))
    ensures LessEq(Add(b.maxs, Scale(Vec3(1.0, 1.0, 1.0), Epsilon)), r.maxs)
    ensures StrictlyProper(r)
  {
    var b1 := Expand(b, Add(b.mins, Scale(Vec3(-1.0, -1.0, -1.0), Epsilon)));
    Expand(b1, Add(b1.maxs, Scale(Vec3(1.0, 1.0, 1.0), Epsilon)))
  }

  /** The normalised (1, 1, 1): all three components are the same positive number. */
  predicate IsDiagonalAxis(axis: Vec3) {
    axis.x == axis.y == axis.z && axis.x > 0.0
  }

  /** Projecting a box with positive extent onto the diagonal axis gives min strictly below max. */
  lemma ProjectionOrdered(axis: Vec3, b: Bounds)
    requires IsDiagonalAxis(axis) && StrictlyProper(b)
    ensures Dot(axis, b.mins) < Dot(axis, b.maxs)
  {
    var k := axis.x;
    assert Dot(axis, b.mins) == k * (b.mins.x + b.mins.y + b.mins.z);
    assert Dot(axis, b.maxs) == k * (b.maxs.x + b.maxs.y + b.maxs.z);
    assert k * ((b.maxs.x + b.maxs.y + b.maxs.z) - (b.mins.x + b.mins.y + b.mins.z)) > 0.0;
  }

  /** The fields of a body that the sweep reads: its shape, placement and linear velocity. */
  datatype Motion = Motion(shape: ShapeRef, position: Vec3, orientation: Quat, linearVelocity: Vec3)

  function MotionOf(body: Body): Motion
    reads body
  {
    Motion(body.shape, body.position, body.orientation, body.linearVelocity)
  }

  /** The motions of all bodies, in body order. */
  function Motions(bodies: seq<Body>): (r: seq<Motion>)
    reads bodies
    ensures |r| == |bodies| && forall i :: 0 <= i < |bodies| ==> r[i] == MotionOf(bodies[i])
  {
    seq(|bodies|, i reads bodies requires 0 <= i < |bodies| => MotionOf(bodies[i]))
  }

  /**
    Broadphase.cpp lines 27-44 for one body: its bounds swept by its velocity,
    padded and projected on the axis; the interval is never empty.
  */
  function BodyInterval(m: Motion, axis: Vec3, dt: real, getBounds: BoundsOracle): (iv: Interval)
    requires IsDiagonalAxis(axis)
    ensures iv.lo < iv.hi
  {
    var bounds := getBounds(m.shape, m.position, m.orientation);
    var padded := PaddedBounds(SweptBounds(bounds, m.linearVelocity, dt));
    ProjectionOrdered(axis, padded);
    Interval(Dot(axis, padded.mins), Dot(axis, padded.maxs))
  }

  /** The intervals of all bodies, in body order. */
  function Intervals(ms: seq<Motion>, axis: Vec3, dt: real, getBounds: BoundsOracle): (r: seq<Interval>)
    requires IsDiagonalAxis(axis)
    ensures |r| == |ms|
    ensures forall i :: 0 <= i < |ms| ==> r[i] == BodyInterval(ms[i], axis, dt, getBounds) && r[i].lo < r[i].hi
  {
    seq(|ms|, i requires 0 <= i < |ms| => BodyInterval(ms[i], axis, dt, getBounds))
  }

  /** The min (isMin) or max event of body i. */
  function EventOf(iv: seq<Interval>, i: nat, isMin: bool): PseudoBody
    requires i < |iv|
  {
    PseudoBody(i, if isMin then iv[i].lo else iv[i].hi, isMin)
  }

  /** The unsorted event array: slot 2i holds body i's min event and slot 2i+1 its max event. */
  function Events(iv: seq<Interval>): (r: seq<PseudoBody>)
    ensures |r| == 2 * |iv|
    ensures forall i :: 0 <= i < |iv| ==> r[2 * i] == EventOf(iv, i, true) && r[2 * i + 1] == EventOf(iv, i, false)
  {
    seq(2 * |iv|, p requires 0 <= p < 2 * |iv| => EventOf(iv, p / 2, p % 2 == 0))
  }

  predicate SortedByValue(s: seq<PseudoBody>) {
    forall p, q :: 0 <= p < q < |s| ==> s[p].value <= s[q].value
  }

  /** The layout grows two slots per body: body i's min event, then its max event. */
  lemma EventsPrefixStep(s: seq<PseudoBody>, iv: seq<Interval>, i: nat)
    requires i < |iv| && |s| == 2 * |iv|
    requires s[..2 * i] == Events(iv)[..2 * i]
    requires s[2 * i] == EventOf(iv, i, true) && s[2 * i + 1] == EventOf(iv, i, false)
    ensures s[..2 * i + 2] == Events(iv)[..2 * i + 2]
  {
    assert s[..2 * i + 2] == s[..2 * i] + [s[2 * i], s[2 * i + 1]];
    assert Events(iv)[..2 * i + 2] == Events(iv)[..2 * i] + [EventOf(iv, i, true), EventOf(iv, i, false)];
  }

  /**
    The first half of SortBodiesBounds: fill the event array slot by slot.
    Afterwards it holds exactly the layout Events describes.
  */
  method FillEvents(bodies: seq<Body>, sortedArray: array<PseudoBody>, dt: real, axis: Vec3, getBounds: BoundsOracle)
    requires IsDiagonalAxis(axis)
    requires sortedArray.Length == 2 * |bodies|
    modifies sortedArray
    ensures sortedArray[..] == Events(old(Intervals(Motions(bodies), axis, dt, getBounds)))
  {
    ghost var ms := Motions(bodies);
    ghost var iv := Intervals(ms, axis, dt, getBounds);
    var i := 0;
    while i < |bodies|
      invariant 0 <= i <= |bodies|
      invariant sortedArray[..2 * i] == Events(iv)[..2 * i]
    {
      var motion := MotionOf(bodies[i]);
      assert motion == ms[i];
      var interval := BodyInterval(motion, axis, dt, getBounds);
      assert interval == iv[i];
      ghost var before := sortedArray[..2 * i];
      sortedArray[2 * i] := PseudoBody(i, interval.lo, true);
      sortedArray[2 * i + 1] := PseudoBody(i, interval.hi, false);
      assert sortedArray[..2 * i] == before;
      EventsPrefixStep(sortedArray[..], iv, i);
      i := i + 1;
    }
    assert sortedArray[..] == sortedArray[..2 * i];
  }

  /** The first n events are in non-decreasing order of value. */
  ghost predicate SortedPrefix(s: seq<PseudoBody>, n: int) {
    forall p, q :: 0 <= p < q < n && q < |s| ==> s[p].value <= s[q].value
  }

  /** The events up to slot n are in order, except that slot j may be out of place with those before it. */
  ghost predicate SortedExcept(s: seq<PseudoBody>, n: int, j: int) {
    forall p, q :: 0 <= p < q <= n && q < |s| && q != j ==> s[p].value <= s[q].value
  }

  /** Swapping slot j, which is below its left neighbour, with that neighbour moves the gap one slot left. */
  lemma SwapStep(s: seq<PseudoBody>, n: nat, j: nat)
    requires 0 < j <= n < |s| && SortedExcept(s, n, j) && s[j - 1].value > s[j].value
    ensures SortedExcept(s[j - 1 := s[j]][j := s[j - 1]], n, j - 1)
  {
    var t := s[j - 1 := s[j]][j := s[j - 1]];
    forall p, q | 0 <= p < q <= n && q != j - 1
      ensures t[p].value <= t[q].value
    {
      if q == j && p < j - 1 {
        assert t[p] == s[p] && t[q] == s[j - 1];
      } else if q > j && p == j - 1 {
        assert t[p] == s[j];
      } else if q > j && p == j {
        assert t[p] == s[j - 1];
      }
    }
  }

  /** Once slot j is not below its left neighbour, the first n + 1 events are in order. */
  lemma SettledOrder(s: seq<PseudoBody>, n: nat, j: nat)
    requires j <= n < |s| && SortedExcept(s, n, j) && (j == 0 || s[j - 1].value <= s[j].value)
    ensures SortedPrefix(s, n + 1)
  {
    forall p, q | 0 <= p < q <= n
      ensures s[p].value <= s[q].value
    {
      if q == j && p < j - 1 {
        assert s[p].value <= s[j - 1].value;
      }
    }
  }

  /** One step of the insertion sort: move a[i] down into the sorted prefix a[..i]. */
  method InsertLast(a: array<PseudoBody>, i: nat)
    requires i < a.Length && SortedPrefix(a[..], i)
    modifies a
    ensures SortedPrefix(a[..], i + 1)
    ensures multiset(a[..]) == multiset(old(a[..]))
  {
    var j := i;
    while j > 0 && a[j - 1].value > a[j].value
      invariant 0 <= j <= i
      invariant SortedExcept(a[..], i, j)
      invariant multiset(a[..]) == multiset(old(a[..]))
    {
      ghost var before := a[..];
      SwapStep(before, i, j);
      a[j - 1], a[j] := a[j], a[j - 1];
      assert a[..] == before[j - 1 := before[j]][j := before[j - 1]];
      j := j - 1;
    }
    SettledOrder(a[..], i, j);
  }

  /**
    The qsort at line 48, as an insertion sort: the array ends up ordered by
    value and holds the same events as before.
  */
  method SortEvents(a: array<PseudoBody>)
    modifies a
    ensures SortedByValue(a[..])
    ensures multiset(a[..]) == multiset(old(a[..]))
  {
    var i := 0;
    while i < a.Length
      invariant 0 <= i <= a.Length
      invariant SortedPrefix(a[..], i)
      invariant multiset(a[..]) == multiset(old(a[..]))
    {
      InsertLast(a, i);
      i := i + 1;
    }
  }

  /**
    The pairs the inner scan emits for the min event at i, looking from slot j
    on: every later min event up to the anchor's own other event (or the end).
  */
  function Scan(s: seq<PseudoBody>, i: nat, j: nat): seq<CollisionPair>
    requires i < |s| && i < j <= |s|
    decreases |s| - j
  {
    if j == |s| || s[j].id == s[i].id then []
    else (if s[j].isMin then [CollisionPair(s[i].id, s[j].id)] else []) + Scan(s, i, j + 1)
  }

  /** The pairs the outer scan emits from slot i on: Scan for each min event, in order. */
  function PairsFrom(s: seq<PseudoBody>, i: nat): seq<CollisionPair>
    requires i <= |s|
    decreases |s| - i
  {
    if i == |s| then []
    else (if s[i].isMin then Scan(s, i, i + 1) else []) + PairsFrom(s, i + 1)
  }

  /** The inner loop of BuildPairs for the min event at slot i: it appends exactly Scan(s, i, i + 1). */
  method ScanAnchor(sortedBodies: array<PseudoBody>, num: nat, i: nat, pairs: seq<CollisionPair>)
    returns (collisionPairs: seq<CollisionPair>)
    requires i < 2 * num <= sortedBodies.Length
    ensures collisionPairs == pairs + Scan(sortedBodies[..2 * num], i, i + 1)
  {
    ghost var s := sortedBodies[..2 * num];
    var a := sortedBodies[i];
    collisionPairs := pairs;
    var j := i + 1;
    while j < 2 * num
      invariant i < j <= 2 * num
      invariant collisionPairs + Scan(s, i, j) == pairs + Scan(s, i, i + 1)
    {
      var b := sortedBodies[j];
      assert a == s[i] && b == s[j];
      if b.id == a.id {
        break;
      }
      if !b.isMin {
        j := j + 1;
        continue;
      }
      collisionPairs := collisionPairs + [CollisionPair(a.id, b.id)];
      j := j + 1;
    }
    assert Scan(s, i, j) == [];
  }

  /** One turn of the outer loop: appending slot i's scan moves the split point of PairsFrom(s, 0) on by one. */
  lemma {:induction false} PairsStep(s: seq<PseudoBody>, i: nat, before: seq<CollisionPair>, after: seq<CollisionPair>)
    requires i < |s| && before + PairsFrom(s, i) == PairsFrom(s, 0)
    requires after == before + (if s[i].isMin then Scan(s, i, i + 1) else [])
    ensures after + PairsFrom(s, i + 1) == PairsFrom(s, 0)
  {
    var head := if s[i].isMin then Scan(s, i, i + 1) else [];
    var rest := PairsFrom(s, i + 1);
    assert PairsFrom(s, i) == head + rest;
    AppendShift(before, head, rest, PairsFrom(s, 0));
  }

  lemma AppendShift<T>(before: seq<T>, head: seq<T>, rest: seq<T>, total: seq<T>)
    requires before + (head + rest) == total
    ensures (before + head) + rest == total
  {
  }

  /**
    BuildPairs: clear the output, then for every min event collect the min
    events after it up to its own max event. The result is PairsFrom over the
    first 2·num events, and no body is ever paired with itself.
  */
  method BuildPairs(sortedBodies: array<PseudoBody>, num: nat) returns (collisionPairs: seq<CollisionPair>)
    requires sortedBodies.Length >= 2 * num
    ensures collisionPairs == PairsFrom(sortedBodies[..2 * num], 0)
    ensures forall p :: p in collisionPairs ==> p.a != p.b
  {
    ghost var s := sortedBodies[..2 * num];
    collisionPairs := [];
    var i := 0;
    while i < 2 * num
      invariant 0 <= i <= 2 * num
      invariant collisionPairs + PairsFrom(s, i) == PairsFrom(s, 0)
    {
      var a := sortedBodies[i];
      assert a == s[i];
      ghost var before := collisionPairs;
      if a.isMin {
        collisionPairs := ScanAnchor(sortedBodies, num, i, collisionPairs);
      }
      PairsStep(s, i, before, collisionPairs);
      i := i + 1;
    }
    PairsIrreflexive(s);
  }

  /**
    The scan emits (s[x].id, s[y].id) for min events x < y exactly when no
    slot after x up to y belongs to body s[x].id.
  */
  ghost predicate Emits(s: seq<PseudoBody>, x: int, y: int) {
    0 <= x < y < |s| && s[x].isMin && s[y].isMin && forall k :: x < k <= y ==> s[k].id != s[x].id
  }

  lemma {:induction false} ScanCharacterised(s: seq<PseudoBody>, i: nat, j: nat)
    requires i < |s| && i < j <= |s|
    requires s[i].isMin && forall k :: i < k < j ==> s[k].id != s[i].id
    ensures forall p :: p in Scan(s, i, j) <==>
              exists y :: j <= y < |s| && Emits(s, i, y) && p == CollisionPair(s[i].id, s[y].id)
    decreases |s| - j
  {
    if j < |s| && s[j].id != s[i].id {
      ScanCharacterised(s, i, j + 1);
      var head := if s[j].isMin then [CollisionPair(s[i].id, s[j].id)] else [];
      var rest := Scan(s, i, j + 1);
      assert Scan(s, i, j) == head + rest;
      forall p | p in Scan(s, i, j)
        ensures exists y :: j <= y < |s| && Emits(s, i, y) && p == CollisionPair(s[i].id, s[y].id)
      {
        if p in head {
          assert Emits(s, i, j);
        }
      }
      forall p, y | j <= y < |s| && Emits(s, i, y) && p == CollisionPair(s[i].id, s[y].id)
        ensures p in Scan(s, i, j)
      {
        if y > j {
          assert p in rest;
        } else {
          assert p in head;
        }
      }
    } else {
      forall y | j <= y < |s|
        ensures !Emits(s, i, y)
      {
        assert s[j].id == s[i].id;
      }
    }
  }

  /** A pair is emitted from slot i on exactly when some x < y from slot i on satisfy Emits. */
  lemma {:induction false} PairsCharacterised(s: seq<PseudoBody>, i: nat)
    requires i <= |s|
    ensures forall p :: p in PairsFrom(s, i) <==>
              exists x, y :: i <= x && Emits(s, x, y) && p == CollisionPair(s[x].id, s[y].id)
    decreases |s| - i
  {
    if i < |s| {
      PairsCharacterised(s, i + 1);
      var head := if s[i].isMin then Scan(s, i, i + 1) else [];
      var rest := PairsFrom(s, i + 1);
      assert PairsFrom(s, i) == head + rest;
      if s[i].isMin {
        ScanCharacterised(s, i, i + 1);
      }
      forall p | p in PairsFrom(s, i)
        ensures exists x, y :: i <= x && Emits(s, x, y) && p == CollisionPair(s[x].id, s[y].id)
      {
        if p in head {
          var y :| i + 1 <= y < |s| && Emits(s, i, y) && p == CollisionPair(s[i].id, s[y].id);
        }
      }
      forall p, x, y | i <= x && Emits(s, x, y) && p == CollisionPair(s[x].id, s[y].id)
        ensures p in PairsFrom(s, i)
      {
        if x == i {
          assert p in head;
        } else {
          assert p in rest;
        }
      }
    }
  }

  /** The slots of the two min events behind an emitted pair. */
  lemma EmittedAt(s: seq<PseudoBody>, pair: CollisionPair) returns (x: nat, y: nat)
    requires pair in PairsFrom(s, 0)
    ensures Emits(s, x, y) && pair == CollisionPair(s[x].id, s[y].id)
  {
    PairsCharacterised(s, 0);
    x, y :| 0 <= x && Emits(s, x, y) && pair == CollisionPair(s[x].id, s[y].id);
  }

  /** No body is ever paired with itself. */
  lemma PairsIrreflexive(s: seq<PseudoBody>)
    ensures forall p :: p in PairsFrom(s, 0) ==> p.a != p.b
  {
    forall p | p in PairsFrom(s, 0)
      ensures p.a != p.b
    {
      var x, y := EmittedAt(s, p);
    }
  }

  /**
    SortBodiesBounds: lay out the events of all bodies and sort them. The
    array ends up ordered by value and holds exactly the events of Events, each
    once.
  */
  method SortBodiesBounds(bodies: seq<Body>, sortedArray: array<PseudoBody>, dt: real, axis: Vec3, getBounds: BoundsOracle)
    requires IsDiagonalAxis(axis)
    requires sortedArray.Length == 2 * |bodies|
    modifies sortedArray
    ensures SortedByValue(sortedArray[..])
    ensures multiset(sortedArray[..]) == multiset(Events(old(Intervals(Motions(bodies), axis, dt, getBounds))))
  {
    FillEvents(bodies, sortedArray, dt, axis, getBounds);
    SortEvents(sortedArray);
  }

  /** s holds the events of the intervals iv: every event is the one its id and kind name, each (id, kind) once, none missing. */
  ghost predicate EventsOfIntervals(s: seq<PseudoBody>, iv: seq<Interval>) {
    && |s| == 2 * |iv|
    && (forall p :: 0 <= p < |s| ==> 0 <= s[p].id < |iv| && s[p] == EventOf(iv, s[p].id, s[p].isMin))
    && UniqueKeys(s)
    && (forall i :: 0 <= i < |iv| ==> EventOf(iv, i, true) in s && EventOf(iv, i, false) in s)
  }

  /** No two slots hold the same end of the same body. */
  ghost predicate UniqueKeys(s: seq<PseudoBody>) {
    forall p, q :: 0 <= p < q < |s| ==> s[p].id != s[q].id || s[p].isMin != s[q].isMin
  }

  ghost predicate Distinct<T>(s: seq<T>) {
    forall p, q :: 0 <= p < q < |s| ==> s[p] != s[q]
  }

  lemma {:induction false} DistinctCountsOnce<T>(s: seq<T>, e: T)
    requires Distinct(s)
    ensures multiset(s)[e] <= 1
    decreases |s|
  {
    if s != [] {
      assert s == [s[0]] + s[1..];
      DistinctCountsOnce(s[1..], e);
      if s[0] == e {
        assert e !in s[1..];
      }
    }
  }

  lemma RepeatedCountsTwice<T>(s: seq<T>, p: int, q: int)
    requires 0 <= p < q < |s| && s[p] == s[q]
    ensures multiset(s)[s[p]] >= 2
  {
    assert s == s[..p] + [s[p]] + s[p + 1..q] + [s[q]] + s[q + 1..];
  }

  /** Any arrangement of the events of Events is EventsOfIntervals. */
  lemma PermutedEvents(s: seq<PseudoBody>, iv: seq<Interval>)
    requires multiset(s) == multiset(Events(iv))
    ensures EventsOfIntervals(s, iv)
  {
    var e := Events(iv);
    assert |s| == |multiset(s)| == |e|;
    forall p | 0 <= p < |s|
      ensures 0 <= s[p].id < |iv| && s[p] == EventOf(iv, s[p].id, s[p].isMin)
    {
      assert s[p] in multiset(e);
      var k :| 0 <= k < |e| && e[k] == s[p];
      assert e[k] == EventOf(iv, k / 2, k % 2 == 0);
    }
    forall a, b | 0 <= a < b < |e|
      ensures e[a] != e[b]
    {
      assert e[a] == EventOf(iv, a / 2, a % 2 == 0) && e[b] == EventOf(iv, b / 2, b % 2 == 0);
    }
    forall p, q | 0 <= p < q < |s|
      ensures s[p].id != s[q].id || s[p].isMin != s[q].isMin
    {
      if s[p].id == s[q].id && s[p].isMin == s[q].isMin {
        RepeatedCountsTwice(s, p, q);
        DistinctCountsOnce(e, s[p]);
      }
    }
    forall i | 0 <= i < |iv|
      ensures EventOf(iv, i, true) in s && EventOf(iv, i, false) in s
    {
      assert e[2 * i] in multiset(e) && e[2 * i + 1] in multiset(e);
    }
  }

  /** Where body i's min (isMin) or max event sits in s. */
  lemma EventPosition(s: seq<PseudoBody>, iv: seq<Interval>, i: nat, isMin: bool) returns (p: nat)
    requires EventsOfIntervals(s, iv) && i < |iv|
    ensures p < |s| && s[p] == EventOf(iv, i, isMin)
    ensures forall k :: 0 <= k < |s| && s[k].id == i && s[k].isMin == isMin ==> k == p
  {
    p :| 0 <= p < |s| && s[p] == EventOf(iv, i, isMin);
  }

  /** Every interval is non-empty. */
  ghost predicate NonEmptyIntervals(iv: seq<Interval>) {
    forall i :: 0 <= i < |iv| ==> iv[i].lo < iv[i].hi
  }

  /** The sorted events of non-empty intervals: every body's min event comes before its max event. */
  ghost predicate SortedEvents(s: seq<PseudoBody>, iv: seq<Interval>) {
    SortedByValue(s) && EventsOfIntervals(s, iv) && NonEmptyIntervals(iv)
  }

  /**
    Soundness: for every emitted pair (a, b), b's min event lies strictly
    after a's min event and strictly before a's max event, so
    lo(a) <= lo(b) <= hi(a).
  */
  lemma PairsSound(s: seq<PseudoBody>, iv: seq<Interval>, pair: CollisionPair)
    requires SortedEvents(s, iv) && pair in PairsFrom(s, 0)
    ensures 0 <= pair.a < |iv| && 0 <= pair.b < |iv| && pair.a != pair.b
    ensures exists x, y, m :: 0 <= x < y < m < |s| && s[x] == EventOf(iv, pair.a, true) &&
              s[y] == EventOf(iv, pair.b, true) && s[m] == EventOf(iv, pair.a, false)
    ensures iv[pair.a].lo <= iv[pair.b].lo <= iv[pair.a].hi
  {
    var x, y := EmittedAt(s, pair);
    assert s[x] == EventOf(iv, pair.a, true) && s[y] == EventOf(iv, pair.b, true);
    var m := EventPosition(s, iv, pair.a, false);
    assert s[x].value < s[m].value;
    assert x < m;
    assert s[m].id == s[x].id;
    assert y < m;
    assert s[y].value <= s[m].value;
  }

  /**
    Completeness: when body b's interval starts inside [lo(a), hi(a)), the
    pair {a, b} is emitted in one orientation or the other.
  */
  lemma PairsComplete(s: seq<PseudoBody>, iv: seq<Interval>, a: nat, b: nat)
    requires SortedEvents(s, iv)
    requires a < |iv| && b < |iv| && a != b && iv[a].lo <= iv[b].lo < iv[a].hi
    ensures CollisionPair(a, b) in PairsFrom(s, 0) || CollisionPair(b, a) in PairsFrom(s, 0)
  {
    PairsCharacterised(s, 0);
    var x := EventPosition(s, iv, a, true);
    var y := EventPosition(s, iv, b, true);
    var ma := EventPosition(s, iv, a, false);
    var mb := EventPosition(s, iv, b, false);
    if x < y {
      assert Emits(s, x, y);
    } else {
      assert s[y].value <= s[x].value;
      assert Emits(s, y, x);
    }
  }

  /** With unique keys, no pair is emitted in both orientations. */
  lemma PairsNotReversed(s: seq<PseudoBody>, pair: CollisionPair)
    requires UniqueKeys(s) && pair in PairsFrom(s, 0)
    ensures CollisionPair(pair.b, pair.a) !in PairsFrom(s, 0)
  {
    PairsCharacterised(s, 0);
  }

  lemma DistinctConcat<T>(u: seq<T>, v: seq<T>)
    requires Distinct(u) && Distinct(v) && forall e :: e in u ==> e !in v
    ensures Distinct(u + v)
  {
    forall p, q | 0 <= p < q < |u + v|
      ensures (u + v)[p] != (u + v)[q]
    {
      if p < |u| && q >= |u| {
        assert (u + v)[p] in u && (u + v)[q] == v[q - |u|];
      } else if p >= |u| {
        assert (u + v)[p] == v[p - |u|] && (u + v)[q] == v[q - |u|];
      }
    }
  }

  lemma {:induction false} ScanDistinct(s: seq<PseudoBody>, i: nat, j: nat)
    requires UniqueKeys(s) && i < |s| && i < j <= |s|
    requires s[i].isMin && forall k :: i < k < j ==> s[k].id != s[i].id
    ensures Distinct(Scan(s, i, j))
    decreases |s| - j
  {
    if j < |s| && s[j].id != s[i].id {
      ScanDistinct(s, i, j + 1);
      ScanCharacterised(s, i, j + 1);
      var head := if s[j].isMin then [CollisionPair(s[i].id, s[j].id)] else [];
      forall e | e in head
        ensures e !in Scan(s, i, j + 1)
      {
      }
      DistinctConcat(head, Scan(s, i, j + 1));
    }
  }

  /** With unique keys, no pair is emitted twice. */
  lemma {:induction false} PairsDistinct(s: seq<PseudoBody>, i: nat)
    requires UniqueKeys(s) && i <= |s|
    ensures Distinct(PairsFrom(s, i))
    decreases |s| - i
  {
    if i < |s| {
      PairsDistinct(s, i + 1);
      if s[i].isMin {
        ScanDistinct(s, i, i + 1);
        ScanCharacterised(s, i, i + 1);
        PairsCharacterised(s, i + 1);
        var scan, rest := Scan(s, i, i + 1), PairsFrom(s, i + 1);
        forall e | e in scan
          ensures e !in rest
        {
        }
        DistinctConcat(scan, rest);
      }
    }
  }

  /** The number of min events in s. */
  function MinCount(s: seq<PseudoBody>): nat
    decreases |s|
  {
    if s == [] then 0 else (if s[0].isMin then 1 else 0) + MinCount(s[1..])
  }

  lemma {:induction false} MinCountConcat(u: seq<PseudoBody>, v: seq<PseudoBody>)
    ensures MinCount(u + v) == MinCount(u) + MinCount(v)
    decreases |u|
  {
    if u == [] {
      assert u + v == v;
    } else {
      assert (u + v)[0] == u[0];
      assert (u + v)[1..] == u[1..] + v;
      MinCountConcat(u[1..], v);
    }
  }

  /** Taking slot k out of t: the multiset loses t[k]. */
  lemma RemoveSlotMultiset(t: seq<PseudoBody>, k: nat)
    requires k < |t|
    ensures multiset(t) == multiset(t[..k] + t[k + 1..]) + multiset{t[k]}
  {
    var front, back := t[..k], t[k + 1..];
    assert t == front + [t[k]] + back;
  }

  /** Taking slot k out of t: the count loses t[k]'s mark. */
  lemma RemoveSlotCount(t: seq<PseudoBody>, k: nat)
    requires k < |t|
    ensures MinCount(t) == MinCount(t[..k] + t[k + 1..]) + (if t[k].isMin then 1 else 0)
  {
    var front, tail, back := t[..k], t[k..], t[k + 1..];
    assert t == front + tail;
    assert tail[1..] == back;
    MinCountConcat(front, tail);
    MinCountConcat(front, back);
  }

  lemma {:induction false} MinCountPermutation(s: seq<PseudoBody>, t: seq<PseudoBody>)
    requires multiset(s) == multiset(t)
    ensures MinCount(s) == MinCount(t)
    decreases |s|
  {
    if s == [] {
      assert |t| == |multiset(t)| == 0;
    } else {
      var e := s[0];
      assert e in multiset(t);
      var k :| 0 <= k < |t| && t[k] == e;
      RemoveSlotMultiset(t, k);
      RemoveSlotCount(t, k);
      assert s == [e] + s[1..];
      assert multiset(s) == multiset{e} + multiset(s[1..]);
      assert multiset(s[1..]) == multiset(s) - multiset{e};
      assert multiset(t[..k] + t[k + 1..]) == multiset(t) - multiset{e};
      MinCountPermutation(s[1..], t[..k] + t[k + 1..]);
    }
  }

  /** Slots alternate min, max, min, max, …: n min events. */
  lemma {:induction false} AlternatingMinCount(e: seq<PseudoBody>, n: nat)
    requires |e| == 2 * n && forall p :: 0 <= p < |e| ==> e[p].isMin == (p % 2 == 0)
    ensures MinCount(e) == n
    decreases n
  {
    if n > 0 {
      var rest := e[2..];
      forall p | 0 <= p < |rest|
        ensures rest[p].isMin == (p % 2 == 0)
      {
        assert rest[p] == e[p + 2];
      }
      AlternatingMinCount(rest, n - 1);
      assert e[1..][1..] == rest;
      assert e[1].isMin == false;
    }
  }

  lemma {:induction false} ScanLength(s: seq<PseudoBody>, i: nat, j: nat)
    requires i < |s| && i < j <= |s|
    ensures |Scan(s, i, j)| <= MinCount(s[j..])
    decreases |s| - j
  {
    if j < |s| {
      ScanLength(s, i, j + 1);
      assert s[j..][1..] == s[j + 1..];
    }
  }

  /** The number of unordered pairs of m things: 0 + 1 + … + (m − 1). */
  function Pairings(m: nat): nat {
    if m == 0 then 0 else (m - 1) + Pairings(m - 1)
  }

  lemma {:induction false} PairingsClosedForm(m: nat)
    ensures 2 * Pairings(m) == m * (m - 1)
  {
    if m > 0 {
      PairingsClosedForm(m - 1);
      assert (m - 1) * (m - 2) + 2 * (m - 1) == m * (m - 1);
    }
  }

  /** m min events from slot i on give at most Pairings(m) pairs. */
  lemma {:induction false} PairsCount(s: seq<PseudoBody>, i: nat)
    requires i <= |s|
    ensures |PairsFrom(s, i)| <= Pairings(MinCount(s[i..]))
    decreases |s| - i
  {
    if i < |s| {
      PairsCount(s, i + 1);
      var c, rest := MinCount(s[i + 1..]), PairsFrom(s, i + 1);
      assert s[i..][1..] == s[i + 1..];
      assert MinCount(s[i..]) == (if s[i].isMin then 1 else 0) + c;
      if s[i].isMin {
        var scan := Scan(s, i, i + 1);
        assert PairsFrom(s, i) == scan + rest;
        ScanLength(s, i, i + 1);
        assert Pairings(c + 1) == c + Pairings(c);
      } else {
        assert PairsFrom(s, i) == rest;
      }
    }
  }

  /** Every pair names two different bodies, and b's interval starts inside a's. */
  ghost predicate SoundPairs(pairs: seq<CollisionPair>, iv: seq<Interval>) {
    forall p :: p in pairs ==>
      0 <= p.a < |iv| && 0 <= p.b < |iv| && p.a != p.b && iv[p.a].lo <= iv[p.b].lo <= iv[p.a].hi
  }

  /** Every two bodies where one interval starts strictly inside the other appear, in one orientation. */
  ghost predicate CompletePairs(pairs: seq<CollisionPair>, iv: seq<Interval>) {
    forall a: nat, b: nat :: a < |iv| && b < |iv| && a != b && iv[a].lo <= iv[b].lo < iv[a].hi ==>
      CollisionPair(a, b) in pairs || CollisionPair(b, a) in pairs
  }

  /** No pair appears in both orientations. */
  ghost predicate NoReversedPairs(pairs: seq<CollisionPair>) {
    forall p :: p in pairs ==> CollisionPair(p.b, p.a) !in pairs
  }

  lemma PairsSoundAll(s: seq<PseudoBody>, iv: seq<Interval>)
    requires SortedEvents(s, iv)
    ensures SoundPairs(PairsFrom(s, 0), iv)
  {
    forall p | p in PairsFrom(s, 0)
      ensures 0 <= p.a < |iv| && 0 <= p.b < |iv| && p.a != p.b && iv[p.a].lo <= iv[p.b].lo <= iv[p.a].hi
    {
      PairsSound(s, iv, p);
    }
  }

  lemma PairsCompleteAll(s: seq<PseudoBody>, iv: seq<Interval>)
    requires SortedEvents(s, iv)
    ensures CompletePairs(PairsFrom(s, 0), iv)
  {
    forall a: nat, b: nat | a < |iv| && b < |iv| && a != b && iv[a].lo <= iv[b].lo < iv[a].hi
      ensures CollisionPair(a, b) in PairsFrom(s, 0) || CollisionPair(b, a) in PairsFrom(s, 0)
    {
      PairsComplete(s, iv, a, b);
    }
  }

  lemma PairsNeverReversed(s: seq<PseudoBody>)
    requires UniqueKeys(s)
    ensures NoReversedPairs(PairsFrom(s, 0))
  {
    forall p | p in PairsFrom(s, 0)
      ensures CollisionPair(p.b, p.a) !in PairsFrom(s, 0)
    {
      PairsNotReversed(s, p);
    }
  }

  /** n bodies give at most n(n−1)/2 pairs. */
  lemma PairsBound(s: seq<PseudoBody>, iv: seq<Interval>)
    requires multiset(s) == multiset(Events(iv))
    ensures 2 * |PairsFrom(s, 0)| <= |iv| * (|iv| - 1)
  {
    PairsCount(s, 0);
    assert s[0..] == s;
    MinCountPermutation(s, Events(iv));
    AlternatingMinCount(Events(iv), |iv|);
    PairingsClosedForm(|iv|);
  }

  /**
    What the scan over any sorted arrangement of the events of non-empty
    intervals produces: sound, complete, without repeats or reversed pairs, and
    at most n(n−1)/2 pairs for n intervals.
  */
  lemma ScanOfSortedEvents(s: seq<PseudoBody>, iv: seq<Interval>, pairs: seq<CollisionPair>)
    requires SortedByValue(s) && multiset(s) == multiset(Events(iv)) && NonEmptyIntervals(iv)
    requires pairs == PairsFrom(s, 0)
    ensures SoundPairs(pairs, iv) && CompletePairs(pairs, iv)
    ensures Distinct(pairs) && NoReversedPairs(pairs)
    ensures 2 * |pairs| <= |iv| * (|iv| - 1)
  {
    PermutedEvents(s, iv);
    PairsSoundAll(s, iv);
    PairsCompleteAll(s, iv);
    PairsDistinct(s, 0);
    PairsNeverReversed(s);
    PairsBound(s, iv);
  }

  /**
    BroadPhase (with SweepAndPrune1D): sort the events of all bodies and scan
    them. Every emitted pair names two different bodies whose intervals overlap
    with b starting inside a; every two bodies where one starts strictly inside
    the other's interval are emitted, in one orientation; no pair appears twice
    or reversed, so there are at most n(n−1)/2 of them.
  */
  method BroadPhase(bodies: seq<Body>, dt: real, axis: Vec3, getBounds: BoundsOracle)
    returns (finalPairs: seq<CollisionPair>)
    requires IsDiagonalAxis(axis)
    ensures SoundPairs(finalPairs, Intervals(Motions(bodies), axis, dt, getBounds))
    ensures CompletePairs(finalPairs, Intervals(Motions(bodies), axis, dt, getBounds))
    ensures Distinct(finalPairs) && NoReversedPairs(finalPairs)
    ensures 2 * |finalPairs| <= |bodies| * (|bodies| - 1)
  {
    var sortedBodies := new PseudoBody[2 * |bodies|];
    ghost var ms := Motions(bodies);
    SortBodiesBounds(bodies, sortedBodies, dt, axis, getBounds);
    finalPairs := BuildPairs(sortedBodies, |bodies|);
    ghost var s := sortedBodies[..];
    assert sortedBodies[..2 * |bodies|] == s;
    assert Motions(bodies) == ms;
    ScanOfSortedEvents(s, Intervals(ms, axis, dt, getBounds), finalPairs);
  }
}
