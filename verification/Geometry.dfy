/** Planar geometry of pkg/geo/geometry.go over the reals: bounding boxes and the
    ray-casting polygon test. */
module Geometry {
  import opened Options

  datatype Point = Point(x: real, y: real)
  datatype Box = Box(minX: real, minY: real, maxX: real, maxY: real)
  type Ring = seq<Point>

  predicate Contains(b: Box, p: Point) {
    b.minX <= p.x <= b.maxX && b.minY <= p.y <= b.maxY
  }

  predicate Intersects(a: Box, b: Box) {
    !(a.maxX < b.minX || a.minX > b.maxX || a.maxY < b.minY || a.minY > b.maxY)
  }

  /** Two boxes with a common point intersect, and every pair of proper boxes that
      intersect has a common point. */
  lemma IntersectsMeansCommonPoint(a: Box, b: Box)
    requires a.minX <= a.maxX && a.minY <= a.maxY && b.minX <= b.maxX && b.minY <= b.maxY
    ensures Intersects(a, b) <==> exists p :: Contains(a, p) && Contains(b, p)
  {
    if Intersects(a, b) {
      var p := Point(if a.minX < b.minX then b.minX else a.minX, if a.minY < b.minY then b.minY else a.minY);
      assert Contains(a, p) && Contains(b, p);
    }
  }

  // ---- bounds of a ring

  /** The tightest box around a ring: it holds every vertex, and each side touches one. */
  ghost predicate IsBounds(ring: Ring, b: Box) {
    && (forall i :: 0 <= i < |ring| ==> Contains(b, ring[i]))
    && (exists i :: 0 <= i < |ring| && ring[i].x == b.minX)
    && (exists i :: 0 <= i < |ring| && ring[i].x == b.maxX)
    && (exists i :: 0 <= i < |ring| && ring[i].y == b.minY)
    && (exists i :: 0 <= i < |ring| && ring[i].y == b.maxY)
  }

  function Widen(b: Box, p: Point): Box {
    Box(if p.x < b.minX then p.x else b.minX, if p.y < b.minY then p.y else b.minY,
        if p.x > b.maxX then p.x else b.maxX, if p.y > b.maxY then p.y else b.maxY)
  }

  /** The box of the outer ring; none for a polygon without one. */
  method Bounds(rings: seq<Ring>) returns (r: Option<Box>)
    ensures r.None? <==> rings == [] || rings[0] == []
    ensures r.Some? ==> IsBounds(rings[0], r.value)
  {
    if rings == [] || rings[0] == [] {
      return None;
    }
    var ring := rings[0];
    var b := Box(ring[0].x, ring[0].y, ring[0].x, ring[0].y);
    for i := 0 to |ring|
      invariant b == Box(ring[0].x, ring[0].y, ring[0].x, ring[0].y) || i > 0
      invariant i > 0 ==> IsBounds(ring[..i], b)
    {
      ghost var before := b;
      b := Widen(b, ring[i]);
      WidenBounds(ring, i, before, b);
    }
    assert ring[..|ring|] == ring;
    return Some(b);
  }

  lemma WidenBounds(ring: Ring, i: nat, before: Box, b: Box)
    requires i < |ring| && b == Widen(before, ring[i])
    requires if i == 0 then before == Box(ring[0].x, ring[0].y, ring[0].x, ring[0].y) else IsBounds(ring[..i], before)
    ensures IsBounds(ring[..i + 1], b)
  {
    var s := ring[..i + 1];
    assert s[i] == ring[i];
    if i > 0 {
      assert forall j :: 0 <= j < i ==> s[j] == ring[..i][j];
      Attained(ring, i, before);
    }
  }

  lemma Attained(ring: Ring, i: nat, b: Box)
    requires 0 < i < |ring| && IsBounds(ring[..i], b)
    ensures var s := ring[..i + 1];
      && (exists j :: 0 <= j < |s| && s[j].x == b.minX) && (exists j :: 0 <= j < |s| && s[j].x == b.maxX)
      && (exists j :: 0 <= j < |s| && s[j].y == b.minY) && (exists j :: 0 <= j < |s| && s[j].y == b.maxY)
  {
    var s, t := ring[..i + 1], ring[..i];
    var a :| 0 <= a < |t| && t[a].x == b.minX;
    var c :| 0 <= c < |t| && t[c].x == b.maxX;
    var d :| 0 <= d < |t| && t[d].y == b.minY;
    var e :| 0 <= e < |t| && t[e].y == b.maxY;
    assert s[a].x == b.minX && s[c].x == b.maxX && s[d].y == b.minY && s[e].y == b.maxY;
  }

  // ---- ray casting

  predicate Above(a: Point, p: Point) { a.y > p.y }

  /** Where the edge from `a` to `b` meets the horizontal line through `p`. */
  function Abscissa(p: Point, a: Point, b: Point): real
    requires Above(a, p) != Above(b, p)
  {
    (b.x - a.x) * (p.y - a.y) / (b.y - a.y) + a.x
  }

  /** The ray from `p` to the right crosses the edge. */
  predicate Crosses(p: Point, a: Point, b: Point) {
    Above(a, p) != Above(b, p) && p.x < Abscissa(p, a, b)
  }

  function Previous(ring: Ring, i: nat): Point
    requires i < |ring|
  {
    if i == 0 then ring[|ring| - 1] else ring[i - 1]
  }

  /** Parity of the crossings with the first `k` edges. */
  function Parity(p: Point, ring: Ring, k: nat): bool
    requires k <= |ring|
  {
    if k == 0 then false else Parity(p, ring, k - 1) != Crosses(p, ring[k - 1], Previous(ring, k - 1))
  }

  predicate InRing(p: Point, ring: Ring) {
    |ring| >= 3 && Parity(p, ring, |ring|)
  }

  predicate InPolygon(p: Point, rings: seq<Ring>) {
    rings != [] && InRing(p, rings[0]) && forall i :: 1 <= i < |rings| ==> !InRing(p, rings[i])
  }

  method PointInRing(p: Point, ring: Ring) returns (inside: bool)
    ensures inside == InRing(p, ring)
  {
    if |ring| < 3 {
      return false;
    }
    inside := false;
    var j := |ring| - 1;
    for i := 0 to |ring|
      invariant j == if i == 0 then |ring| - 1 else i - 1
      invariant inside == Parity(p, ring, i)
    {
      if Crosses(p, ring[i], ring[j]) {
        inside := !inside;
      }
      j := i;
    }
  }

  method PointInPolygon(p: Point, rings: seq<Ring>) returns (r: bool)
    ensures r == InPolygon(p, rings)
  {
    if |rings| == 0 {
      return false;
    }
    var outer := PointInRing(p, rings[0]);
    if !outer {
      return false;
    }
    for i := 1 to |rings|
      invariant forall k :: 1 <= k < i ==> !InRing(p, rings[k])
    {
      var hole := PointInRing(p, rings[i]);
      if hole {
        return false;
      }
    }
    return true;
  }

  // ---- a point inside lies within the bounds

  lemma Scale(d: real, t: real)
    requires 0.0 <= t <= 1.0
    ensures d >= 0.0 ==> 0.0 <= d * t <= d
    ensures d <= 0.0 ==> d <= d * t <= 0.0
  {
  }

  /** The crossing lies between the ends of its edge. */
  lemma AbscissaBetween(p: Point, a: Point, b: Point, lo: real, hi: real)
    requires Above(a, p) != Above(b, p)
    requires lo <= a.x <= hi && lo <= b.x <= hi
    ensures lo <= Abscissa(p, a, b) <= hi
  {
    var off := AbscissaOffset(p, a, b);
  }

  /** Seen from one end of the edge the crossing is no further than the other end. */
  lemma AbscissaOffset(p: Point, a: Point, b: Point) returns (off: real)
    requires Above(a, p) != Above(b, p)
    ensures Abscissa(p, a, b) == off + a.x
    ensures b.x >= a.x ==> 0.0 <= off <= b.x - a.x
    ensures b.x <= a.x ==> b.x - a.x <= off <= 0.0
  {
    off := (b.x - a.x) * (p.y - a.y) / (b.y - a.y);
    Portion(b.x - a.x, p.y - a.y, b.y - a.y, off);
  }

  lemma Portion(d: real, u: real, v: real, off: real)
    requires (0.0 <= u <= v && v > 0.0) || (v <= u <= 0.0 && v < 0.0)
    requires off == d * u / v
    ensures d >= 0.0 ==> 0.0 <= off <= d
    ensures d <= 0.0 ==> d <= off <= 0.0
  {
    FractionInUnit(u, v);
    Regroup(d, u, v);
    Scale(d, u / v);
  }

  lemma Regroup(d: real, u: real, v: real)
    requires v != 0.0
    ensures d * u / v == d * (u / v)
  {
  }

  lemma FractionInUnit(u: real, d: real)
    requires (0.0 <= u <= d && d > 0.0) || (d <= u <= 0.0 && d < 0.0)
    ensures 0.0 <= u / d <= 1.0
  {
  }

  lemma {:induction false} NoCrossing(p: Point, ring: Ring, k: nat)
    requires k <= |ring|
    requires forall i :: 0 <= i < |ring| ==> !Crosses(p, ring[i], Previous(ring, i))
    ensures !Parity(p, ring, k)
  {
    if k > 0 {
      NoCrossing(p, ring, k - 1);
    }
  }

  /** If every edge that straddles the line is crossed, the parity says whether the last
      vertex seen is on the other side than the last vertex of the ring. */
  lemma {:induction false} StraddleParity(p: Point, ring: Ring, k: nat)
    requires 0 < k <= |ring|
    requires forall i :: 0 <= i < |ring| ==>
      (Crosses(p, ring[i], Previous(ring, i)) <==> Above(ring[i], p) != Above(Previous(ring, i), p))
    ensures Parity(p, ring, k) == (Above(ring[k - 1], p) != Above(ring[|ring| - 1], p))
  {
    if k > 1 {
      StraddleParity(p, ring, k - 1);
    } else {
      assert !Parity(p, ring, 0);
    }
  }

  /** Ray casting accepts only points within the ring's bounds. */
  lemma RingWithinBounds(p: Point, ring: Ring, b: Box)
    requires InRing(p, ring) && forall i :: 0 <= i < |ring| ==> Contains(b, ring[i])
    ensures Contains(b, p)
  {
    if p.y < b.minY || p.y > b.maxY {
      NoCrossing(p, ring, |ring|);
    } else if p.x > b.maxX {
      forall i | 0 <= i < |ring| ensures !Crosses(p, ring[i], Previous(ring, i)) {
        if Above(ring[i], p) != Above(Previous(ring, i), p) {
          AbscissaBetween(p, ring[i], Previous(ring, i), b.minX, b.maxX);
        }
      }
      NoCrossing(p, ring, |ring|);
    } else if p.x < b.minX {
      forall i | 0 <= i < |ring|
        ensures Crosses(p, ring[i], Previous(ring, i)) <==> Above(ring[i], p) != Above(Previous(ring, i), p)
      {
        if Above(ring[i], p) != Above(Previous(ring, i), p) {
          AbscissaBetween(p, ring[i], Previous(ring, i), b.minX, b.maxX);
        }
      }
      StraddleParity(p, ring, |ring|);
    }
  }

  lemma PolygonWithinBounds(p: Point, rings: seq<Ring>, b: Box)
    requires InPolygon(p, rings) && IsBounds(rings[0], b)
    ensures Contains(b, p)
  {
    RingWithinBounds(p, rings[0], b);
  }
}
