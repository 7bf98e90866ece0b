/** What ray casting accepts, without counting crossings: for convex rings in either direction,
    the points on the inner side of every edge. */
module ConvexRings {
  import opened Geometry

  // ---- sides of an edge

  /** Positive to the left of the line from `a` to `b`, negative to its right. */
  function Cross(a: Point, b: Point, p: Point): real {
    (b.x - a.x) * (p.y - a.y) - (b.y - a.y) * (p.x - a.x)
  }

  /** The same, seen from the inner side of a ring that turns left or right. */
  function Side(left: bool, a: Point, b: Point, p: Point): real {
    if left then Cross(a, b, p) else -Cross(a, b, p)
  }

  /** The crossing lies on the line through the ends of the edge. */
  lemma AbscissaOnLine(p: Point, a: Point, b: Point)
    requires Above(a, p) != Above(b, p)
    ensures (Abscissa(p, a, b) - a.x) * (b.y - a.y) == (b.x - a.x) * (p.y - a.y)
  {
  }

  lemma MulSign(x: real, y: real)
    ensures (x > 0.0 && y > 0.0) || (x < 0.0 && y < 0.0) ==> x * y > 0.0
    ensures (x > 0.0 && y < 0.0) || (x < 0.0 && y > 0.0) ==> x * y < 0.0
    ensures x == 0.0 || y == 0.0 ==> x * y == 0.0
  {
  }

  lemma Cancel(x: real, y: real, h: real, z: real)
    requires h != 0.0 && x * h == z && y * h == z
    ensures x == y
  {
    MulSign(x - y, h);
    assert (x - y) * h == x * h - y * h;
  }

  /** The crossing is the same from both ends. */
  lemma AbscissaSymmetric(p: Point, a: Point, b: Point)
    requires Above(a, p) != Above(b, p)
    ensures Abscissa(p, a, b) == Abscissa(p, b, a)
  {
    hide Abscissa;
    AbscissaOnLine(p, a, b);
    AbscissaOnLine(p, b, a);
    Ends(Abscissa(p, b, a), a.x, b.x, a.y, b.y, p.y);
    Cancel(Abscissa(p, a, b) - a.x, Abscissa(p, b, a) - a.x, b.y - a.y, (b.x - a.x) * (p.y - a.y));
  }

  lemma Ends(y: real, ax: real, bx: real, u: real, v: real, h: real)
    requires (y - bx) * (u - v) == (ax - bx) * (h - v)
    ensures (y - ax) * (v - u) == (bx - ax) * (h - u)
  {
  }

  /** How far `q` at the height of `p` lies from the crossing tells its side. */
  lemma SideOfCrossing(p: Point, a: Point, b: Point, x: real)
    requires Above(a, p) != Above(b, p)
    ensures Cross(a, b, Point(x, p.y)) == (b.y - a.y) * (Abscissa(p, a, b) - x)
  {
    AbscissaOnLine(p, a, b);
    var c, h := Abscissa(p, a, b), b.y - a.y;
    assert (c - a.x) * h - h * (x - a.x) == h * (c - x);
  }

  /** Where the edge from `c` to `d` passes the height of `p`, the side of another line is the
      weighted mean of the sides of its ends. */
  lemma SideBetween(a: Point, b: Point, p: Point, c: Point, d: Point)
    requires Above(c, p) != Above(d, p)
    ensures Cross(a, b, Point(Abscissa(p, c, d), p.y)) * (d.y - c.y) ==
            Cross(a, b, c) * (d.y - p.y) + Cross(a, b, d) * (p.y - c.y)
  {
    AbscissaOnLine(p, c, d);
    Mean(b.x - a.x, b.y - a.y, a.x, a.y, c.x, c.y, d.x, d.y, Abscissa(p, c, d), p.y);
  }

  lemma Mean(u: real, v: real, ax: real, ay: real, cx: real, cy: real, dx: real, dy: real, x: real, h: real)
    requires (x - cx) * (dy - cy) == (dx - cx) * (h - cy)
    ensures (u * (h - ay) - v * (x - ax)) * (dy - cy) ==
            (u * (cy - ay) - v * (cx - ax)) * (dy - h) + (u * (dy - ay) - v * (dx - ax)) * (h - cy)
  {
    var n := dy - cy;
    assert (x - ax) * n == (x - cx) * n + (cx - ax) * n;
    assert (cx - ax) * (dy - h) + (dx - ax) * (h - cy) == (cx - ax) * n + (dx - cx) * (h - cy);
    assert (h - ay) * n == (cy - ay) * (dy - h) + (dy - ay) * (h - cy);
    Combine(u, v, h - ay, x - ax, n, cy - ay, dy - ay, cx - ax, dx - ax, dy - h, h - cy);
  }

  lemma Combine(u: real, v: real, y: real, x: real, n: real, y1: real, y2: real, x1: real, x2: real, s: real, t: real)
    requires y * n == y1 * s + y2 * t && x * n == x1 * s + x2 * t
    ensures (u * y - v * x) * n == (u * y1 - v * x1) * s + (u * y2 - v * x2) * t
  {
    assert (u * y - v * x) * n == u * (y * n) - v * (x * n);
    assert u * (y1 * s + y2 * t) == u * y1 * s + u * y2 * t;
    assert v * (x1 * s + x2 * t) == v * x1 * s + v * x2 * t;
  }

  // ---- convex rings

  function Before(ring: Ring, i: nat): (j: nat)
    requires i < |ring|
    ensures j < |ring| && ring[j] == Previous(ring, i)
  {
    if i == 0 then |ring| - 1 else i - 1
  }

  ghost function EdgeSide(left: bool, ring: Ring, i: nat, p: Point): real
    requires i < |ring|
  {
    Side(left, Previous(ring, i), ring[i], p)
  }

  /** Every edge has all other vertices strictly on its inner side. */
  ghost predicate Convex(left: bool, ring: Ring) {
    |ring| >= 3 &&
    forall i, k :: 0 <= i < |ring| && 0 <= k < |ring| && k != i && k != Before(ring, i) ==> EdgeSide(left, ring, i, ring[k]) > 0.0
  }

  /** The edge into vertex `i` passes the height of `p`, upwards or downwards; its lower end may be
      at that height, its upper end is above it. */
  ghost predicate Passes(ring: Ring, i: nat, p: Point, up: bool)
    requires i < |ring|
  {
    var a, b := Previous(ring, i).y, ring[i].y;
    if up then a <= p.y < b else b <= p.y < a
  }

  ghost function At(ring: Ring, i: nat, p: Point): real
    requires i < |ring| && Above(ring[i], p) != Above(Previous(ring, i), p)
  {
    Abscissa(p, Previous(ring, i), ring[i])
  }

  lemma NotOutside(left: bool, ring: Ring, i: nat, k: nat)
    requires Convex(left, ring) && i < |ring| && k < |ring|
    ensures EdgeSide(left, ring, i, ring[k]) >= 0.0
  {
    OnOwnLine(Previous(ring, i), ring[i]);
    if k == Before(ring, i) {
      assert ring[k] == Previous(ring, i);
    }
  }

  lemma OnOwnLine(a: Point, b: Point)
    ensures Cross(a, b, a) == 0.0 && Cross(a, b, b) == 0.0
  {
  }

  lemma WeightedSides(left: bool, ring: Ring, i: nat, k: nat, p: Point)
    requires i < |ring| && k < |ring| && Above(ring[k], p) != Above(Previous(ring, k), p)
    ensures var c, d := Previous(ring, k), ring[k];
      EdgeSide(left, ring, i, Point(At(ring, k, p), p.y)) * (d.y - c.y) ==
      EdgeSide(left, ring, i, c) * (d.y - p.y) + EdgeSide(left, ring, i, d) * (p.y - c.y)
  {
    var a, b, c, d := Previous(ring, i), ring[i], Previous(ring, k), ring[k];
    SideBetween(a, b, p, c, d);
  }

  /** Where the boundary passes a height, it is on the inner side of every edge, and strictly if
      the end that weighs in strictly is. */
  lemma BoundaryInside(left: bool, ring: Ring, i: nat, k: nat, p: Point)
    requires Convex(left, ring) && i < |ring| && k < |ring| && Above(ring[k], p) != Above(Previous(ring, k), p)
    ensures EdgeSide(left, ring, i, Point(At(ring, k, p), p.y)) >= 0.0
    ensures var low := if Above(ring[k], p) then Previous(ring, k) else ring[k];
      EdgeSide(left, ring, i, low) > 0.0 ==> EdgeSide(left, ring, i, Point(At(ring, k, p), p.y)) > 0.0
  {
    hide EdgeSide, Convex, Abscissa;
    var c, d := Previous(ring, k), ring[k];
    WeightedSides(left, ring, i, k, p);
    NotOutside(left, ring, i, k);
    NotOutside(left, ring, i, Before(ring, k));
    Weighted(EdgeSide(left, ring, i, Point(At(ring, k, p), p.y)), d.y - c.y,
             EdgeSide(left, ring, i, c), d.y - p.y, EdgeSide(left, ring, i, d), p.y - c.y);
  }

  lemma Weighted(s: real, n: real, s1: real, t1: real, s2: real, t2: real)
    requires s * n == s1 * t1 + s2 * t2 && s1 >= 0.0 && s2 >= 0.0
    requires (n > 0.0 && t1 > 0.0 && t2 >= 0.0) || (n < 0.0 && t1 <= 0.0 && t2 < 0.0)
    ensures s >= 0.0
    ensures (if n > 0.0 then s1 else s2) > 0.0 ==> s > 0.0
  {
    MulSign(s1, t1);
    MulSign(s2, t2);
    MulSign(s, n);
  }

  lemma SideAt(left: bool, ring: Ring, i: nat, p: Point, x: real)
    requires i < |ring| && Above(ring[i], p) != Above(Previous(ring, i), p)
    ensures EdgeSide(left, ring, i, Point(x, p.y)) > 0.0 <==> if Above(ring[i], p) == left then At(ring, i, p) > x else At(ring, i, p) < x
    ensures EdgeSide(left, ring, i, Point(x, p.y)) == 0.0 <==> At(ring, i, p) == x
  {
    hide Abscissa, Cross;
    CrossSign(p, Previous(ring, i), ring[i], x);
  }

  lemma CrossSign(p: Point, a: Point, b: Point, x: real)
    requires Above(a, p) != Above(b, p)
    ensures Cross(a, b, Point(x, p.y)) > 0.0 <==> if Above(b, p) then Abscissa(p, a, b) > x else Abscissa(p, a, b) < x
    ensures Cross(a, b, Point(x, p.y)) == 0.0 <==> Abscissa(p, a, b) == x
  {
    hide Abscissa, Cross;
    SideOfCrossing(p, a, b, x);
    SignOfSide(b.y - a.y, Abscissa(p, a, b), x, Cross(a, b, Point(x, p.y)));
  }

  lemma SignOfSide(h: real, c: real, x: real, z: real)
    requires h != 0.0 && z == h * (c - x)
    ensures z > 0.0 <==> if h > 0.0 then c > x else c < x
    ensures z == 0.0 <==> c == x
  {
    MulSign(h, c - x);
  }

  /** No two edges pass a height in the same direction. */
  lemma PassesOnce(left: bool, ring: Ring, i: nat, k: nat, p: Point, up: bool)
    requires Convex(left, ring) && i < |ring| && k < |ring| && Passes(ring, i, p, up) && Passes(ring, k, p, up)
    ensures i == k
  {
    if i != k {
      PassesInside(left, ring, i, k, p, up);
      PassesInside(left, ring, k, i, p, up);
      SideAt(left, ring, i, p, At(ring, k, p));
      SideAt(left, ring, k, p, At(ring, i, p));
    }
  }

  lemma PassesInside(left: bool, ring: Ring, i: nat, k: nat, p: Point, up: bool)
    requires Convex(left, ring) && i < |ring| && k < |ring| && i != k && Passes(ring, i, p, up) && Passes(ring, k, p, up)
    ensures EdgeSide(left, ring, i, Point(At(ring, k, p), p.y)) > 0.0
  {
    var low := if up then Before(ring, k) else k;
    assert low != i && low != Before(ring, i);
    BoundaryInside(left, ring, i, k, p);
  }

  /** The edge going up is to the right of the one going down, if the ring turns left. */
  lemma UpBesideDown(left: bool, ring: Ring, u: nat, d: nat, p: Point)
    requires Convex(left, ring) && u < |ring| && d < |ring| && Passes(ring, u, p, true) && Passes(ring, d, p, false)
    ensures if left then At(ring, d, p) <= At(ring, u, p) else At(ring, u, p) <= At(ring, d, p)
  {
    BoundaryInside(left, ring, u, d, p);
    SideAt(left, ring, u, p, At(ring, d, p));
  }

  // ---- the parity of two crossings

  lemma {:induction false} ParityOfTwo(p: Point, ring: Ring, u: nat, d: nat, k: nat)
    requires u != d && u < |ring| && d < |ring| && k <= |ring|
    requires forall i :: 0 <= i < |ring| && i != u && i != d ==> !Crosses(p, ring[i], Previous(ring, i))
    ensures Parity(p, ring, k) ==
      ((u < k && Crosses(p, ring[u], Previous(ring, u))) != (d < k && Crosses(p, ring[d], Previous(ring, d))))
  {
    if k > 0 {
      ParityOfTwo(p, ring, u, d, k - 1);
    }
  }

  lemma CrossesAt(p: Point, ring: Ring, i: nat)
    requires i < |ring|
    ensures Crosses(p, ring[i], Previous(ring, i)) <==>
      Above(ring[i], p) != Above(Previous(ring, i), p) && p.x < At(ring, i, p)
  {
    if Above(ring[i], p) != Above(Previous(ring, i), p) {
      AbscissaSymmetric(p, ring[i], Previous(ring, i));
    }
  }

  /** If the boundary passes the height of `p`, ray casting accepts `p` exactly from the left edge
      on and before the right one. */
  lemma BetweenEdges(left: bool, ring: Ring, p: Point, u: nat, d: nat)
    requires Convex(left, ring) && u < |ring| && d < |ring| && Passes(ring, u, p, true) && Passes(ring, d, p, false)
    ensures InRing(p, ring) <==>
      if left then At(ring, d, p) <= p.x < At(ring, u, p) else At(ring, u, p) <= p.x < At(ring, d, p)
  {
    hide Convex;
    forall i | 0 <= i < |ring| && i != u && i != d ensures !Crosses(p, ring[i], Previous(ring, i)) {
      if Passes(ring, i, p, true) {
        PassesOnce(left, ring, i, u, p, true);
      } else if Passes(ring, i, p, false) {
        PassesOnce(left, ring, i, d, p, false);
      }
    }
    ParityOfTwo(p, ring, u, d, |ring|);
    CrossesAt(p, ring, u);
    CrossesAt(p, ring, d);
    UpBesideDown(left, ring, u, d, p);
    AtLeastThree(left, ring);
  }

  lemma AtLeastThree(left: bool, ring: Ring)
    requires Convex(left, ring)
    ensures |ring| >= 3
  {
  }

  // ---- going round

  /** Going round a ring without ever leaving a value, one stays at it. */
  lemma {:induction false} NeverLeaves(b: seq<bool>, v: bool, j: nat, k: nat)
    requires j < |b| && k < |b| && b[j] == v
    requires forall i :: 0 <= i < |b| && b[if i == 0 then |b| - 1 else i - 1] == v ==> b[i] == v
    ensures b[k] == v
    decreases if k >= j then k - j else |b| - j + k
  {
    if k != j {
      var before := if k == 0 then |b| - 1 else k - 1;
      NeverLeaves(b, v, j, before);
    }
  }

  lemma PassesBothWays(ring: Ring, p: Point, i: nat, j: nat) returns (u: nat, d: nat)
    requires i < |ring| && j < |ring| && Above(ring[i], p) && !Above(ring[j], p)
    ensures u < |ring| && d < |ring| && Passes(ring, u, p, true) && Passes(ring, d, p, false)
  {
    var b := seq(|ring|, k requires 0 <= k < |ring| => Above(ring[k], p));
    if forall k :: 0 <= k < |b| && !b[if k == 0 then |b| - 1 else k - 1] ==> !b[k] {
      NeverLeaves(b, false, j, i);
    }
    u :| 0 <= u < |b| && !b[if u == 0 then |b| - 1 else u - 1] && b[u];
    if forall k :: 0 <= k < |b| && b[if k == 0 then |b| - 1 else k - 1] ==> b[k] {
      NeverLeaves(b, true, i, j);
    }
    d :| 0 <= d < |b| && b[if d == 0 then |b| - 1 else d - 1] && !b[d];
  }

  // ---- inside and outside

  /** In the wedge of two edges at `v`: with `w` next and `u` before, the height of `p` over `v` is
      the mean of theirs weighted by its sides. */
  lemma Wedge(u: Point, v: Point, w: Point, p: Point)
    ensures Cross(u, v, w) * (p.y - v.y) == Cross(u, v, p) * (w.y - v.y) + Cross(v, w, p) * (u.y - v.y)
  {
    Cramer(w.x - v.x, w.y - v.y, u.x - v.x, u.y - v.y, p.x - v.x, p.y - v.y);
    FromCorner(u, v, w);
    FromCorner(u, v, p);
  }

  lemma FromCorner(u: Point, v: Point, q: Point)
    ensures Cross(u, v, q) == (q.x - v.x) * (u.y - v.y) - (q.y - v.y) * (u.x - v.x)
  {
    var ux, uy, qx, qy := u.x - v.x, u.y - v.y, q.x - v.x, q.y - v.y;
    assert q.x - u.x == qx - ux && q.y - u.y == qy - uy;
    assert (-ux) * (qy - uy) - (-uy) * (qx - ux) == qx * uy - qy * ux;
  }

  lemma Cramer(wx: real, wy: real, ux: real, uy: real, px: real, py: real)
    ensures (wx * uy - wy * ux) * py == (px * uy - py * ux) * wy + (wx * py - wy * px) * uy
  {
  }

  lemma {:induction false} Extreme(ring: Ring, n: nat, top: bool) returns (m: nat)
    requires 0 < n <= |ring|
    ensures m < n && forall i :: 0 <= i < n ==> if top then ring[i].y <= ring[m].y else ring[i].y >= ring[m].y
  {
    if n == 1 {
      m := 0;
    } else {
      m := Extreme(ring, n - 1, top);
      if (top && ring[n - 1].y > ring[m].y) || (!top && ring[n - 1].y < ring[m].y) {
        m := n - 1;
      }
    }
  }

  function After(ring: Ring, i: nat): (j: nat)
    requires i < |ring|
    ensures j < |ring| && Previous(ring, j) == ring[i]
  {
    if i == |ring| - 1 then 0 else i + 1
  }

  /** On the inner side of every edge. */
  ghost predicate Inside(left: bool, ring: Ring, p: Point) {
    forall i :: 0 <= i < |ring| ==> EdgeSide(left, ring, i, p) > 0.0
  }

  lemma WedgeAt(left: bool, ring: Ring, m: nat, p: Point)
    requires Convex(left, ring) && m < |ring| && Inside(left, ring, p)
    ensures var u, v, w := Previous(ring, m), ring[m], ring[After(ring, m)];
      && (u.y >= v.y && w.y >= v.y ==> p.y >= v.y)
      && (u.y <= v.y && w.y <= v.y ==> p.y < v.y)
  {
    var n := After(ring, m);
    var u, v, w := Previous(ring, m), ring[m], ring[n];
    var s, s1, s2 := EdgeSide(left, ring, m, w), EdgeSide(left, ring, m, p), EdgeSide(left, ring, n, p);
    assert n != m && n != Before(ring, m);
    Wedge(u, v, w, p);
    WedgeSign(s, s1, s2, p.y - v.y, w.y - v.y, u.y - v.y);
    if u.y == v.y && w.y == v.y {
      Flat(u, v, w);
    }
  }

  lemma WedgeSign(s: real, s1: real, s2: real, p: real, w: real, u: real)
    requires s > 0.0 && s1 > 0.0 && s2 > 0.0 && s * p == s1 * w + s2 * u
    ensures u >= 0.0 && w >= 0.0 ==> p >= 0.0
    ensures u <= 0.0 && w <= 0.0 && !(u == 0.0 && w == 0.0) ==> p < 0.0
  {
    MulSign(s, p);
    MulSign(s1, w);
    MulSign(s2, u);
  }

  lemma Flat(u: Point, v: Point, w: Point)
    requires u.y == v.y == w.y
    ensures Cross(u, v, w) == 0.0
  {
  }

  /** A point inside has vertices above and below. */
  lemma VerticesAround(left: bool, ring: Ring, p: Point) returns (i: nat, j: nat)
    requires Convex(left, ring) && Inside(left, ring, p)
    ensures i < |ring| && j < |ring| && Above(ring[i], p) && !Above(ring[j], p)
  {
    AtLeastThree(left, ring);
    i := Extreme(ring, |ring|, true);
    j := Extreme(ring, |ring|, false);
    WedgeAt(left, ring, i, p);
    WedgeAt(left, ring, j, p);
    assert Previous(ring, i) == ring[Before(ring, i)] && Previous(ring, j) == ring[Before(ring, j)];
  }

  /** Ray casting on a convex ring, whichever way it turns: a point strictly on the inner side of
      every edge is accepted, a point strictly on the outer side of any edge is not. */
  lemma ConvexRing(left: bool, ring: Ring, p: Point)
    requires Convex(left, ring)
    ensures Inside(left, ring, p) ==> InRing(p, ring)
    ensures (exists i :: 0 <= i < |ring| && EdgeSide(left, ring, i, p) < 0.0) ==> !InRing(p, ring)
  {
    if Inside(left, ring, p) {
      InsideAccepted(left, ring, p);
    }
    if i :| 0 <= i < |ring| && EdgeSide(left, ring, i, p) < 0.0 {
      OutsideRejected(left, ring, p, i);
    }
  }

  /** The same with the boundary: ray casting on a convex ring accepts exactly the points between
      an edge that passes their height upwards and one that passes it downwards, the left one
      included and the right one not. */
  lemma ConvexExactly(left: bool, ring: Ring, p: Point)
    requires Convex(left, ring)
    ensures InRing(p, ring) <==> exists u, d :: 0 <= u < |ring| && 0 <= d < |ring| && Enclosed(left, ring, p, u, d)
  {
    hide Convex;
    if InRing(p, ring) {
      var u, d := AcceptedPasses(ring, p);
      BetweenEdges(left, ring, p, u, d);
      assert Enclosed(left, ring, p, u, d);
    }
    if u, d :| 0 <= u < |ring| && 0 <= d < |ring| && Enclosed(left, ring, p, u, d) {
      BetweenEdges(left, ring, p, u, d);
    }
  }

  ghost predicate Enclosed(left: bool, ring: Ring, p: Point, u: nat, d: nat)
    requires u < |ring| && d < |ring|
  {
    && Passes(ring, u, p, true) && Passes(ring, d, p, false)
    && if left then At(ring, d, p) <= p.x < At(ring, u, p) else At(ring, u, p) <= p.x < At(ring, d, p)
  }

  lemma InsideAccepted(left: bool, ring: Ring, p: Point)
    requires Convex(left, ring) && Inside(left, ring, p)
    ensures InRing(p, ring)
  {
    var i, j := VerticesAround(left, ring, p);
    var u, d := PassesBothWays(ring, p, i, j);
    BetweenEdges(left, ring, p, u, d);
    SideAt(left, ring, u, p, p.x);
    SideAt(left, ring, d, p, p.x);
    assert p == Point(p.x, p.y);
    assert EdgeSide(left, ring, u, p) > 0.0 && EdgeSide(left, ring, d, p) > 0.0;
  }

  lemma OutsideRejected(left: bool, ring: Ring, p: Point, i: nat)
    requires Convex(left, ring) && i < |ring| && EdgeSide(left, ring, i, p) < 0.0
    ensures !InRing(p, ring)
  {
    hide Convex;
    if InRing(p, ring) {
      var u, d := AcceptedPasses(ring, p);
      BetweenEdges(left, ring, p, u, d);
      BoundaryInside(left, ring, i, u, p);
      BoundaryInside(left, ring, i, d, p);
      var a, b := Previous(ring, i), ring[i];
      assert p == Point(p.x, p.y);
      SideMonotone(a, b, p.y, p.x, At(ring, u, p));
      SideMonotone(a, b, p.y, p.x, At(ring, d, p));
    }
  }

  lemma AcceptedPasses(ring: Ring, p: Point) returns (u: nat, d: nat)
    requires InRing(p, ring)
    ensures u < |ring| && d < |ring| && Passes(ring, u, p, true) && Passes(ring, d, p, false)
  {
    if forall i :: 0 <= i < |ring| ==> !Crosses(p, ring[i], Previous(ring, i)) {
      NoCrossing(p, ring, |ring|);
    }
    var i :| 0 <= i < |ring| && Crosses(p, ring[i], Previous(ring, i));
    var j := Before(ring, i);
    if Above(ring[i], p) {
      u, d := PassesBothWays(ring, p, i, j);
    } else {
      u, d := PassesBothWays(ring, p, j, i);
    }
  }

  /** Along a horizontal line the side of an edge grows in one direction. */
  lemma SideMonotone(a: Point, b: Point, h: real, x: real, x': real)
    ensures Cross(a, b, Point(x, h)) == Cross(a, b, Point(x', h)) + (b.y - a.y) * (x' - x)
    ensures (b.y >= a.y && x <= x') || (b.y <= a.y && x >= x') ==> Cross(a, b, Point(x, h)) >= Cross(a, b, Point(x', h))
    ensures (b.y >= a.y && x >= x') || (b.y <= a.y && x <= x') ==> Cross(a, b, Point(x, h)) <= Cross(a, b, Point(x', h))
  {
    MulSign(b.y - a.y, x' - x);
    var v := b.y - a.y;
    assert v * (x' - a.x) - v * (x - a.x) == v * (x' - x);
  }

  // ---- a repeated closing vertex, and holes

  lemma {:induction false} ClosedParity(p: Point, ring: Ring, k: nat)
    requires 0 < k <= |ring|
    ensures Parity(p, ring + [ring[0]], k) == (Parity(p, ring, k) != Crosses(p, ring[0], Previous(ring, 0)))
  {
    var closed := ring + [ring[0]];
    if k > 1 {
      ClosedParity(p, ring, k - 1);
      assert closed[k - 1] == ring[k - 1] && Previous(closed, k - 1) == Previous(ring, k - 1);
    } else {
      assert !Parity(p, closed, 0) && !Parity(p, ring, 0);
    }
  }

  /** Repeating the first vertex at the end, as GeoJSON does, changes nothing. */
  lemma ClosingVertex(p: Point, ring: Ring)
    requires |ring| >= 3
    ensures InRing(p, ring + [ring[0]]) <==> InRing(p, ring)
  {
    var closed := ring + [ring[0]];
    ClosedParity(p, ring, |ring|);
    assert closed[|ring|] == ring[0] && Previous(closed, |ring|) == ring[|ring| - 1] == Previous(ring, 0);
  }

  /** A ring given with or without its closing vertex. */
  ghost predicate Given(shape: Ring, ring: Ring) {
    shape == ring || (ring != [] && shape == ring + [ring[0]])
  }

  ghost predicate Outside(left: bool, ring: Ring, p: Point) {
    exists i :: 0 <= i < |ring| && EdgeSide(left, ring, i, p) < 0.0
  }

  lemma GivenRing(left: bool, ring: Ring, shape: Ring, p: Point)
    requires Convex(left, ring) && Given(shape, ring)
    ensures Inside(left, ring, p) ==> InRing(p, shape)
    ensures Outside(left, ring, p) ==> !InRing(p, shape)
  {
    AtLeastThree(left, ring);
    ConvexRing(left, ring, p);
    ClosingVertex(p, ring);
  }

  /** A polygon of convex rings, each turning either way: inside the outer ring and outside every
      hole is inside; outside the outer ring or inside any hole is outside. */
  lemma ConvexPolygon(lefts: seq<bool>, rings: seq<Ring>, shapes: seq<Ring>, p: Point)
    requires |lefts| == |rings| == |shapes| > 0
    requires forall i :: 0 <= i < |rings| ==> Convex(lefts[i], rings[i]) && Given(shapes[i], rings[i])
    ensures Inside(lefts[0], rings[0], p) && (forall i :: 1 <= i < |rings| ==> Outside(lefts[i], rings[i], p)) ==> InPolygon(p, shapes)
    ensures Outside(lefts[0], rings[0], p) ==> !InPolygon(p, shapes)
    ensures (exists i :: 1 <= i < |rings| && Inside(lefts[i], rings[i], p)) ==> !InPolygon(p, shapes)
  {
    hide Convex, Given, Inside, Outside, InRing;
    forall i | 0 <= i < |rings|
      ensures (Inside(lefts[i], rings[i], p) ==> InRing(p, shapes[i])) && (Outside(lefts[i], rings[i], p) ==> !InRing(p, shapes[i]))
    {
      GivenRing(lefts[i], rings[i], shapes[i], p);
    }
  }
}
