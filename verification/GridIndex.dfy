/** The planar grid index of pkg/geo/index_2d.go: documents in cells, queries that skip
    the cells outside their box. */
module GridIndex {
  import opened Options
  import opened Geometry
  import opened InsertionSort

  type DocId = string
  datatype Cell = Cell(x: int, y: int)

  /** Go's conversion of a float to int truncates toward zero. */
  function Trunc(r: real): int { if r >= 0.0 then r.Floor else -((-r).Floor) }

  /** The nearest integer between zero and `r`. */
  lemma TruncTowardZero(r: real)
    ensures r >= 0.0 ==> 0 <= Trunc(r) && Trunc(r) as real <= r < Trunc(r) as real + 1.0
    ensures r <= 0.0 ==> Trunc(r) <= 0 && Trunc(r) as real - 1.0 < r <= Trunc(r) as real
  {
  }

  function CellOf(g: real, p: Point): Cell
    requires g > 0.0
  {
    Cell(Trunc(p.x / g), Trunc(p.y / g))
  }

  function CellBox(g: real, c: Cell): Box {
    Box(c.x as real * g, c.y as real * g, (c.x + 1) as real * g, (c.y + 1) as real * g)
  }

  // ---- when a point lies in the box of its own cell

  ghost predicate Aligned(v: real, g: real)
    requires g > 0.0
  {
    v >= 0.0 || v == Trunc(v / g) as real * g
  }

  lemma Quotient(v: real, g: real, k: int)
    requires g > 0.0
    ensures k as real <= v / g <==> k as real * g <= v
    ensures v / g <= k as real <==> v <= k as real * g
    ensures v / g == k as real <==> v == k as real * g
  {
    var q := v / g;
    assert q * g == v;
    assert (q - k as real) * g == v - k as real * g;
    Sign(q - k as real, g);
  }

  lemma Sign(a: real, g: real)
    requires g > 0.0
    ensures a >= 0.0 <==> a * g >= 0.0
    ensures a <= 0.0 <==> a * g <= 0.0
  {
  }

  /** A coordinate lies in the span of its cell exactly if it is nonnegative or an exact
      multiple of the grid size. */
  lemma CoordinateInCell(v: real, g: real)
    requires g > 0.0
    ensures var k := Trunc(v / g);
      k as real * g <= v <= (k + 1) as real * g <==> Aligned(v, g)
  {
    var k := Trunc(v / g);
    Quotient(v, g, k);
    Quotient(v, g, k + 1);
    Quotient(v, g, 0);
  }

  ghost predicate InOwnCell(p: Point, g: real)
    requires g > 0.0
  {
    Aligned(p.x, g) && Aligned(p.y, g)
  }

  lemma PointInCell(p: Point, g: real)
    requires g > 0.0
    ensures Contains(CellBox(g, CellOf(g, p)), p) <==> InOwnCell(p, g)
  {
    hide Trunc, Aligned;
    CoordinateInCell(p.x, g);
    CoordinateInCell(p.y, g);
  }

  // ---- the index

  /** Each document is in exactly the cell of its point, with that point, and no cell is empty. */
  ghost predicate Indexed(g: real, grid: map<Cell, map<DocId, Point>>, docs: map<DocId, Point>)
    requires g > 0.0
  {
    && (forall d :: d in docs ==> CellOf(g, docs[d]) in grid && d in grid[CellOf(g, docs[d])])
    && (forall c, d :: c in grid && d in grid[c] ==> d in docs && docs[d] == grid[c][d] && CellOf(g, docs[d]) == c)
    && (forall c :: c in grid ==> grid[c] != map[])
  }

  ghost predicate Covers(b: Box, docs: map<DocId, Point>) {
    forall d :: d in docs ==> Contains(b, docs[d])
  }

  lemma AddKeepsIndexed(g: real, grid: map<Cell, map<DocId, Point>>, docs: map<DocId, Point>, d: DocId, p: Point)
    requires g > 0.0 && d !in docs && Indexed(g, grid, docs)
    ensures var c := CellOf(g, p);
      Indexed(g, grid[c := (if c in grid then grid[c] else map[])[d := p]], docs[d := p])
  {
    hide CellOf;
    var c := CellOf(g, p);
    var cell := (if c in grid then grid[c] else map[])[d := p];
    var more, all := grid[c := cell], docs[d := p];
    forall x | x in all ensures CellOf(g, all[x]) in more && x in more[CellOf(g, all[x])] {
      if x != d {
        assert x in grid[CellOf(g, docs[x])];
      }
    }
    assert forall k :: k in grid ==> d !in grid[k];
    forall k, x | k in more && x in more[k] ensures x in all && all[x] == more[k][x] && CellOf(g, all[x]) == k {
      if x != d {
        assert k in grid && x in grid[k];
      }
    }
    assert d in cell;
  }

  class Index2D {
    const gridSize: real
    var grid: map<Cell, map<DocId, Point>>
    var docPoints: map<DocId, Point>
    var bounds: Box

    ghost predicate Valid()
      reads this
    {
      gridSize > 0.0 && Indexed(gridSize, grid, docPoints) && Covers(bounds, docPoints)
    }

    constructor (gridSize: real)
      ensures Valid() && docPoints == map[] && this.gridSize == if gridSize <= 0.0 then 1.0 else gridSize
    {
      this.gridSize := if gridSize <= 0.0 then 1.0 else gridSize;
      grid, docPoints, bounds := map[], map[], Box(0.0, 0.0, 0.0, 0.0);
    }

    method RemoveFromGrid(docID: DocId, point: Point)
      requires gridSize > 0.0 && Indexed(gridSize, grid, docPoints) && docID in docPoints && docPoints[docID] == point
      modifies `grid
      ensures Indexed(gridSize, grid, docPoints - {docID})
    {
      hide CellOf;
      var c := CellOf(gridSize, point);
      var cell := grid[c] - {docID};
      assert forall d :: d in grid[c] && d != docID ==> d in cell;
      if cell == map[] {
        grid := grid - {c};
      } else {
        grid := grid[c := cell];
      }
    }

    method AddToGrid(docID: DocId, point: Point)
      requires gridSize > 0.0 && docID !in docPoints && Indexed(gridSize, grid, docPoints)
      modifies `grid
      ensures Indexed(gridSize, grid, docPoints[docID := point])
    {
      var c := CellOf(gridSize, point);
      var cell := if c in grid then grid[c] else map[];
      AddKeepsIndexed(gridSize, grid, docPoints, docID, point);
      grid := grid[c := cell[docID := point]];
    }

    /** Files the document under its new point, wherever it was before. */
    method Insert(docID: DocId, point: Point)
      requires Valid()
      modifies this
      ensures Valid() && docPoints == old(docPoints)[docID := point]
      ensures bounds == if |docPoints| == 1 then Box(point.x, point.y, point.x, point.y) else Widen(old(bounds), point)
    {
      hide CellOf, Indexed;
      if docID in docPoints {
        RemoveFromGrid(docID, docPoints[docID]);
        docPoints := docPoints - {docID};
      }
      AddToGrid(docID, point);
      docPoints := docPoints[docID := point];
      assert docPoints == old(docPoints)[docID := point];
      UpdateBounds(docID, point);
    }

    method UpdateBounds(ghost docID: DocId, point: Point)
      requires docID in docPoints && docPoints[docID] == point && Covers(bounds, docPoints - {docID})
      modifies `bounds
      ensures Covers(bounds, docPoints)
      ensures bounds == if |docPoints| == 1 then Box(point.x, point.y, point.x, point.y) else Widen(old(bounds), point)
    {
      if |docPoints| == 1 {
        OnlyDoc(docPoints, docID);
        bounds := Box(point.x, point.y, point.x, point.y);
        return;
      }
      bounds := Widen(bounds, point);
      assert forall d :: d in docPoints && d != docID ==> d in docPoints - {docID};
    }

    method Remove(docID: DocId)
      requires Valid()
      modifies this
      ensures Valid() && docPoints == old(docPoints) - {docID} && bounds == old(bounds)
    {
      hide CellOf, Indexed;
      if docID !in docPoints {
        assert docPoints == docPoints - {docID};
        return;
      }
      RemoveFromGrid(docID, docPoints[docID]);
      docPoints := docPoints - {docID};
    }

    /** The wanted documents of one cell. */
    static method ScanCell(cell: map<DocId, Point>, keep: Point -> bool) returns (ids: seq<DocId>)
      ensures Distinct(ids) && forall d :: d in ids <==> d in cell && keep(cell[d])
    {
      ids := [];
      var left := cell.Keys;
      while left != {}
        invariant left <= cell.Keys
        invariant Distinct(ids) && forall d :: d in ids <==> d in cell && d !in left && keep(cell[d])
        decreases |left|
      {
        var d :| d in left;
        left := left - {d};
        if keep(cell[d]) {
          ids := ids + [d];
        }
      }
    }

    /** The shared part of the queries: visits the cells that meet `box` and keeps the
        wanted documents in them. */
    method Scan(box: Box, keep: Point -> bool) returns (ids: seq<DocId>)
      requires Valid()
      ensures Distinct(ids) && Exactly(ids, gridSize, docPoints, box, keep)
    {
      hide CellOf, CellBox, Intersects;
      ids := [];
      var cells := grid.Keys;
      while cells != {}
        invariant cells <= grid.Keys && Distinct(ids)
        invariant forall d :: d in ids <==>
          d in docPoints && CellOf(gridSize, docPoints[d]) !in cells && Reached(gridSize, docPoints[d], box) && keep(docPoints[d])
        decreases |cells|
      {
        var c :| c in cells;
        cells := cells - {c};
        if Intersects(CellBox(gridSize, c), box) {
          var more := ScanCell(grid[c], keep);
          DistinctAppend(ids, more);
          ids := ids + more;
        }
      }
    }

    method FindInBox(box: Box) returns (ids: seq<DocId>)
      requires Valid()
      ensures Distinct(ids) && Exactly(ids, gridSize, docPoints, box, p => Contains(box, p))
    {
      ids := Scan(box, p => Contains(box, p));
    }

    /** A polygon without an outer ring has no bounds, and intersecting a cell with them fails. */
    method FindWithin(rings: seq<Ring>) returns (r: Option<seq<DocId>>)
      requires Valid()
      ensures r.None? <==> (rings == [] || rings[0] == []) && docPoints != map[]
      ensures r.Some? && rings != [] && rings[0] != [] ==>
        exists box :: IsBounds(rings[0], box) && Distinct(r.value) && Exactly(r.value, gridSize, docPoints, box, p => InPolygon(p, rings))
      ensures docPoints == map[] ==> r == Some([])
    {
      hide CellOf, CellBox, Intersects, InPolygon, IsBounds, Distinct;
      var bounds := Bounds(rings);
      if bounds.Some? {
        var ids := Scan(bounds.value, p => InPolygon(p, rings));
        assert forall d :: d in ids ==> d in docPoints;
        assert ids == [] || ids[0] in ids;
        return Some(ids);
      }
      if grid == map[] {
        return Some([]);
      }
      assert docPoints != map[] by {
        var c :| c in grid;
        var d :| d in grid[c];
        assert d in docPoints;
      }
      return None;
    }

    /** The documents within `maxDistance` of the centre, nearest first, at most `limit` of
        them if that is positive. */
    method FindNear(center: Point, maxDistance: real, limit: int, sqrt: real -> real) returns (r: seq<Nearby>)
      requires Valid() && IsSquareRoot(sqrt)
      ensures Nearest(r, gridSize, docPoints, center, maxDistance, limit, sqrt)
    {
      hide CellOf, CellBox, Intersects, Distance, IsSquareRoot, Distinct, Indexed, Nearest, Reached, Sorted;
      var ids := Scan(SearchBox(center, maxDistance), p => Distance(center, p, sqrt) <= maxDistance);
      var docs := docPoints;
      var found := new Nearby[|ids|](i requires 0 <= i < |ids| && ids[i] in docs => Found(ids[i], docs, center, sqrt));
      ghost var all := found[..];
      Sort(found, Farther);
      r := found[..];
      SortedHits(ids, all, r, gridSize, docs, center, maxDistance, sqrt);
      Truncated(r, gridSize, docs, center, maxDistance, limit, sqrt);
      if limit > 0 && |r| > limit {
        r := r[..limit];
      }
    }
  }

  lemma DistinctAppend<T(!new)>(s: seq<T>, t: seq<T>)
    requires Distinct(s) && Distinct(t) && forall x :: x in s ==> x !in t
    ensures Distinct(s + t)
  {
    forall i, j | 0 <= i < j < |s + t| ensures (s + t)[i] != (s + t)[j] {
      assert i < |s| ==> (s + t)[i] in s;
      assert j >= |s| ==> (s + t)[j] in t;
    }
  }

  /** The cell of `p` meets `box`, so a query with that box looks at `p`. */
  predicate Reached(g: real, p: Point, box: Box)
    requires g > 0.0
  {
    Intersects(CellBox(g, CellOf(g, p)), box)
  }

  ghost predicate Exactly(ids: seq<DocId>, g: real, docs: map<DocId, Point>, box: Box, keep: Point -> bool)
    requires g > 0.0
  {
    forall d :: d in ids <==> d in docs && Reached(g, docs[d], box) && keep(docs[d])
  }

  datatype Nearby = Nearby(docID: DocId, point: Point, distance: real)

  ghost predicate IsSquareRoot(sqrt: real -> real) {
    forall v :: v >= 0.0 ==> sqrt(v) >= 0.0 && sqrt(v) * sqrt(v) == v
  }

  function Distance(a: Point, b: Point, sqrt: real -> real): real {
    sqrt((b.x - a.x) * (b.x - a.x) + (b.y - a.y) * (b.y - a.y))
  }

  /** The distance is the Euclidean one. */
  lemma DistanceIsEuclidean(a: Point, b: Point, sqrt: real -> real)
    requires IsSquareRoot(sqrt)
    ensures Distance(a, b, sqrt) >= 0.0
    ensures Distance(a, b, sqrt) * Distance(a, b, sqrt) == (a.x - b.x) * (a.x - b.x) + (a.y - b.y) * (a.y - b.y)
    ensures Distance(a, b, sqrt) == Distance(b, a, sqrt)
  {
    var x, y := b.x - a.x, b.y - a.y;
    SquareSign(x);
    SquareSign(y);
    assert a.x - b.x == -x && a.y - b.y == -y;
  }

  lemma SquareSign(x: real)
    ensures x * x >= 0.0 && (-x) * (-x) == x * x
  {
  }

  function SearchBox(c: Point, m: real): Box { Box(c.x - m, c.y - m, c.x + m, c.y + m) }

  predicate Farther(a: Nearby, b: Nearby) { a.distance > b.distance }

  function Found(d: DocId, docs: map<DocId, Point>, center: Point, sqrt: real -> real): Nearby
    requires d in docs
  {
    Nearby(d, docs[d], Distance(center, docs[d], sqrt))
  }

  ghost predicate Wanted(d: DocId, g: real, docs: map<DocId, Point>, center: Point, m: real, sqrt: real -> real)
    requires g > 0.0
  {
    d in docs && Reached(g, docs[d], SearchBox(center, m)) && Distance(center, docs[d], sqrt) <= m
  }

  /** Wanted documents, each once, nearest first; one is missing only if the limit is used
      up by documents at least as near. */
  ghost predicate Nearest(r: seq<Nearby>, g: real, docs: map<DocId, Point>, center: Point, m: real, limit: int, sqrt: real -> real)
    requires g > 0.0
  {
    && (forall k :: 0 <= k < |r| ==> Wanted(r[k].docID, g, docs, center, m, sqrt) && r[k] == Found(r[k].docID, docs, center, sqrt))
    && (forall j, k :: 0 <= j < k < |r| ==> r[j].docID != r[k].docID && r[j].distance <= r[k].distance)
    && (forall d :: Wanted(d, g, docs, center, m, sqrt) && Found(d, docs, center, sqrt) !in r ==>
          limit > 0 && |r| == limit && forall k :: 0 <= k < |r| ==> r[k].distance <= Distance(center, docs[d], sqrt))
    && (limit > 0 ==> |r| <= limit)
  }

  lemma SortedFacts(ids: seq<DocId>, all: seq<Nearby>, r: seq<Nearby>)
    requires Distinct(ids) && |all| == |ids| && forall i :: 0 <= i < |ids| ==> all[i].docID == ids[i]
    requires r == Sorted(all, Farther)
    ensures Distinct(r) && multiset(all) == multiset(r)
    ensures forall j, k :: 0 <= j < k < |r| ==> r[j].distance <= r[k].distance
  {
    hide Sorted;
    SortedPermutes(all, Farther);
    SortedInOrder(all, Farther);
    DistinctPermuted(all, r);
  }

  lemma FoundIds(ids: seq<DocId>, all: seq<Nearby>, docs: map<DocId, Point>, center: Point, sqrt: real -> real)
    requires |all| == |ids| && forall i :: 0 <= i < |ids| ==> ids[i] in docs && all[i] == Found(ids[i], docs, center, sqrt)
    ensures forall i :: 0 <= i < |ids| ==> all[i].docID == ids[i]
  {
  }

  /** Sorting the hits by distance keeps every one of them once. */
  lemma SortedHits(ids: seq<DocId>, all: seq<Nearby>, r: seq<Nearby>, g: real, docs: map<DocId, Point>, center: Point, m: real, sqrt: real -> real)
    requires g > 0.0 && Distinct(ids) && Exactly(ids, g, docs, SearchBox(center, m), p => Distance(center, p, sqrt) <= m)
    requires |all| == |ids| && forall i :: 0 <= i < |ids| ==> ids[i] in docs && all[i] == Found(ids[i], docs, center, sqrt)
    requires r == Sorted(all, Farther)
    ensures Nearest(r, g, docs, center, m, 0, sqrt)
  {
    hide Sorted, InOrder, Reached, Distance, Distinct, Exactly, Found;
    FoundIds(ids, all, docs, center, sqrt);
    SortedFacts(ids, all, r);
    forall k | 0 <= k < |r| ensures Wanted(r[k].docID, g, docs, center, m, sqrt) && r[k] == Found(r[k].docID, docs, center, sqrt) {
      SameElements(all, r, r[k]);
      HitIsWanted(ids, all, r[k], g, docs, center, m, sqrt);
    }
    forall d | Wanted(d, g, docs, center, m, sqrt) ensures Found(d, docs, center, sqrt) in r {
      SameElements(all, r, Found(d, docs, center, sqrt));
      WantedIsHit(ids, all, d, g, docs, center, m, sqrt);
    }
    DistinctApart(r);
  }

  lemma HitIsWanted(ids: seq<DocId>, all: seq<Nearby>, x: Nearby, g: real, docs: map<DocId, Point>, center: Point, m: real, sqrt: real -> real)
    requires g > 0.0 && x in all && Exactly(ids, g, docs, SearchBox(center, m), p => Distance(center, p, sqrt) <= m)
    requires |all| == |ids| && forall i :: 0 <= i < |ids| ==> ids[i] in docs && all[i] == Found(ids[i], docs, center, sqrt)
    ensures Wanted(x.docID, g, docs, center, m, sqrt) && x == Found(x.docID, docs, center, sqrt)
  {
    hide Reached, Distance;
    var i :| 0 <= i < |all| && all[i] == x;
    assert ids[i] in ids;
  }

  lemma WantedIsHit(ids: seq<DocId>, all: seq<Nearby>, d: DocId, g: real, docs: map<DocId, Point>, center: Point, m: real, sqrt: real -> real)
    requires g > 0.0 && Exactly(ids, g, docs, SearchBox(center, m), p => Distance(center, p, sqrt) <= m)
    requires |all| == |ids| && forall i :: 0 <= i < |ids| ==> ids[i] in docs && all[i] == Found(ids[i], docs, center, sqrt)
    requires Wanted(d, g, docs, center, m, sqrt)
    ensures Found(d, docs, center, sqrt) in all
  {
    hide Reached, Distance;
    assert d in ids;
    var i :| 0 <= i < |ids| && ids[i] == d;
    assert all[i] in all;
  }

  lemma DistinctApart<T(!new)>(s: seq<T>)
    requires Distinct(s)
    ensures forall j, k :: 0 <= j < k < |s| ==> s[j] != s[k]
  {
  }

  lemma Truncated(r: seq<Nearby>, g: real, docs: map<DocId, Point>, center: Point, m: real, limit: int, sqrt: real -> real)
    requires g > 0.0 && Nearest(r, g, docs, center, m, 0, sqrt)
    ensures Nearest(if limit > 0 && |r| > limit then r[..limit] else r, g, docs, center, m, limit, sqrt)
  {
    hide Reached, Distance;
    if limit > 0 && |r| > limit {
      var t := r[..limit];
      forall d | Wanted(d, g, docs, center, m, sqrt) && Found(d, docs, center, sqrt) !in t
        ensures forall k :: 0 <= k < |t| ==> t[k].distance <= Distance(center, docs[d], sqrt)
      {
        CutOff(r, limit, Found(d, docs, center, sqrt));
      }
    }
  }

  /** In an ordered list everything cut off is at least as far as everything kept. */
  lemma CutOff(r: seq<Nearby>, limit: nat, x: Nearby)
    requires limit <= |r| && x in r && x !in r[..limit]
    requires forall j, k :: 0 <= j < k < |r| ==> r[j].distance <= r[k].distance
    ensures forall k :: 0 <= k < limit ==> r[k].distance <= x.distance
  {
    var i :| 0 <= i < |r| && r[i] == x;
    assert forall k :: 0 <= k < limit ==> r[k] in r[..limit];
  }

  // ---- pruning against brute force

  ghost predicate AllInOwnCell(g: real, docs: map<DocId, Point>)
    requires g > 0.0
  {
    forall d :: d in docs ==> InOwnCell(docs[d], g)
  }

  /** No query box makes the grid miss a point that lies in the box. */
  ghost predicate NothingMissed(g: real, docs: map<DocId, Point>)
    requires g > 0.0
  {
    forall d, box :: d in docs && Contains(box, docs[d]) ==> Reached(g, docs[d], box)
  }

  /** Skipping cells is harmless for every box exactly if every indexed point has
      coordinates that are nonnegative or exact multiples of the grid size. */
  lemma PruningIsExact(g: real, docs: map<DocId, Point>)
    requires g > 0.0
    ensures NothingMissed(g, docs) <==> AllInOwnCell(g, docs)
  {
    hide CellOf, CellBox, Aligned, InOwnCell;
    forall d | d in docs ensures Contains(CellBox(g, CellOf(g, docs[d])), docs[d]) <==> InOwnCell(docs[d], g) {
      PointInCell(docs[d], g);
    }
    if NothingMissed(g, docs) {
      forall d | d in docs ensures InOwnCell(docs[d], g) {
        var p := docs[d];
        assert Contains(Box(p.x, p.y, p.x, p.y), p);
      }
    }
  }

  /** A document just left of the axis is missed by a box around it. */
  lemma NegativePointMissed()
    ensures !NothingMissed(1.0, map["a" := Point(-0.5, 0.5)])
  {
    var p := Point(-0.5, 0.5);
    var docs: map<DocId, Point> := map["a" := p];
    var box := Box(-0.75, 0.0, -0.25, 1.0);
    assert docs["a"] == p && Contains(box, p);
    assert Trunc(p.x / 1.0) == 0;
    assert !Reached(1.0, docs["a"], box);
  }

  /** Everything within the distance lies in the search box. */
  lemma NearInSearchBox(center: Point, p: Point, m: real, sqrt: real -> real)
    requires IsSquareRoot(sqrt) && Distance(center, p, sqrt) <= m
    ensures Contains(SearchBox(center, m), p)
  {
    var dx, dy, d := p.x - center.x, p.y - center.y, Distance(center, p, sqrt);
    Squares(dx, dy, d, m);
    Squares(dy, dx, d, m);
  }

  lemma Squares(dx: real, dy: real, d: real, m: real)
    requires 0.0 <= d <= m && d * d == dx * dx + dy * dy
    ensures -m <= dx <= m
  {
    assert dy * dy >= 0.0;
    assert dx * dx <= d * d;
    assert (dx - d) * (dx + d) == dx * dx - d * d == (-dx - d) * (-dx + d);
    if dx > d {
      Product(dx - d, dx + d);
    } else if -dx > d {
      Product(-dx - d, -dx + d);
    }
  }

  lemma Product(a: real, b: real)
    requires a > 0.0 && b > 0.0
    ensures a * b > 0.0
  {
  }

  /** With such points a box query returns exactly the documents in the box. */
  lemma BoxQueryIsBruteForce(ids: seq<DocId>, g: real, docs: map<DocId, Point>, box: Box)
    requires g > 0.0 && AllInOwnCell(g, docs) && Exactly(ids, g, docs, box, p => Contains(box, p))
    ensures forall d :: d in ids <==> d in docs && Contains(box, docs[d])
  {
    hide CellOf, CellBox, InOwnCell;
    PruningIsExact(g, docs);
  }

  /** What a polygon query visits and accepts is every document inside the polygon. */
  ghost predicate PolygonAnswered(g: real, docs: map<DocId, Point>, box: Box, rings: seq<Ring>)
    requires g > 0.0
  {
    forall d :: d in docs && InPolygon(docs[d], rings) ==> Reached(g, docs[d], box)
  }

  ghost predicate PolygonsAnswered(g: real, docs: map<DocId, Point>)
    requires g > 0.0
  {
    forall box, rings: seq<Ring> :: rings != [] && IsBounds(rings[0], box) ==> PolygonAnswered(g, docs, box, rings)
  }

  /** A query's answer is that of brute force exactly if it visits all it should. */
  lemma PolygonAnswerIs(ids: seq<DocId>, g: real, docs: map<DocId, Point>, box: Box, rings: seq<Ring>)
    requires g > 0.0 && Exactly(ids, g, docs, box, p => InPolygon(p, rings))
    ensures (forall d :: d in ids <==> d in docs && InPolygon(docs[d], rings)) <==> PolygonAnswered(g, docs, box, rings)
  {
    hide CellOf, CellBox, InPolygon, Reached;
  }

  function Square(p: Point, e: real): Ring {
    [Point(p.x - e, p.y - e), Point(p.x + e, p.y - e), Point(p.x + e, p.y + e), Point(p.x - e, p.y + e)]
  }

  /** Ray casting accepts the middle of a square. */
  lemma MiddleOfSquare(p: Point, e: real)
    requires e > 0.0
    ensures InPolygon(p, [Square(p, e)])
    ensures IsBounds(Square(p, e), Box(p.x - e, p.y - e, p.x + e, p.y + e))
  {
    var ring := Square(p, e);
    assert !Crosses(p, ring[0], Previous(ring, 0)) by { Vertical(p, ring[0], ring[3]); }
    assert !Crosses(p, ring[1], Previous(ring, 1));
    assert Crosses(p, ring[2], Previous(ring, 2)) by { Vertical(p, ring[2], ring[1]); }
    assert !Crosses(p, ring[3], Previous(ring, 3));
    assert !Parity(p, ring, 0);
    assert !Parity(p, ring, 1);
    assert !Parity(p, ring, 2);
    assert Parity(p, ring, 3);
    assert Parity(p, ring, 4);
    assert ring[0].x == p.x - e && ring[1].x == p.x + e && ring[0].y == p.y - e && ring[2].y == p.y + e;
  }

  lemma Vertical(p: Point, a: Point, b: Point)
    requires Above(a, p) != Above(b, p) && a.x == b.x
    ensures Abscissa(p, a, b) == a.x
  {
    var n, d := p.y - a.y, b.y - a.y;
    assert (b.x - a.x) * n == 0.0;
    assert 0.0 / d == 0.0;
  }

  /** Around a point outside a box there is a square that does not meet the box. */
  lemma SquareBeside(p: Point, cell: Box) returns (e: real)
    requires !Contains(cell, p)
    ensures e > 0.0 && !Intersects(cell, Box(p.x - e, p.y - e, p.x + e, p.y + e))
  {
    e := if p.x < cell.minX then (cell.minX - p.x) / 2.0
         else if p.x > cell.maxX then (p.x - cell.maxX) / 2.0
         else if p.y < cell.minY then (cell.minY - p.y) / 2.0
         else (p.y - cell.maxY) / 2.0;
  }

  /** Every polygon query answers as brute force does exactly if every indexed point lies in its
      own cell. */
  lemma PolygonQueryIsBruteForce(g: real, docs: map<DocId, Point>)
    requires g > 0.0
    ensures PolygonsAnswered(g, docs) <==> AllInOwnCell(g, docs)
  {
    hide CellOf, CellBox, InOwnCell, InPolygon, IsBounds, Square, Contains, Intersects;
    if AllInOwnCell(g, docs) {
      PruningIsExact(g, docs);
      forall box, rings: seq<Ring>, d | rings != [] && IsBounds(rings[0], box) && d in docs && InPolygon(docs[d], rings)
        ensures Reached(g, docs[d], box)
      {
        PolygonWithinBounds(docs[d], rings, box);
      }
    }
    if PolygonsAnswered(g, docs) {
      forall d | d in docs ensures InOwnCell(docs[d], g) {
        PolygonFindsCell(g, docs, d);
      }
    }
  }

  lemma PolygonFindsCell(g: real, docs: map<DocId, Point>, d: DocId)
    requires g > 0.0 && PolygonsAnswered(g, docs) && d in docs
    ensures InOwnCell(docs[d], g)
  {
    hide CellOf, CellBox, InOwnCell, InPolygon, IsBounds, Square, Contains, Intersects;
    var p, cell := docs[d], CellBox(g, CellOf(g, docs[d]));
    PointInCell(p, g);
    if !Contains(cell, p) {
      var e := SquareBeside(p, cell);
      SquareReached(g, docs, d, e);
      assert false;
    }
  }

  lemma SquareReached(g: real, docs: map<DocId, Point>, d: DocId, e: real)
    requires g > 0.0 && PolygonsAnswered(g, docs) && d in docs && e > 0.0
    ensures Reached(g, docs[d], Box(docs[d].x - e, docs[d].y - e, docs[d].x + e, docs[d].y + e))
  {
    hide CellOf, CellBox, InPolygon, IsBounds, Square, Intersects;
    var p := docs[d];
    MiddleOfSquare(p, e);
    var box, rings := Box(p.x - e, p.y - e, p.x + e, p.y + e), [Square(p, e)];
    assert rings[0] == Square(p, e) && PolygonAnswered(g, docs, box, rings);
  }

  /** Every nearness query considers exactly the documents within its distance. */
  ghost predicate NearAnswered(g: real, docs: map<DocId, Point>, sqrt: real -> real)
    requires g > 0.0
  {
    forall d, center, m :: Wanted(d, g, docs, center, m, sqrt) <==> d in docs && Distance(center, docs[d], sqrt) <= m
  }

  /** Again exactly if every indexed point lies in its own cell. */
  lemma NearQueryIsBruteForce(g: real, docs: map<DocId, Point>, sqrt: real -> real)
    requires g > 0.0 && IsSquareRoot(sqrt)
    ensures NearAnswered(g, docs, sqrt) <==> AllInOwnCell(g, docs)
  {
    hide CellOf, CellBox, InOwnCell, Distance, IsSquareRoot;
    if AllInOwnCell(g, docs) {
      PruningIsExact(g, docs);
      forall d, center, m | d in docs && Distance(center, docs[d], sqrt) <= m ensures Reached(g, docs[d], SearchBox(center, m)) {
        NearInSearchBox(center, docs[d], m, sqrt);
      }
    }
    if NearAnswered(g, docs, sqrt) {
      forall d | d in docs ensures InOwnCell(docs[d], g) {
        NoDistance(docs[d], sqrt);
        assert Wanted(d, g, docs, docs[d], 0.0, sqrt);
        PointInCell(docs[d], g);
      }
    }
  }

  lemma PositiveSquare(z: real, q: real)
    requires z * z == q
    ensures z > 0.0 ==> q > 0.0
  {
    if z > 0.0 {
      var w := 1.0 / z;
      assert w * z == 1.0;
      assert q * w == (w * z) * z;
      Sign(q, w);
    }
  }

  lemma NoDistance(p: Point, sqrt: real -> real)
    requires IsSquareRoot(sqrt)
    ensures Distance(p, p, sqrt) <= 0.0
  {
    var z := sqrt(0.0);
    assert z * z == 0.0;
    assert (p.x - p.x) * (p.x - p.x) + (p.y - p.y) * (p.y - p.y) == 0.0;
    assert Distance(p, p, sqrt) == z;
    PositiveSquare(z, 0.0);
  }

  lemma OnlyDoc(docs: map<DocId, Point>, d: DocId)
    requires d in docs && |docs| == 1
    ensures forall x :: x in docs ==> x == d
  {
    assert |docs.Keys - {d}| == 0;
    forall x | x in docs ensures x == d {
      assert x !in docs.Keys - {d};
    }
  }
}
