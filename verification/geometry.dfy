/** Vertex coordinates, polylines, the geometric equality used by the duplicate
    detector, and axis-aligned bounding boxes. Coordinates are compared only for
    exact equality by the script, so they are integers here. */
module Geometry {
  import opened Outcomes

  datatype Coord = Coord(x: int, y: int)

  /** The vertex chain of a single-part line geometry (`asPolyline`). */
  type Polyline = seq<Coord>

  function Reverse(line: Polyline): (r: Polyline)
    ensures |r| == |line|
    ensures forall i :: 0 <= i < |line| ==> r[i] == line[|line| - 1 - i]
  {
    if line == [] then [] else Reverse(line[1..]) + [line[0]]
  }

  /** A chain and its reverse have the same vertices. */
  lemma ReverseSameVertices(line: Polyline)
    ensures forall p :: p in Reverse(line) <==> p in line
  {
    forall p | p in line
      ensures p in Reverse(line)
    {
      var i :| 0 <= i < |line| && line[i] == p;
      assert Reverse(line)[|line| - 1 - i] == p;
    }
  }

  /** `isGeosEqual` on line strings: the same vertex chain, in either
      direction. Equal chains have as many vertices, and the same ones. */
  predicate GeosEqual(a: Polyline, b: Polyline)
    ensures a == b ==> GeosEqual(a, b)
    ensures GeosEqual(a, b) ==> |a| == |b| && forall p :: p in a <==> p in b
  {
    ReverseSameVertices(b);
    a == b || a == Reverse(b)
  }

  /** GeosEqual is an equivalence relation. */
  lemma GeosEqualIsEquivalence(a: Polyline, b: Polyline, c: Polyline)
    ensures GeosEqual(a, a)
    ensures GeosEqual(a, b) ==> GeosEqual(b, a)
    ensures GeosEqual(a, b) && GeosEqual(b, c) ==> GeosEqual(a, c)
  {
  }

  /** A closed axis-aligned rectangle (`QgsRectangle`). */
  datatype Box = Box(minX: int, minY: int, maxX: int, maxY: int)

  predicate Contains(b: Box, p: Coord)
  {
    b.minX <= p.x <= b.maxX && b.minY <= p.y <= b.maxY
  }

  /** `b` is the smallest box holding every vertex of `line`: it holds them
      all and each of its four sides touches a vertex. */
  ghost predicate IsBoundingBox(b: Box, line: Polyline)
  {
    && (forall i :: 0 <= i < |line| ==> Contains(b, line[i]))
    && (exists i :: 0 <= i < |line| && line[i].x == b.minX)
    && (exists i :: 0 <= i < |line| && line[i].y == b.minY)
    && (exists i :: 0 <= i < |line| && line[i].x == b.maxX)
    && (exists i :: 0 <= i < |line| && line[i].y == b.maxY)
  }

  function Min(a: int, b: int): int { if a <= b then a else b }
  function Max(a: int, b: int): int { if a <= b then b else a }

  function Extend(b: Box, p: Coord): Box
  {
    Box(Min(b.minX, p.x), Min(b.minY, p.y), Max(b.maxX, p.x), Max(b.maxY, p.y))
  }

  /** `geometry.boundingBox()`; a chain without vertices has none. */
  function BoundingBox(line: Polyline): (r: Option<Box>)
    ensures r.None? <==> line == []
    ensures r.Some? ==> IsBoundingBox(r.value, line)
  {
    if line == [] then None
    else if |line| == 1 then Some(Box(line[0].x, line[0].y, line[0].x, line[0].y))
    else
      var init := line[..|line| - 1];
      var b := BoundingBox(init).value;
      var last := |line| - 1;
      assert forall i :: 0 <= i < |init| ==> init[i] == line[i];
      var i1 :| 0 <= i1 < |init| && init[i1].x == b.minX;
      var i2 :| 0 <= i2 < |init| && init[i2].y == b.minY;
      var i3 :| 0 <= i3 < |init| && init[i3].x == b.maxX;
      var i4 :| 0 <= i4 < |init| && init[i4].y == b.maxY;
      var e := Extend(b, line[last]);
      assert line[if e.minX == b.minX then i1 else last].x == e.minX;
      assert line[if e.minY == b.minY then i2 else last].y == e.minY;
      assert line[if e.maxX == b.maxX then i3 else last].x == e.maxX;
      assert line[if e.maxY == b.maxY then i4 else last].y == e.maxY;
      Some(e)
  }

  /** A bounding box of a chain whose vertices all lie in a second chain is
      enclosed by the second chain's bounding box. */
  lemma BoxEnclosed(ba: Box, a: Polyline, bb: Box, b: Polyline)
    requires IsBoundingBox(ba, a) && IsBoundingBox(bb, b)
    requires forall p :: p in a ==> p in b
    ensures bb.minX <= ba.minX && bb.minY <= ba.minY && ba.maxX <= bb.maxX && ba.maxY <= bb.maxY
  {
    var i1 :| 0 <= i1 < |a| && a[i1].x == ba.minX;
    var i2 :| 0 <= i2 < |a| && a[i2].y == ba.minY;
    var i3 :| 0 <= i3 < |a| && a[i3].x == ba.maxX;
    var i4 :| 0 <= i4 < |a| && a[i4].y == ba.maxY;
    assert a[i1] in b && a[i2] in b && a[i3] in b && a[i4] in b;
  }

  /** Two chains with the same vertices have the same bounding box. */
  lemma SameVerticesSameBox(a: Polyline, b: Polyline)
    requires forall p :: p in a <==> p in b
    ensures BoundingBox(a) == BoundingBox(b)
  {
    if b != [] {
      assert b[0] in a;
    }
    if a != [] {
      assert a[0] in b;
      var ba, bb := BoundingBox(a).value, BoundingBox(b).value;
      BoxEnclosed(ba, a, bb, b);
      BoxEnclosed(bb, b, ba, a);
      assert ba == bb;
    }
  }

  /** Equal geometries have equal bounding boxes, so a bounding-box prefilter
      never hides a duplicate. */
  lemma GeosEqualSameBox(a: Polyline, b: Polyline)
    requires GeosEqual(a, b)
    ensures BoundingBox(a) == BoundingBox(b)
  {
    SameVerticesSameBox(a, b);
  }

  /** A box whose sides are in order, as every bounding box is. */
  predicate WellFormed(b: Box)
  {
    b.minX <= b.maxX && b.minY <= b.maxY
  }

  /** `QgsRectangle.intersects`: closed rectangles sharing at least one point. */
  predicate Overlaps(a: Box, b: Box)
    ensures (exists p :: Contains(a, p) && Contains(b, p)) ==> Overlaps(a, b)
    ensures WellFormed(a) && WellFormed(b) && Overlaps(a, b) ==> exists p :: Contains(a, p) && Contains(b, p)
  {
    var corner := Coord(Max(a.minX, b.minX), Max(a.minY, b.minY));
    var r := a.minX <= b.maxX && b.minX <= a.maxX && a.minY <= b.maxY && b.minY <= a.maxY;
    assert WellFormed(a) && WellFormed(b) && r ==> Contains(a, corner) && Contains(b, corner);
    r
  }

  /** The bounding box of a chain overlaps itself. */
  lemma BoundingBoxSelfOverlaps(line: Polyline)
    requires line != []
    ensures Overlaps(BoundingBox(line).value, BoundingBox(line).value)
  {
  }
}
