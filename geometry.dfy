/**
  * Integer plane geometry behind the flip-graph tool: points, coordinate-identified
  * line segments and the orientation-based crossing test.
  */
module Geometry {

  /** A node position on the canvas (integer pixel coordinates). */
  datatype Point = Point(x: int, y: int)

  /** An edge, stored as the two endpoint coordinates in the order it was created. */
  datatype Line = Line(p1: Point, p2: Point)

  /** Line equality of the source: the same two endpoints, in either order. */
  predicate SameLine(a: Line, b: Line)
  {
    (a.p1 == b.p1 && a.p2 == b.p2) || (a.p1 == b.p2 && a.p2 == b.p1)
  }

  function Reversed(l: Line): Line
  {
    Line(l.p2, l.p1)
  }

  /** Twice the signed area of the triangle a, b, c. */
  function Orient(a: Point, b: Point, c: Point): int
  {
    (b.x - a.x) * (c.y - a.y) - (b.y - a.y) * (c.x - a.x)
  }

  /** The turn test used by the crossing check, written as the source compares the two products. */
  predicate IsClockwise(a: Point, b: Point, c: Point)
  {
    (c.y - a.y) * (b.x - a.x) > (b.y - a.y) * (c.x - a.x)
  }

  predicate SharesEndpoint(l: Line, m: Line)
  {
    l.p1 == m.p1 || l.p1 == m.p2 || l.p2 == m.p1 || l.p2 == m.p2
  }

  /**
    * The crossing test: segments with a common endpoint never cross; otherwise each
    * segment's endpoints must lie on different sides of the other.
    */
  predicate Intersect(l: Line, m: Line)
  {
    if SharesEndpoint(l, m) then false
    else
      IsClockwise(l.p1, m.p1, m.p2) != IsClockwise(l.p2, m.p1, m.p2)
      && IsClockwise(l.p1, l.p2, m.p1) != IsClockwise(l.p1, l.p2, m.p2)
  }

  /** No three of the given points lie on one straight line. */
  ghost predicate GeneralPosition(ps: set<Point>)
  {
    forall a, b, c {:trigger Orient(a, b, c)} ::
      a in ps && b in ps && c in ps && a != b && b != c && a != c ==> Orient(a, b, c) != 0
  }

  lemma GeneralPositionSubset(ps: set<Point>, qs: set<Point>)
    requires GeneralPosition(ps) && qs <= ps
    ensures GeneralPosition(qs)
  {
  }

  lemma SameLineUnordered(p: Point, q: Point, l: Line, m: Line)
    ensures SameLine(Line(p, q), Line(q, p))
    ensures SameLine(l, m) == SameLine(m, l)
    ensures SameLine(l, l)
  {
  }

  lemma SameLineTransitive(a: Line, b: Line, c: Line)
    requires SameLine(a, b) && SameLine(b, c)
    ensures SameLine(a, c)
  {
  }

  lemma ClockwiseIsPositiveOrient(a: Point, b: Point, c: Point)
    ensures IsClockwise(a, b, c) <==> Orient(a, b, c) > 0
  {
  }

  /** The orientation is unchanged by rotating its three arguments. */
  lemma OrientRotate(a: Point, b: Point, c: Point)
    ensures Orient(b, c, a) == Orient(a, b, c)
  {
    var u, v := b.x - a.x, b.y - a.y;
    var s, t := c.x - a.x, c.y - a.y;
    calc {
      Orient(b, c, a);
      (c.x - b.x) * (a.y - b.y) - (c.y - b.y) * (a.x - b.x);
      (s - u) * (0 - v) - (t - v) * (0 - u);
      { assert (s - u) * (0 - v) == v * u - s * v; assert (t - v) * (0 - u) == u * v - t * u; }
      t * u - s * v;
      { assert t * u == u * t && s * v == v * s; }
      u * t - v * s;
      Orient(a, b, c);
    }
  }

  /** Swapping the first two arguments negates the orientation. */
  lemma OrientSwap(a: Point, b: Point, c: Point)
    ensures Orient(b, a, c) == -Orient(a, b, c)
  {
    var u, v := b.x - a.x, b.y - a.y;
    var s, t := c.x - a.x, c.y - a.y;
    calc {
      Orient(b, a, c);
      (a.x - b.x) * (c.y - b.y) - (a.y - b.y) * (c.x - b.x);
      (0 - u) * (t - v) - (0 - v) * (s - u);
      { assert (0 - u) * (t - v) == u * v - u * t; assert (0 - v) * (s - u) == v * u - v * s; }
      v * s - u * t;
      -Orient(a, b, c);
    }
  }

  lemma ClockwiseRotate(a: Point, b: Point, c: Point)
    ensures IsClockwise(b, c, a) == IsClockwise(a, b, c)
  {
    OrientRotate(a, b, c);
    ClockwiseIsPositiveOrient(a, b, c);
    ClockwiseIsPositiveOrient(b, c, a);
  }

  /** A segment never crosses a segment it shares an endpoint with, itself included. */
  lemma IntersectSharedEndpoint(l: Line, m: Line)
    requires SharesEndpoint(l, m) || SameLine(l, m)
    ensures !Intersect(l, m) && !Intersect(l, l)
  {
  }

  /** The crossing test does not depend on which segment is asked first. */
  lemma IntersectSymmetric(l: Line, m: Line)
    ensures Intersect(l, m) == Intersect(m, l)
  {
    var a, b, c, d := l.p1, l.p2, m.p1, m.p2;
    if !SharesEndpoint(l, m) {
      // IsClockwise(c, a, b) == IsClockwise(a, b, c), and likewise for the other three turns
      ClockwiseRotate(a, b, c);
      ClockwiseRotate(a, b, d);
      ClockwiseRotate(c, d, a);
      ClockwiseRotate(c, d, b);
      ClockwiseRotate(a, c, d);
      ClockwiseRotate(b, c, d);
      ClockwiseRotate(c, a, b);
      ClockwiseRotate(d, a, b);
    }
  }

  /**
    * Storing a segment's endpoints the other way round does not change the crossing test,
    * provided neither endpoint of the other segment is collinear with it.
    */
  lemma IntersectReversedFirst(l: Line, m: Line)
    requires !SharesEndpoint(l, m) ==> Orient(l.p1, l.p2, m.p1) != 0 && Orient(l.p1, l.p2, m.p2) != 0
    ensures Intersect(Reversed(l), m) == Intersect(l, m)
  {
    var a, b := l.p1, l.p2;
    if !SharesEndpoint(l, m) {
      OrientSwap(a, b, m.p1);
      OrientSwap(a, b, m.p2);
      ClockwiseIsPositiveOrient(a, b, m.p1);
      ClockwiseIsPositiveOrient(a, b, m.p2);
      ClockwiseIsPositiveOrient(b, a, m.p1);
      ClockwiseIsPositiveOrient(b, a, m.p2);
    }
  }

  /**
    * Two equal lines (in the unordered sense) cross the same segments when the points
    * involved are in general position.
    */
  lemma IntersectSameLine(l1: Line, l2: Line, m: Line)
    requires SameLine(l1, l2)
    requires GeneralPosition({l1.p1, l1.p2, m.p1, m.p2})
    ensures Intersect(l1, m) == Intersect(l2, m)
  {
    if l1 != l2 {
      assert l2 == Reversed(l1);
      if !SharesEndpoint(l1, m) && l1.p1 != l1.p2 {
        var ps := {l1.p1, l1.p2, m.p1, m.p2};
        assert l1.p1 in ps && l1.p2 in ps && m.p1 in ps && m.p2 in ps;
      }
      IntersectReversedFirst(l1, m);
    }
  }

  /** The same, for the second argument of the test. */
  lemma IntersectSameLineSecond(l: Line, m1: Line, m2: Line)
    requires SameLine(m1, m2)
    requires GeneralPosition({l.p1, l.p2, m1.p1, m1.p2})
    ensures Intersect(l, m1) == Intersect(l, m2)
  {
    IntersectSymmetric(l, m1);
    IntersectSymmetric(l, m2);
    assert {m1.p1, m1.p2, l.p1, l.p2} == {l.p1, l.p2, m1.p1, m1.p2};
    IntersectSameLine(m1, m2, l);
  }

  /**
    * Without general position the test does depend on the stored endpoint order: a segment
    * whose endpoint touches the interior of another is reported as crossing it in one order only.
    */
  lemma IntersectDependsOnStoredOrder()
    ensures var a, b, c, d := Point(0, 0), Point(2, 0), Point(1, 0), Point(1, -1);
            SameLine(Line(a, b), Line(b, a)) && !Intersect(Line(a, b), Line(c, d)) && Intersect(Line(b, a), Line(c, d))
  {
  }
}
