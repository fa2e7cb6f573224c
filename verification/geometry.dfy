/** Points, lines and the two-line intersection used to build the grid cells. */
module Geometry {
  import opened Outcomes

  /** A point in image pixel space; x grows to the right and y grows downwards. */
  datatype Point = Point(x: real, y: real)

  /** A point with integer coordinates: a polygon vertex or an interpolated edge point. */
  datatype IntPoint = IntPoint(x: int, y: int)

  /** The infinite line through two points. */
  datatype Line = Line(start: Point, end: Point)

  /** An OpenCV rectangle: origin and size, all integers. */
  datatype Rect = Rect(x: int, y: int, width: int, height: int)

  /** The four ordered corners of the grid boundary. */
  datatype Quad = Quad(topLeft: IntPoint, topRight: IntPoint, bottomLeft: IntPoint, bottomRight: IntPoint)

  function AsReal(p: IntPoint): Point {
    Point(p.x as real, p.y as real)
  }

  /** The 2x2 determinant of the matrix whose rows are a and b. */
  function Det(a: Point, b: Point): real {
    a.x * b.y - a.y * b.x
  }

  /** p lies on the line: the vector from the line's start to p is collinear with its direction. */
  predicate OnLine(p: Point, l: Line) {
    (l.end.x - l.start.x) * (p.y - l.start.y) == (l.end.y - l.start.y) * (p.x - l.start.x)
  }

  /** Both points a line is drawn through lie on it. */
  lemma EndsOnLine(l: Line)
    ensures OnLine(l.start, l) && OnLine(l.end, l)
  {
    var dx, dy := l.end.x - l.start.x, l.end.y - l.start.y;
    assert dx * (l.start.y - l.start.y) == 0.0 == dy * (l.start.x - l.start.x);
    assert dx * (l.end.y - l.start.y) == dx * dy == dy * (l.end.x - l.start.x);
  }

  /** The directions of the two lines are collinear (this includes a line whose two points coincide). */
  predicate Parallel(l: Line, m: Line) {
    (l.end.x - l.start.x) * (m.end.y - m.start.y) == (l.end.y - l.start.y) * (m.end.x - m.start.x)
  }

  /**
   * find_intersections: the determinant formula. It fails with "lines do not intersect"
   * exactly for parallel lines, and otherwise returns a point on both lines.
   * Arithmetic is exact; the source divides IEEE doubles.
   */
  function FindIntersection(rowLine: Line, colLine: Line): (r: Result<Point>)
    ensures r.Err? <==> Parallel(rowLine, colLine)
    ensures r.Err? ==> r.error == Thrown(LinesDoNotIntersect)
    ensures r.Ok? ==> OnLine(r.value, rowLine) && OnLine(r.value, colLine)
  {
    var xdiff := Point(rowLine.start.x - rowLine.end.x, colLine.start.x - colLine.end.x);
    var ydiff := Point(rowLine.start.y - rowLine.end.y, colLine.start.y - colLine.end.y);
    var div := Det(xdiff, ydiff);
    ParallelIffSingular(rowLine, colLine);
    if div == 0.0 then
      Err(Thrown(LinesDoNotIntersect))
    else
      var d := Point(Det(rowLine.start, rowLine.end), Det(colLine.start, colLine.end));
      IntersectionOnBothLines(rowLine, colLine);
      Ok(Point(Det(d, xdiff) / div, Det(d, ydiff) / div))
  }

  /** The point FindIntersection computes for non-parallel lines lies on both of them. */
  lemma IntersectionOnBothLines(rowLine: Line, colLine: Line)
    requires !Parallel(rowLine, colLine)
    ensures var xdiff := Point(rowLine.start.x - rowLine.end.x, colLine.start.x - colLine.end.x);
            var ydiff := Point(rowLine.start.y - rowLine.end.y, colLine.start.y - colLine.end.y);
            var div := Det(xdiff, ydiff);
            var d := Point(Det(rowLine.start, rowLine.end), Det(colLine.start, colLine.end));
            div != 0.0
            && OnLine(Point(Det(d, xdiff) / div, Det(d, ydiff) / div), rowLine)
            && OnLine(Point(Det(d, xdiff) / div, Det(d, ydiff) / div), colLine)
  {
    ParallelIffSingular(rowLine, colLine);
    CrossingOnRowLine(rowLine, colLine);
    CrossingOnColumnLine(rowLine, colLine);
  }

  /** The row-line half of IntersectionOnBothLines. */
  lemma CrossingOnRowLine(rowLine: Line, colLine: Line)
    requires !Parallel(rowLine, colLine)
    ensures var xdiff := Point(rowLine.start.x - rowLine.end.x, colLine.start.x - colLine.end.x);
            var ydiff := Point(rowLine.start.y - rowLine.end.y, colLine.start.y - colLine.end.y);
            var div := Det(xdiff, ydiff);
            var d := Point(Det(rowLine.start, rowLine.end), Det(colLine.start, colLine.end));
            div != 0.0 && OnLine(Point(Det(d, xdiff) / div, Det(d, ydiff) / div), rowLine)
  {
    var xdiff := Point(rowLine.start.x - rowLine.end.x, colLine.start.x - colLine.end.x);
    var ydiff := Point(rowLine.start.y - rowLine.end.y, colLine.start.y - colLine.end.y);
    var d := Point(Det(rowLine.start, rowLine.end), Det(colLine.start, colLine.end));
    var div, X, Y := Det(xdiff, ydiff), Det(d, xdiff), Det(d, ydiff);
    assert div != 0.0 by {
      ParallelIffSingular(rowLine, colLine);
    }
    assert OnLine(Point(X / div, Y / div), rowLine) by {
      SolutionOnLine(rowLine, d.y, xdiff.y, ydiff.y, X, Y, div);
    }
  }

  /** The column-line half of IntersectionOnBothLines: Cramer's rule with the roles of the lines swapped. */
  lemma CrossingOnColumnLine(rowLine: Line, colLine: Line)
    requires !Parallel(rowLine, colLine)
    ensures var xdiff := Point(rowLine.start.x - rowLine.end.x, colLine.start.x - colLine.end.x);
            var ydiff := Point(rowLine.start.y - rowLine.end.y, colLine.start.y - colLine.end.y);
            var div := Det(xdiff, ydiff);
            var d := Point(Det(rowLine.start, rowLine.end), Det(colLine.start, colLine.end));
            div != 0.0 && OnLine(Point(Det(d, xdiff) / div, Det(d, ydiff) / div), colLine)
  {
    var xdiff := Point(rowLine.start.x - rowLine.end.x, colLine.start.x - colLine.end.x);
    var ydiff := Point(rowLine.start.y - rowLine.end.y, colLine.start.y - colLine.end.y);
    var d := Point(Det(rowLine.start, rowLine.end), Det(colLine.start, colLine.end));
    var div, X, Y := Det(xdiff, ydiff), Det(d, xdiff), Det(d, ydiff);
    assert div != 0.0 by {
      ParallelIffSingular(rowLine, colLine);
    }
    assert OnLine(Point(X / div, Y / div), colLine) by {
      SolutionOnLineSwapped(colLine, d.x, xdiff.x, ydiff.x, X, Y, div);
    }
  }

  lemma Negate(a: real, b: real)
    requires b != 0.0
    ensures -a / -b == a / b
  {
  }

  /** The determinant of the two direction vectors vanishes exactly when the lines are parallel. */
  lemma ParallelIffSingular(l: Line, m: Line)
    ensures Det(Point(l.start.x - l.end.x, m.start.x - m.end.x), Point(l.start.y - l.end.y, m.start.y - m.end.y)) == 0.0
            <==> Parallel(l, m)
  {
    var a := (l.end.x - l.start.x) * (m.end.y - m.start.y);
    var b := (l.end.y - l.start.y) * (m.end.x - m.start.x);
    assert (l.start.x - l.end.x) * (m.start.y - m.end.y) == a;
    assert (m.start.x - m.end.x) * (l.start.y - l.end.y) == b;
  }

  /**
   * Cramer's rule for one line: with l's difference vector (dx, dy) = start - end, the other line's
   * difference vector (ox, oy) and div = dx*oy - ox*dy != 0, the point (X/div, Y/div) with
   * X = Det(start, end)*ox - k*dx and Y = Det(start, end)*oy - k*dy lies on l, whatever k is.
   */
  lemma SolutionOnLine(l: Line, k: real, ox: real, oy: real, X: real, Y: real, div: real)
    requires div != 0.0
    requires div == (l.start.x - l.end.x) * oy - ox * (l.start.y - l.end.y)
    requires X == Det(l.start, l.end) * ox - k * (l.start.x - l.end.x)
    requires Y == Det(l.start, l.end) * oy - k * (l.start.y - l.end.y)
    ensures OnLine(Point(X / div, Y / div), l)
  {
    var dx, dy := l.start.x - l.end.x, l.start.y - l.end.y;
    var d1 := Det(l.start, l.end);
    assert dx * Y - dy * X == d1 * div by {
      assert dx * Y == d1 * dx * oy - k * dx * dy;
      assert dy * X == d1 * dy * ox - k * dx * dy;
    }
    var x, y := X / div, Y / div;
    assert X == x * div && Y == y * div;
    assert dx * Y == (dx * y) * div && dy * X == (dy * x) * div;
    Cancel(dx * y - dy * x, d1, div);
    assert dx * l.start.y - dy * l.start.x == d1;
  }

  /** SolutionOnLine with every sign flipped: the same point, read from the other line's side. */
  lemma SolutionOnLineSwapped(l: Line, k: real, ox: real, oy: real, X: real, Y: real, div: real)
    requires div != 0.0
    requires div == ox * (l.start.y - l.end.y) - (l.start.x - l.end.x) * oy
    requires X == k * (l.start.x - l.end.x) - Det(l.start, l.end) * ox
    requires Y == k * (l.start.y - l.end.y) - Det(l.start, l.end) * oy
    ensures OnLine(Point(X / div, Y / div), l)
  {
    SolutionOnLine(l, k, ox, oy, -X, -Y, -div);
    Negate(X, div);
    Negate(Y, div);
  }

  lemma Cancel(a: real, b: real, c: real)
    requires c != 0.0 && a * c == b * c
    ensures a == b
  {
    assert (a - b) * c == 0.0;
  }

  /** Two non-parallel lines meet in one point only: FindIntersection returns every point that lies on both. */
  lemma IntersectionUnique(rowLine: Line, colLine: Line, p: Point)
    requires !Parallel(rowLine, colLine)
    requires OnLine(p, rowLine) && OnLine(p, colLine)
    ensures FindIntersection(rowLine, colLine) == Ok(p)
  {
    var rdx, rdy := rowLine.start.x - rowLine.end.x, rowLine.start.y - rowLine.end.y;
    var cdx, cdy := colLine.start.x - colLine.end.x, colLine.start.y - colLine.end.y;
    var d1, d2 := Det(rowLine.start, rowLine.end), Det(colLine.start, colLine.end);
    var div := rdx * cdy - cdx * rdy;
    ParallelIffSingular(rowLine, colLine);
    assert rdx * p.y - rdy * p.x == d1;
    assert cdx * p.y - cdy * p.x == d2;
    var X, Y := d1 * cdx - d2 * rdx, d1 * cdy - d2 * rdy;
    assert p.x * div == X by {
      assert d1 * cdx == rdx * cdx * p.y - rdy * cdx * p.x;
      assert d2 * rdx == cdx * rdx * p.y - cdy * rdx * p.x;
    }
    assert p.y * div == Y by {
      assert d1 * cdy == rdx * cdy * p.y - rdy * cdy * p.x;
      assert d2 * rdy == cdx * rdy * p.y - cdy * rdy * p.x;
    }
    var xdiff, ydiff := Point(rdx, cdx), Point(rdy, cdy);
    var d := Point(d1, d2);
    assert Det(xdiff, ydiff) == div && Det(d, xdiff) == X && Det(d, ydiff) == Y;
    assert p == Point(X / div, Y / div);
  }
}
