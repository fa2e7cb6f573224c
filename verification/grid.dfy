/**
 * The grid interpolator of processImage: points spaced along the four edges of the boundary,
 * the row and column lines through them, and the rows x cols cells cut out by those lines.
 */
module Grid {
  import opened Outcomes
  import opened Geometry

  // ---------------------------------------------------------------------------
  // Edge interpolation

  /**
   * Math.floor(a + ((b - a) * i) / n) for integers and n > 0. Since a is an integer the floor can
   * be taken of the quotient alone, and Dafny's / on int floors when the divisor is positive.
   */
  function Lerp(a: int, b: int, i: int, n: int): int
    requires n > 0
  {
    a + (b - a) * i / n
  }

  /** The point at fraction i/n of the way from p to q, floored to integer pixel coordinates. */
  function EdgePoint(p: IntPoint, q: IntPoint, i: int, n: int): IntPoint
    requires n > 0
  {
    IntPoint(Lerp(p.x, q.x, i, n), Lerp(p.y, q.y, i, n))
  }

  /** The n + 1 points the interpolation loop pushes for the edge from p to q. */
  function EdgeList(p: IntPoint, q: IntPoint, n: int): (pts: seq<IntPoint>)
    requires n > 0
    ensures |pts| == n + 1
    ensures pts[0] == p && pts[n] == q
    ensures forall i :: 0 <= i <= n ==> pts[i] == EdgePoint(p, q, i, n)
  {
    LerpEnds(p.x, q.x, n);
    LerpEnds(p.y, q.y, n);
    seq(n + 1, i requires 0 <= i <= n => EdgePoint(p, q, i, n))
  }

  lemma LerpEnds(a: int, b: int, n: int)
    requires n > 0
    ensures Lerp(a, b, 0, n) == a && Lerp(a, b, n, n) == b
  {
    DivUnique((b - a) * 0, n, 0);
    DivUnique((b - a) * n, n, b - a);
  }

  /** Integer division by a positive n is determined by n * q <= x < n * q + n. */
  lemma DivUnique(x: int, n: int, q: int)
    requires n > 0 && n * q <= x < n * q + n
    ensures x / n == q
  {
    var t := x / n;
    assert n * t <= x < n * t + n;
    if t > q {
      MulMonotone(n, q + 1, t);
    } else if t < q {
      MulMonotone(n, t + 1, q);
    }
  }

  lemma DivMonotone(x: int, y: int, n: int)
    requires n > 0 && x <= y
    ensures x / n <= y / n
  {
    if x / n > y / n {
      assert n * (x / n) >= n * (y / n + 1) by {
        MulMonotone(n, y / n + 1, x / n);
      }
      assert false;
    }
  }

  lemma MulMonotone(n: int, a: int, b: int)
    requires n > 0 && a <= b
    ensures n * a <= n * b
  {
    assert n * b - n * a == n * (b - a);
  }

  /**
   * Along an edge, the interpolated coordinate never leaves the range between the two end
   * coordinates and moves monotonically from the first towards the second.
   */
  lemma {:induction false} LerpBetween(a: int, b: int, i: int, j: int, n: int)
    requires n > 0 && 0 <= i <= j <= n
    ensures a <= b ==> a <= Lerp(a, b, i, n) <= Lerp(a, b, j, n) <= b
    ensures b <= a ==> b <= Lerp(a, b, j, n) <= Lerp(a, b, i, n) <= a
  {
    LerpEnds(a, b, n);
    ScaledQuotientMonotone(b - a, 0, i, n);
    ScaledQuotientMonotone(b - a, i, j, n);
    ScaledQuotientMonotone(b - a, j, n, n);
    assert (b - a) * 0 / n == 0;
  }

  /** d * i / n moves with i in the direction of the sign of d. */
  lemma ScaledQuotientMonotone(d: int, i: int, j: int, n: int)
    requires n > 0 && i <= j
    ensures d >= 0 ==> d * i / n <= d * j / n
    ensures d <= 0 ==> d * j / n <= d * i / n
  {
    if d >= 0 {
      MulNonNegMonotone(d, i, j);
      DivMonotone(d * i, d * j, n);
    } else {
      MulNonNegMonotone(-d, i, j);
      assert d * j <= d * i;
      DivMonotone(d * j, d * i, n);
    }
  }

  lemma MulNonNegMonotone(d: int, a: int, b: int)
    requires d >= 0 && a <= b
    ensures d * a <= d * b
  {
    assert d * b - d * a == d * (b - a);
  }

  /** Every interpolated point of an edge lies in the axis-aligned box spanned by its two ends. */
  lemma EdgePointBetween(p: IntPoint, q: IntPoint, i: int, n: int)
    requires n > 0 && 0 <= i <= n
    ensures var e := EdgePoint(p, q, i, n);
            (p.x <= e.x <= q.x || q.x <= e.x <= p.x) && (p.y <= e.y <= q.y || q.y <= e.y <= p.y)
  {
    LerpBetween(p.x, q.x, i, i, n);
    LerpBetween(p.y, q.y, i, i, n);
  }

  /** The first loop of the interpolator: rows + 1 points down the left edge and down the right edge. */
  method RowEdges(q: Quad, rows: int) returns (left: seq<IntPoint>, right: seq<IntPoint>)
    requires rows > 0
    ensures left == EdgeList(q.topLeft, q.bottomLeft, rows)
    ensures right == EdgeList(q.topRight, q.bottomRight, rows)
  {
    left, right := [], [];
    for i := 0 to rows + 1
      invariant |left| == |right| == i
      invariant forall k :: 0 <= k < i ==> left[k] == EdgePoint(q.topLeft, q.bottomLeft, k, rows)
      invariant forall k :: 0 <= k < i ==> right[k] == EdgePoint(q.topRight, q.bottomRight, k, rows)
    {
      var leftPoint := IntPoint(q.topLeft.x + (q.bottomLeft.x - q.topLeft.x) * i / rows,
                                q.topLeft.y + (q.bottomLeft.y - q.topLeft.y) * i / rows);
      var rightPoint := IntPoint(q.topRight.x + (q.bottomRight.x - q.topRight.x) * i / rows,
                                 q.topRight.y + (q.bottomRight.y - q.topRight.y) * i / rows);
      left := left + [leftPoint];
      right := right + [rightPoint];
    }
  }

  /** The second loop: cols + 1 points along the top edge and along the bottom edge. */
  method ColumnEdges(q: Quad, cols: int) returns (top: seq<IntPoint>, bottom: seq<IntPoint>)
    requires cols > 0
    ensures top == EdgeList(q.topLeft, q.topRight, cols)
    ensures bottom == EdgeList(q.bottomLeft, q.bottomRight, cols)
  {
    top, bottom := [], [];
    for j := 0 to cols + 1
      invariant |top| == |bottom| == j
      invariant forall k :: 0 <= k < j ==> top[k] == EdgePoint(q.topLeft, q.topRight, k, cols)
      invariant forall k :: 0 <= k < j ==> bottom[k] == EdgePoint(q.bottomLeft, q.bottomRight, k, cols)
    {
      var topPoint := IntPoint(q.topLeft.x + (q.topRight.x - q.topLeft.x) * j / cols,
                               q.topLeft.y + (q.topRight.y - q.topLeft.y) * j / cols);
      var bottomPoint := IntPoint(q.bottomLeft.x + (q.bottomRight.x - q.bottomLeft.x) * j / cols,
                                  q.bottomLeft.y + (q.bottomRight.y - q.bottomLeft.y) * j / cols);
      top := top + [topPoint];
      bottom := bottom + [bottomPoint];
    }
  }

  // ---------------------------------------------------------------------------
  // Cells

  /** One grid cell as pushed onto bboxes: the crossings (r, c), (r+1, c), (r+1, c+1), (r, c+1). */
  datatype Cell = Cell(topLeft: Point, bottomLeft: Point, bottomRight: Point, topRight: Point)

  /** The four edge lists and the cell counts they were built for. */
  datatype Edges = Edges(left: seq<IntPoint>, right: seq<IntPoint>, top: seq<IntPoint>, bottom: seq<IntPoint>)

  predicate Fits(e: Edges, rows: int, cols: int) {
    rows > 0 && cols > 0
    && |e.left| == rows + 1 && |e.right| == rows + 1 && |e.top| == cols + 1 && |e.bottom| == cols + 1
  }

  /** Row line r runs from the r-th left point to the r-th right point. */
  function RowLine(e: Edges, r: nat): Line
    requires r < |e.left| && r < |e.right|
  {
    Line(AsReal(e.left[r]), AsReal(e.right[r]))
  }

  /** Column line c runs from the c-th top point to the c-th bottom point. */
  function ColumnLine(e: Edges, c: nat): Line
    requires c < |e.top| && c < |e.bottom|
  {
    Line(AsReal(e.top[c]), AsReal(e.bottom[c]))
  }

  /** Cell (r, c): its corners are where row lines r, r+1 cross column lines c, c+1. */
  function CellOf(e: Edges, rows: int, cols: int, r: nat, c: nat): (res: Result<Cell>)
    requires Fits(e, rows, cols) && r < rows && c < cols
    ensures res.Err? ==> res.error == Thrown(LinesDoNotIntersect)
    ensures res.Ok? ==>
              OnLine(res.value.topLeft, RowLine(e, r)) && OnLine(res.value.topLeft, ColumnLine(e, c))
              && OnLine(res.value.bottomLeft, RowLine(e, r + 1)) && OnLine(res.value.bottomLeft, ColumnLine(e, c))
              && OnLine(res.value.bottomRight, RowLine(e, r + 1)) && OnLine(res.value.bottomRight, ColumnLine(e, c + 1))
              && OnLine(res.value.topRight, RowLine(e, r)) && OnLine(res.value.topRight, ColumnLine(e, c + 1))
    ensures res.Err? <==>
              Parallel(RowLine(e, r), ColumnLine(e, c)) || Parallel(RowLine(e, r + 1), ColumnLine(e, c))
              || Parallel(RowLine(e, r + 1), ColumnLine(e, c + 1)) || Parallel(RowLine(e, r), ColumnLine(e, c + 1))
  {
    var a := FindIntersection(RowLine(e, r), ColumnLine(e, c));
    var b := FindIntersection(RowLine(e, r + 1), ColumnLine(e, c));
    var d := FindIntersection(RowLine(e, r + 1), ColumnLine(e, c + 1));
    var f := FindIntersection(RowLine(e, r), ColumnLine(e, c + 1));
    if a.Err? then Err(a.error)
    else if b.Err? then Err(b.error)
    else if d.Err? then Err(d.error)
    else if f.Err? then Err(f.error)
    else Ok(Cell(a.value, b.value, d.value, f.value))
  }

  /** The first n cells of row r, left to right, or the error of the first that fails. */
  function RowCells(e: Edges, rows: int, cols: int, r: nat, n: nat): Result<seq<Cell>>
    requires Fits(e, rows, cols) && r < rows && n <= cols
  {
    if n == 0 then Ok([])
    else
      match RowCells(e, rows, cols, r, n - 1)
      case Err(err) => Err(err)
      case Ok(cells) =>
        match CellOf(e, rows, cols, r, n - 1)
        case Err(err) => Err(err)
        case Ok(cell) => Ok(cells + [cell])
  }

  /** The cells of the first m rows, row after row, or the error of the first cell that fails. */
  function RowsUpTo(e: Edges, rows: int, cols: int, m: nat): Result<seq<Cell>>
    requires Fits(e, rows, cols) && m <= rows
  {
    if m == 0 then Ok([])
    else
      match RowsUpTo(e, rows, cols, m - 1)
      case Err(err) => Err(err)
      case Ok(cells) =>
        match RowCells(e, rows, cols, m - 1, cols)
        case Err(err) => Err(err)
        case Ok(row) => Ok(cells + row)
  }

  /** bboxes: the cells of all rows. */
  function GridCells(e: Edges, rows: int, cols: int): Result<seq<Cell>>
    requires Fits(e, rows, cols)
  {
    RowsUpTo(e, rows, cols, rows)
  }

  /** Once a row has failed, the later rows are not built and the error stays that of the first. */
  lemma {:induction false} ErrorPersists(e: Edges, rows: int, cols: int, n: nat, m: nat)
    requires Fits(e, rows, cols) && n <= m <= rows
    requires RowsUpTo(e, rows, cols, n).Err?
    ensures RowsUpTo(e, rows, cols, m) == RowsUpTo(e, rows, cols, n)
    decreases m - n
  {
    if m > n {
      ErrorPersists(e, rows, cols, n, m - 1);
    }
  }

  /** The first n cells of row r: n of them, cell c being CellOf(r, c); an error exactly when one of them fails. */
  lemma {:induction false} RowCellsShape(e: Edges, rows: int, cols: int, r: nat, n: nat)
    requires Fits(e, rows, cols) && r < rows && n <= cols
    ensures RowCells(e, rows, cols, r, n).Ok? ==>
              |RowCells(e, rows, cols, r, n).value| == n
              && forall c :: 0 <= c < n ==> CellOf(e, rows, cols, r, c) == Ok(RowCells(e, rows, cols, r, n).value[c])
    ensures RowCells(e, rows, cols, r, n).Err? <==> exists c :: 0 <= c < n && CellOf(e, rows, cols, r, c).Err?
    ensures RowCells(e, rows, cols, r, n).Err? ==> RowCells(e, rows, cols, r, n).error == Thrown(LinesDoNotIntersect)
  {
    if n > 0 {
      RowCellsShape(e, rows, cols, r, n - 1);
    }
  }

  /** v lists the cells of the first m rows in row-major order: cell (r, c) at index r * cols + c. */
  predicate RowMajor(e: Edges, rows: int, cols: int, m: nat, v: seq<Cell>)
    requires Fits(e, rows, cols) && m <= rows
  {
    |v| == m * cols
    && forall r, c :: 0 <= r < m && 0 <= c < cols ==>
         r * cols + c < m * cols && CellOf(e, rows, cols, r, c) == Ok(v[r * cols + c])
  }

  /**
   * The first m rows, when they succeed: m * cols cells in row-major order, cell (r, c) at
   * index r * cols + c. With m = rows this is the whole cell list.
   */
  lemma {:induction false} RowsUpToLayout(e: Edges, rows: int, cols: int, m: nat)
    requires Fits(e, rows, cols) && m <= rows
    requires RowsUpTo(e, rows, cols, m).Ok?
    ensures RowMajor(e, rows, cols, m, RowsUpTo(e, rows, cols, m).value)
  {
    if m > 0 {
      var before := RowsUpTo(e, rows, cols, m - 1).value;
      var row := RowCells(e, rows, cols, m - 1, cols).value;
      RowsUpToLayout(e, rows, cols, m - 1);
      RowCellsShape(e, rows, cols, m - 1, cols);
      assert RowsUpTo(e, rows, cols, m).value == before + row;
      AppendRow(e, rows, cols, m, before, row);
    }
  }

  /** Appending the cells of row m - 1 to the first m - 1 rows keeps the row-major layout. */
  lemma AppendRow(e: Edges, rows: int, cols: int, m: nat, before: seq<Cell>, row: seq<Cell>)
    requires Fits(e, rows, cols) && 0 < m <= rows
    requires RowMajor(e, rows, cols, m - 1, before)
    requires |row| == cols && forall c :: 0 <= c < cols ==> CellOf(e, rows, cols, m - 1, c) == Ok(row[c])
    ensures RowMajor(e, rows, cols, m, before + row)
  {
    NextRowLength(m, cols);
    forall r, c | 0 <= r < m && 0 <= c < cols
      ensures r * cols + c < m * cols && CellOf(e, rows, cols, r, c) == Ok((before + row)[r * cols + c])
    {
      AppendRowAt(e, rows, cols, m, before, row, r, c);
    }
  }

  lemma NextRowLength(m: int, cols: int)
    ensures m * cols == (m - 1) * cols + cols
  {
  }

  /** One cell of AppendRow: cell (r, c) is found at r * cols + c in the longer list. */
  lemma AppendRowAt(e: Edges, rows: int, cols: int, m: nat, before: seq<Cell>, row: seq<Cell>, r: int, c: int)
    requires Fits(e, rows, cols) && 0 < m <= rows
    requires RowMajor(e, rows, cols, m - 1, before)
    requires |row| == cols && forall c :: 0 <= c < cols ==> CellOf(e, rows, cols, m - 1, c) == Ok(row[c])
    requires 0 <= r < m && 0 <= c < cols
    ensures r * cols + c < m * cols && CellOf(e, rows, cols, r, c) == Ok((before + row)[r * cols + c])
  {
    RowMajorSplit(r, c, m, cols);
    var k := r * cols + c;
    if r < m - 1 {
      assert CellOf(e, rows, cols, r, c) == Ok(before[k]);
      assert (before + row)[k] == before[k];
    } else {
      assert k == |before| + c;
      assert (before + row)[k] == row[c];
    }
  }

  /** Index r * cols + c of a row-major list of m rows falls in row r: before the last row, or c into it. */
  lemma RowMajorSplit(r: int, c: int, m: int, cols: int)
    requires 0 <= r < m && 0 <= c < cols
    ensures r * cols + c < m * cols
    ensures r < m - 1 ==> r * cols + c < (m - 1) * cols
    ensures r == m - 1 ==> r * cols + c == (m - 1) * cols + c
  {
    var gap := m - 1 - r;
    assert (m - 1) * cols == r * cols + gap * cols;
    assert m * cols == (m - 1) * cols + cols;
    MulNonNegMonotone(cols, 0, gap);
    if gap > 0 {
      MulNonNegMonotone(cols, 1, gap);
    }
  }

  /**
   * The first m rows fail exactly when one of their cells has a row line parallel to one of its
   * column lines, and then with "lines do not intersect". With m = rows this is the whole cell list.
   */
  lemma {:induction false} RowsUpToFailure(e: Edges, rows: int, cols: int, m: nat)
    requires Fits(e, rows, cols) && m <= rows
    ensures RowsUpTo(e, rows, cols, m).Err? <==>
              exists r, c :: 0 <= r < m && 0 <= c < cols && CellOf(e, rows, cols, r, c).Err?
    ensures RowsUpTo(e, rows, cols, m).Err? ==> RowsUpTo(e, rows, cols, m).error == Thrown(LinesDoNotIntersect)
  {
    if m > 0 {
      RowsUpToFailure(e, rows, cols, m - 1);
      RowCellsShape(e, rows, cols, m - 1, cols);
      if RowsUpTo(e, rows, cols, m - 1).Ok? && RowCells(e, rows, cols, m - 1, cols).Err? {
        var c :| 0 <= c < cols && CellOf(e, rows, cols, m - 1, c).Err?;
        assert CellOf(e, rows, cols, m - 1, c).Err?;
      }
    }
  }

  /** Once a cell of a row has failed, the rest of the row is not built and the error stays. */
  lemma {:induction false} RowErrorPersists(e: Edges, rows: int, cols: int, r: nat, n: nat, m: nat)
    requires Fits(e, rows, cols) && r < rows && n <= m <= cols
    requires RowCells(e, rows, cols, r, n).Err?
    ensures RowCells(e, rows, cols, r, m) == RowCells(e, rows, cols, r, n)
    decreases m - n
  {
    if m > n {
      RowErrorPersists(e, rows, cols, r, n, m - 1);
    }
  }

  /** The nested cell loop: row by row, four intersections per cell, pushed in row-major order. */
  method BuildCells(e: Edges, rows: int, cols: int) returns (res: Result<seq<Cell>>)
    requires Fits(e, rows, cols)
    ensures res == GridCells(e, rows, cols)
  {
    var bboxes: seq<Cell> := [];
    for r := 0 to rows
      invariant RowsUpTo(e, rows, cols, r) == Ok(bboxes)
    {
      ghost var before := bboxes;
      for c := 0 to cols
        invariant RowCells(e, rows, cols, r, c).Ok?
        invariant bboxes == before + RowCells(e, rows, cols, r, c).value
      {
        var rowLine := Line(AsReal(e.left[r]), AsReal(e.right[r]));
        var colLine := Line(AsReal(e.top[c]), AsReal(e.bottom[c]));
        var nextRowLine := Line(AsReal(e.left[r + 1]), AsReal(e.right[r + 1]));
        var nextColLine := Line(AsReal(e.top[c + 1]), AsReal(e.bottom[c + 1]));
        var a := FindIntersection(rowLine, colLine);
        var b := FindIntersection(nextRowLine, colLine);
        var d := FindIntersection(nextRowLine, nextColLine);
        var f := FindIntersection(rowLine, nextColLine);
        if a.Err? || b.Err? || d.Err? || f.Err? {
          assert RowCells(e, rows, cols, r, c + 1).Err?;
          RowErrorPersists(e, rows, cols, r, c + 1, cols);
          assert RowsUpTo(e, rows, cols, r + 1).Err?;
          ErrorPersists(e, rows, cols, r + 1, rows);
          return if a.Err? then Err(a.error) else if b.Err? then Err(b.error)
                 else if d.Err? then Err(d.error) else Err(f.error);
        }
        bboxes := bboxes + [Cell(a.value, b.value, d.value, f.value)];
      }
    }
    res := Ok(bboxes);
  }

  /** A point on both lines of each crossing of a cell that was built is that crossing. */
  lemma CornerCell(e: Edges, rows: int, cols: int, r: nat, c: nat, p: Point, cell: Cell)
    requires Fits(e, rows, cols) && r < rows && c < cols
    requires CellOf(e, rows, cols, r, c) == Ok(cell)
    ensures OnLine(p, RowLine(e, r)) && OnLine(p, ColumnLine(e, c)) ==> cell.topLeft == p
    ensures OnLine(p, RowLine(e, r)) && OnLine(p, ColumnLine(e, c + 1)) ==> cell.topRight == p
    ensures OnLine(p, RowLine(e, r + 1)) && OnLine(p, ColumnLine(e, c)) ==> cell.bottomLeft == p
    ensures OnLine(p, RowLine(e, r + 1)) && OnLine(p, ColumnLine(e, c + 1)) ==> cell.bottomRight == p
  {
    if OnLine(p, RowLine(e, r)) && OnLine(p, ColumnLine(e, c)) {
      IntersectionUnique(RowLine(e, r), ColumnLine(e, c), p);
    }
    if OnLine(p, RowLine(e, r)) && OnLine(p, ColumnLine(e, c + 1)) {
      IntersectionUnique(RowLine(e, r), ColumnLine(e, c + 1), p);
    }
    if OnLine(p, RowLine(e, r + 1)) && OnLine(p, ColumnLine(e, c)) {
      IntersectionUnique(RowLine(e, r + 1), ColumnLine(e, c), p);
    }
    if OnLine(p, RowLine(e, r + 1)) && OnLine(p, ColumnLine(e, c + 1)) {
      IntersectionUnique(RowLine(e, r + 1), ColumnLine(e, c + 1), p);
    }
  }

  /**
   * When the outer row and column lines run between four points, a complete row-major cell list
   * has those points as the outer crossings of its four corner cells.
   */
  lemma OuterCrossings(e: Edges, rows: int, cols: int, cells: seq<Cell>, tl: Point, tr: Point, bl: Point, br: Point)
    requires Fits(e, rows, cols) && RowMajor(e, rows, cols, rows, cells)
    requires RowLine(e, 0) == Line(tl, tr) && RowLine(e, rows) == Line(bl, br)
    requires ColumnLine(e, 0) == Line(tl, bl) && ColumnLine(e, cols) == Line(tr, br)
    ensures |cells| == rows * cols && cols <= |cells|
    ensures cells[0].topLeft == tl && cells[cols - 1].topRight == tr
    ensures cells[|cells| - cols].bottomLeft == bl && cells[|cells| - 1].bottomRight == br
  {
    var last := (rows - 1) * cols;
    assert rows * cols == last + cols;
    EndsOnLine(Line(tl, tr));
    EndsOnLine(Line(bl, br));
    EndsOnLine(Line(tl, bl));
    EndsOnLine(Line(tr, br));
    CellAt(e, rows, cols, cells, 0, 0, 0);
    CellAt(e, rows, cols, cells, 0, cols - 1, cols - 1);
    CellAt(e, rows, cols, cells, rows - 1, 0, last);
    CellAt(e, rows, cols, cells, rows - 1, cols - 1, rows * cols - 1);
    CornerCell(e, rows, cols, 0, 0, tl, cells[0]);
    CornerCell(e, rows, cols, 0, cols - 1, tr, cells[cols - 1]);
    CornerCell(e, rows, cols, rows - 1, 0, bl, cells[last]);
    CornerCell(e, rows, cols, rows - 1, cols - 1, br, cells[rows * cols - 1]);
  }

  /** Cell (r, c) of a row-major list sits at index k = r * cols + c. */
  lemma CellAt(e: Edges, rows: int, cols: int, cells: seq<Cell>, r: nat, c: nat, k: int)
    requires Fits(e, rows, cols) && RowMajor(e, rows, cols, rows, cells)
    requires r < rows && c < cols && k == r * cols + c
    ensures 0 <= k < |cells| && CellOf(e, rows, cols, r, c) == Ok(cells[k])
  {
    RowMajorSplit(r, c, rows, cols);
    assert CellOf(e, rows, cols, r, c) == Ok(cells[r * cols + c]);
  }
}
