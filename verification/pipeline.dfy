/**
 * processImage after the contour search: the boundary quadrilateral of the largest contour, the
 * rows x cols grid inside it, the per-cell rotation, and the final crop turned a quarter
 * counter-clockwise.
 */
module Pipeline {
  import opened Outcomes
  import opened Geometry
  import opened Corners
  import opened Grid
  import opened Raster
  import opened Compositor

  /**
   * The corners processImage takes from sortCorners' slots: top right, top left, bottom left,
   * bottom right. The edge loops read all four as soon as one of them runs (rows >= 0 or
   * cols >= 0); otherwise only the final crop reads the top-left and bottom-right ones. Reading a
   * coordinate of an empty slot throws a TypeError. A slot that is never read is not used, so
   * any value stands in for it.
   */
  function Boundary(slots: seq<Option<IntPoint>>, rows: int, cols: int): (q: Result<Quad>)
    requires |slots| == 4
    ensures q.Err? ==> q.error == UndefinedCorner
    ensures rows >= 0 || cols >= 0 ==> (q.Ok? <==> forall k :: 0 <= k < 4 ==> slots[k].Some?)
    ensures rows < 0 && cols < 0 ==> (q.Ok? <==> slots[1].Some? && slots[3].Some?)
    ensures q.Ok? ==> slots[1] == Some(q.value.topLeft) && slots[3] == Some(q.value.bottomRight)
    ensures q.Ok? && (rows >= 0 || cols >= 0) ==>
              slots[0] == Some(q.value.topRight) && slots[2] == Some(q.value.bottomLeft)
  {
    if slots[1].None? || slots[3].None? then Err(UndefinedCorner)
    else if (rows >= 0 || cols >= 0) && (slots[0].None? || slots[2].None?) then Err(UndefinedCorner)
    else Ok(Quad(slots[1].value, slots[0].GetOr(slots[1].value), slots[2].GetOr(slots[1].value), slots[3].value))
  }

  /** The four edge lists: rows + 1 points down the sides, cols + 1 points along top and bottom. */
  function GridEdges(q: Quad, rows: int, cols: int): (e: Edges)
    requires rows > 0 && cols > 0
    ensures Fits(e, rows, cols)
  {
    Edges(EdgeList(q.topLeft, q.bottomLeft, rows), EdgeList(q.topRight, q.bottomRight, rows),
          EdgeList(q.topLeft, q.topRight, cols), EdgeList(q.bottomLeft, q.bottomRight, cols))
  }

  /** bboxes: no cells unless there is at least one row and one column. */
  function Cells(q: Quad, rows: int, cols: int): Result<seq<Cell>> {
    if rows > 0 && cols > 0 then GridCells(GridEdges(q, rows, cols), rows, cols) else Ok([])
  }

  /** The region the result is cut from: from the top-left corner to the bottom-right one. */
  function BoundaryRect(q: Quad): (b: Rect)
    ensures b.x == q.topLeft.x && b.y == q.topLeft.y
    ensures b.x + b.width == q.bottomRight.x && b.y + b.height == q.bottomRight.y
  {
    Rect(q.topLeft.x, q.topLeft.y, q.bottomRight.x - q.topLeft.x, q.bottomRight.y - q.topLeft.y)
  }

  /**
   * The last step: the boundary region of the composited image, turned a quarter counter-clockwise.
   * Turning the result back clockwise gives that region again; OpenCV throws when the region
   * does not lie inside the image.
   */
  function FinalCrop(img: Image, H: int, W: int, q: Quad): (r: Result<Image>)
    requires IsGrid(img, H, W)
    ensures r.Err? <==> !Inside(BoundaryRect(q), H, W)
    ensures r.Err? ==> r.error == RegionOutOfRange
    ensures r.Ok? && (BoundaryRect(q).width == 0 || BoundaryRect(q).height == 0) ==> r.value == []
    ensures r.Ok? && BoundaryRect(q).width > 0 && BoundaryRect(q).height > 0 ==>
              var b := BoundaryRect(q);
              IsGrid(r.value, b.width, b.height)
              && RotateCW(r.value, b.width, b.height) == Crop(img, H, W, b)
  {
    var b := BoundaryRect(q);
    if !Inside(b, H, W) then Err(RegionOutOfRange)
    else if b.width == 0 || b.height == 0 then Ok([])
    else
      RotateRoundTripReverse(Crop(img, H, W, b), b.height, b.width);
      Ok(RotateCCW(Crop(img, H, W, b), b.height, b.width))
  }

  /**
   * processImage from the contour areas and each contour's approximating polygon onwards, on an
   * H x W image (the image after the largest contour has been drawn onto it).
   */
  function Process(src: Image, H: int, W: int, areas: seq<real>, polygons: seq<seq<IntPoint>>,
                   rows: int, cols: int): Result<Image>
    requires IsGrid(src, H, W) && |polygons| == |areas|
  {
    match LargestContour(areas)
    case None => Err(NoContour)
    case Some(k) =>
      match NormalizeCorners(polygons[k])
      case Err(err) => Err(err)
      case Ok(corners) =>
        match Boundary(SortedSlots(corners), rows, cols)
        case Err(err) => Err(err)
        case Ok(q) =>
          match Cells(q, rows, cols)
          case Err(err) => Err(err)
          case Ok(cells) => FinalCrop(Composite(src, H, W, src, cells), H, W, q)
  }

  /** The polygon that gets its corners counted: that of the first contour of largest area. */
  lemma TooFewCorners(src: Image, H: int, W: int, areas: seq<real>, polygons: seq<seq<IntPoint>>,
                      rows: int, cols: int, k: nat)
    requires IsGrid(src, H, W) && |polygons| == |areas|
    requires k < |areas| && (forall j :: 0 <= j < |areas| ==> areas[j] <= areas[k])
    requires forall j :: 0 <= j < k ==> areas[j] < areas[k]
    requires |polygons[k]| < 4
    ensures Process(src, H, W, areas, polygons, rows, cols) == Err(Thrown(BoundaryUnclear))
  {
  }

  /** A polygon of more than four vertices is replaced by its bounding rectangle, so no corner is ever missing. */
  lemma FallbackHasEveryCorner(src: Image, H: int, W: int, areas: seq<real>, polygons: seq<seq<IntPoint>>,
                               rows: int, cols: int)
    requires IsGrid(src, H, W) && |polygons| == |areas|
    requires areas != [] && |polygons[LargestContour(areas).value]| > 4
    ensures Process(src, H, W, areas, polygons, rows, cols) != Err(UndefinedCorner)
  {
    var k := LargestContour(areas).value;
    FallbackSorted(polygons[k]);
    var corners := NormalizeCorners(polygons[k]).value;
    var b := Boundary(SortedSlots(corners), rows, cols);
    assert b.Ok?;
    if rows > 0 && cols > 0 {
      RowsUpToFailure(GridEdges(b.value, rows, cols), rows, cols, rows);
    }
  }

  /**
   * The outer grid lines are the sides of the boundary, so when the cells are built the outer
   * crossings of the corner cells are the four corners of the boundary.
   */
  lemma GridSpansBoundary(q: Quad, rows: int, cols: int)
    requires rows > 0 && cols > 0
    requires Cells(q, rows, cols).Ok?
    ensures var cells := Cells(q, rows, cols).value;
            |cells| == rows * cols && cols <= |cells|
            && cells[0].topLeft == AsReal(q.topLeft)
            && cells[cols - 1].topRight == AsReal(q.topRight)
            && cells[|cells| - cols].bottomLeft == AsReal(q.bottomLeft)
            && cells[|cells| - 1].bottomRight == AsReal(q.bottomRight)
  {
    var e := GridEdges(q, rows, cols);
    assert e.left[0] == q.topLeft && e.left[rows] == q.bottomLeft;
    assert e.right[0] == q.topRight && e.right[rows] == q.bottomRight;
    assert e.top[0] == q.topLeft && e.top[cols] == q.topRight;
    assert e.bottom[0] == q.bottomLeft && e.bottom[cols] == q.bottomRight;
    assert Cells(q, rows, cols) == RowsUpTo(e, rows, cols, rows);
    RowsUpToLayout(e, rows, cols, rows);
    OuterCrossings(e, rows, cols, Cells(q, rows, cols).value,
                   AsReal(q.topLeft), AsReal(q.topRight), AsReal(q.bottomLeft), AsReal(q.bottomRight));
  }

  /**
   * processImage on a loaded image: pick the largest contour, settle its corners, sort them,
   * lay out the grid, rotate every cell in a copy of the image, and cut and turn the boundary region.
   */
  method ProcessImage(img: array2<Pixel>, areas: seq<real>, polygons: seq<seq<IntPoint>>, rows: int, cols: int)
    returns (result: Result<Image>)
    requires |polygons| == |areas|
    ensures result == Process(Snapshot(img), img.Length0, img.Length1, areas, polygons, rows, cols)
  {
    var largest := LargestContour(areas);
    if largest.None? {
      return Err(NoContour);
    }
    var normalized := NormalizeCorners(polygons[largest.value]);
    if normalized.Err? {
      return Err(normalized.error);
    }
    var sorted := SortCorners(normalized.value);
    var boundary := Boundary(sorted, rows, cols);
    if boundary.Err? {
      return Err(boundary.error);
    }
    var q := boundary.value;
    var cells: seq<Cell> := [];
    if rows > 0 && cols > 0 {
      var left, right := RowEdges(q, rows);
      var top, bottom := ColumnEdges(q, cols);
      var built := BuildCells(Edges(left, right, top, bottom), rows, cols);
      if built.Err? {
        return Err(built.error);
      }
      cells := built.value;
    }
    var rotated := RotateBBox(img, cells);
    result := FinalCrop(Snapshot(rotated), img.Length0, img.Length1, q);
  }
}
