/**
 * rotate_bbox: every grid cell is cut out of the source image, turned a quarter clockwise and
 * pasted, centred on the cell and clamped to the image, onto a copy of the source.
 */
module Compositor {
  import opened Outcomes
  import opened Geometry
  import opened Grid
  import opened Raster

  /** A JavaScript number stored into an integer field of cv.Rect: the fraction is dropped, towards zero. */
  function Trunc(x: real): (n: int)
    ensures 0.0 <= x ==> n as real <= x < n as real + 1.0
    ensures x < 0.0 ==> n as real - 1.0 < x <= n as real
  {
    if x >= 0.0 then x.Floor else -((-x).Floor)
  }

  function Min(a: real, b: real): real { if a <= b then a else b }
  function Max(a: real, b: real): real { if a >= b then a else b }

  /**
   * The region cut out for a cell: from its top-left crossing, as wide and as high as the
   * distance to its bottom-right crossing. The other two crossings are not used.
   */
  function CellRect(cell: Cell): (r: Rect)
    ensures 0.0 <= cell.topLeft.x ==> r.x as real <= cell.topLeft.x < r.x as real + 1.0
    ensures 0.0 <= cell.topLeft.y ==> r.y as real <= cell.topLeft.y < r.y as real + 1.0
    ensures 0.0 <= cell.bottomRight.x - cell.topLeft.x ==>
              r.width as real <= cell.bottomRight.x - cell.topLeft.x < r.width as real + 1.0
    ensures 0.0 <= cell.bottomRight.y - cell.topLeft.y ==>
              r.height as real <= cell.bottomRight.y - cell.topLeft.y < r.height as real + 1.0
  {
    Rect(Trunc(cell.topLeft.x), Trunc(cell.topLeft.y),
         Trunc(cell.bottomRight.x - cell.topLeft.x), Trunc(cell.bottomRight.y - cell.topLeft.y))
  }

  /**
   * Where a rotated tile of the given size starts along one axis: centred on the cell (start and
   * extent as given), clamped into [0, bound - size], and truncated when stored in the cv.Rect.
   */
  function PasteOrigin(start: real, extent: real, size: int, bound: int): (o: int)
    ensures size <= bound ==> 0 <= o <= bound - size
    ensures size > bound ==> o == 0
    ensures size <= bound && start + (extent - size as real) / 2.0 < 0.0 ==> o == 0
    ensures size <= bound && start + (extent - size as real) / 2.0 > (bound - size) as real ==> o == bound - size
    ensures 0.0 <= start + (extent - size as real) / 2.0 <= (bound - size) as real ==>
              o as real <= start + (extent - size as real) / 2.0 < o as real + 1.0
  {
    Trunc(Max(0.0, Min(start + (extent - size as real) / 2.0, (bound - size) as real)))
  }

  /**
   * The region the rotated tile of a cell is pasted into: the tile is as wide as the cut-out is
   * high and as high as it is wide. It lies inside the image exactly when the tile is no larger.
   */
  function PasteRect(cell: Cell, H: int, W: int): (at: Rect)
    requires Inside(CellRect(cell), H, W)
    ensures at.width == CellRect(cell).height && at.height == CellRect(cell).width
    ensures Inside(at, H, W) <==> at.width <= W && at.height <= H
  {
    var roi := CellRect(cell);
    Rect(PasteOrigin(cell.topLeft.x, cell.bottomRight.x - cell.topLeft.x, roi.height, W),
         PasteOrigin(cell.topLeft.y, cell.bottomRight.y - cell.topLeft.y, roi.width, H),
         roi.height, roi.width)
  }

  /** The rotated cut-out of a cell, taken from the source image. */
  function Tile(src: Image, H: int, W: int, cell: Cell): (t: Image)
    requires IsGrid(src, H, W) && Inside(CellRect(cell), H, W)
    ensures IsGrid(t, CellRect(cell).width, CellRect(cell).height)
  {
    var roi := CellRect(cell);
    RotateCW(Crop(src, H, W, roi), roi.height, roi.width)
  }

  /**
   * One pass of the loop body on the image being built: None when OpenCV refuses the cut-out
   * region or the paste region and throws. Otherwise the paste region shows the cell's rotated
   * cut-out of the source, whatever was pasted there before (tiles are never read from the image
   * being built), and every other pixel is unchanged. An empty cut-out rotates to an empty tile,
   * whose paste changes nothing.
   */
  function CellStep(src: Image, H: int, W: int, canvas: Image, cell: Cell): (next: Option<Image>)
    requires IsGrid(src, H, W) && IsGrid(canvas, H, W)
    ensures next.None? <==>
              !Inside(CellRect(cell), H, W)
              || (CellRect(cell).width > 0 && CellRect(cell).height > 0
                  && (CellRect(cell).height > W || CellRect(cell).width > H))
    ensures next.Some? ==> IsGrid(next.value, H, W)
    ensures next.Some? && (CellRect(cell).width == 0 || CellRect(cell).height == 0) ==> next.value == canvas
    ensures next.Some? && CellRect(cell).width > 0 && CellRect(cell).height > 0 ==>
              Inside(PasteRect(cell, H, W), H, W)
              && Crop(next.value, H, W, PasteRect(cell, H, W)) == Tile(src, H, W, cell)
              && forall i, j :: 0 <= i < H && 0 <= j < W && !InRect(PasteRect(cell, H, W), i, j) ==>
                   next.value[i][j] == canvas[i][j]
  {
    var roi := CellRect(cell);
    if !Inside(roi, H, W) then None
    else if roi.width == 0 || roi.height == 0 then Some(canvas)
    else
      var at := PasteRect(cell, H, W);
      if Inside(at, H, W) then Some(Paste(canvas, H, W, Tile(src, H, W, cell), at)) else None
  }

  /**
   * The image rotate_bbox returns for the cells, starting from canvas: the cells in order until the
   * first one whose region OpenCV refuses; the exception ends the loop and the image built so far
   * is returned all the same.
   */
  function Composite(src: Image, H: int, W: int, canvas: Image, cells: seq<Cell>): (out: Image)
    requires IsGrid(src, H, W) && IsGrid(canvas, H, W)
    ensures IsGrid(out, H, W)
    decreases |cells|
  {
    if cells == [] then canvas
    else
      match CellStep(src, H, W, canvas, cells[0])
      case None => canvas
      case Some(next) => Composite(src, H, W, next, cells[1..])
  }

  /** The image after every cell of the list, or None if one of them throws. */
  function AllSteps(src: Image, H: int, W: int, canvas: Image, cells: seq<Cell>): (out: Option<Image>)
    requires IsGrid(src, H, W) && IsGrid(canvas, H, W)
    ensures out.Some? ==> IsGrid(out.value, H, W)
    decreases |cells|
  {
    if cells == [] then Some(canvas)
    else
      match CellStep(src, H, W, canvas, cells[0])
      case None => None
      case Some(next) => AllSteps(src, H, W, next, cells[1..])
  }

  /**
   * When the cells before have all gone through, the loop carries on with the rest from the image
   * they built; when the next cell throws, that image is the result.
   */
  lemma {:induction false} CompositeAfter(src: Image, H: int, W: int, canvas: Image, before: seq<Cell>, rest: seq<Cell>)
    requires IsGrid(src, H, W) && IsGrid(canvas, H, W)
    requires AllSteps(src, H, W, canvas, before).Some?
    ensures Composite(src, H, W, canvas, before + rest)
            == Composite(src, H, W, AllSteps(src, H, W, canvas, before).value, rest)
    ensures rest != [] && CellStep(src, H, W, AllSteps(src, H, W, canvas, before).value, rest[0]).None? ==>
              Composite(src, H, W, canvas, before + rest) == AllSteps(src, H, W, canvas, before).value
    decreases |before|
  {
    if before != [] {
      assert (before + rest)[0] == before[0];
      assert (before + rest)[1..] == before[1..] + rest;
      var next := CellStep(src, H, W, canvas, before[0]).value;
      CompositeAfter(src, H, W, next, before[1..], rest);
    } else {
      assert before + rest == rest;
    }
  }

  /** Running one more cell after a list of cells: it fails if the list failed, else it is that cell's step. */
  lemma {:induction false} AllStepsSnoc(src: Image, H: int, W: int, canvas: Image, before: seq<Cell>, cell: Cell)
    requires IsGrid(src, H, W) && IsGrid(canvas, H, W)
    ensures AllSteps(src, H, W, canvas, before).None? ==> AllSteps(src, H, W, canvas, before + [cell]).None?
    ensures AllSteps(src, H, W, canvas, before).Some? ==>
              AllSteps(src, H, W, canvas, before + [cell])
              == CellStep(src, H, W, AllSteps(src, H, W, canvas, before).value, cell)
    decreases |before|
  {
    if before == [] {
      assert before + [cell] == [cell];
      assert [cell][1..] == [];
    } else {
      assert (before + [cell])[0] == before[0];
      assert (before + [cell])[1..] == before[1..] + [cell];
      var step := CellStep(src, H, W, canvas, before[0]);
      if step.Some? {
        AllStepsSnoc(src, H, W, step.value, before[1..], cell);
      }
    }
  }

  /**
   * The rotated cut-out of cell k shows in the returned image wherever no later cell pastes over
   * it, provided the cells up to k all went through.
   */
  lemma CompositeShowsTile(src: Image, H: int, W: int, cells: seq<Cell>, k: int, i: int, j: int)
    requires IsGrid(src, H, W) && 0 <= k < |cells| && 0 <= i < H && 0 <= j < W
    requires AllSteps(src, H, W, src, cells[..k + 1]).Some?
    requires Inside(CellRect(cells[k]), H, W) && CellRect(cells[k]).width > 0 && CellRect(cells[k]).height > 0
    requires InRect(PasteRect(cells[k], H, W), i, j)
    requires forall m :: k < m < |cells| ==> !PasteCovers(cells[m], H, W, i, j)
    ensures var at := PasteRect(cells[k], H, W);
            Composite(src, H, W, src, cells)[i][j] == Tile(src, H, W, cells[k])[i - at.y][j - at.x]
  {
    KeptAfter(src, H, W, cells, k, i, j);
    StepShowsTile(src, H, W, AllSteps(src, H, W, src, cells[..k]).value, cells[k], i, j);
  }

  /** A pixel no cell after k pastes over keeps the value the step of cell k gave it. */
  lemma KeptAfter(src: Image, H: int, W: int, cells: seq<Cell>, k: int, i: int, j: int)
    requires IsGrid(src, H, W) && 0 <= k < |cells| && 0 <= i < H && 0 <= j < W
    requires AllSteps(src, H, W, src, cells[..k + 1]).Some?
    requires forall m :: k < m < |cells| ==> !PasteCovers(cells[m], H, W, i, j)
    ensures AllSteps(src, H, W, src, cells[..k]).Some?
    ensures CellStep(src, H, W, AllSteps(src, H, W, src, cells[..k]).value, cells[k]).Some?
    ensures Composite(src, H, W, src, cells)[i][j]
            == CellStep(src, H, W, AllSteps(src, H, W, src, cells[..k]).value, cells[k]).value[i][j]
  {
    ResumeAfter(src, H, W, cells, k);
    var next := CellStep(src, H, W, AllSteps(src, H, W, src, cells[..k]).value, cells[k]).value;
    var later := cells[k + 1..];
    assert forall m :: 0 <= m < |later| ==> later[m] == cells[k + 1 + m];
    CompositeKeepsUncovered(src, H, W, next, later, i, j);
  }

  /** When the cells up to k all go through, the loop carries on after cell k from the image it left. */
  lemma ResumeAfter(src: Image, H: int, W: int, cells: seq<Cell>, k: int)
    requires IsGrid(src, H, W) && 0 <= k < |cells|
    requires AllSteps(src, H, W, src, cells[..k + 1]).Some?
    ensures AllSteps(src, H, W, src, cells[..k]).Some?
    ensures CellStep(src, H, W, AllSteps(src, H, W, src, cells[..k]).value, cells[k]).Some?
    ensures Composite(src, H, W, src, cells)
            == Composite(src, H, W, CellStep(src, H, W, AllSteps(src, H, W, src, cells[..k]).value, cells[k]).value,
                         cells[k + 1..])
  {
    var before, rest := cells[..k], cells[k..];
    assert cells[..k + 1] == before + [cells[k]];
    AllStepsSnoc(src, H, W, src, before, cells[k]);
    assert cells == before + rest;
    CompositeAfter(src, H, W, src, before, rest);
    assert rest[0] == cells[k] && rest[1..] == cells[k + 1..];
  }

  /** Inside the paste region of a cell that went through, the step shows the cell's rotated cut-out. */
  lemma StepShowsTile(src: Image, H: int, W: int, canvas: Image, cell: Cell, i: int, j: int)
    requires IsGrid(src, H, W) && IsGrid(canvas, H, W) && 0 <= i < H && 0 <= j < W
    requires CellStep(src, H, W, canvas, cell).Some?
    requires Inside(CellRect(cell), H, W) && CellRect(cell).width > 0 && CellRect(cell).height > 0
    requires InRect(PasteRect(cell, H, W), i, j)
    ensures var at := PasteRect(cell, H, W);
            CellStep(src, H, W, canvas, cell).value[i][j] == Tile(src, H, W, cell)[i - at.y][j - at.x]
  {
    var at := PasteRect(cell, H, W);
    var next := CellStep(src, H, W, canvas, cell).value;
    assert Crop(next, H, W, at) == Tile(src, H, W, cell);
    CropPixel(next, H, W, at, i, j);
  }

  /** The paste region of a cell that went through covers pixel (i, j). */
  predicate PasteCovers(cell: Cell, H: int, W: int, i: int, j: int) {
    Inside(CellRect(cell), H, W) && InRect(PasteRect(cell, H, W), i, j)
  }

  /** A pixel that no cell's paste region covers keeps its value from the starting image. */
  lemma {:induction false} CompositeKeepsUncovered(src: Image, H: int, W: int, canvas: Image, cells: seq<Cell>, i: int, j: int)
    requires IsGrid(src, H, W) && IsGrid(canvas, H, W) && 0 <= i < H && 0 <= j < W
    requires forall k :: 0 <= k < |cells| ==> !PasteCovers(cells[k], H, W, i, j)
    ensures Composite(src, H, W, canvas, cells)[i][j] == canvas[i][j]
    decreases |cells|
  {
    if cells != [] {
      var step := CellStep(src, H, W, canvas, cells[0]);
      if step.Some? {
        assert !PasteCovers(cells[0], H, W, i, j);
        assert step.value[i][j] == canvas[i][j];
        assert forall k :: 0 <= k < |cells[1..]| ==> cells[1..][k] == cells[k + 1];
        CompositeKeepsUncovered(src, H, W, step.value, cells[1..], i, j);
      }
    }
  }

  /**
   * A square cell with whole-pixel crossings is turned in place: its tile is pasted exactly over
   * the region it was cut from.
   */
  lemma SquareCellInPlace(cell: Cell, H: int, W: int)
    requires Inside(CellRect(cell), H, W)
    requires cell.topLeft.x == CellRect(cell).x as real && cell.topLeft.y == CellRect(cell).y as real
    requires cell.bottomRight.x - cell.topLeft.x == CellRect(cell).width as real
    requires cell.bottomRight.y - cell.topLeft.y == CellRect(cell).height as real
    requires CellRect(cell).width == CellRect(cell).height
    ensures PasteRect(cell, H, W) == CellRect(cell)
  {
    var roi := CellRect(cell);
    assert cell.topLeft.x + (cell.bottomRight.x - cell.topLeft.x - roi.height as real) / 2.0 == roi.x as real;
    assert cell.topLeft.y + (cell.bottomRight.y - cell.topLeft.y - roi.width as real) / 2.0 == roi.y as real;
  }

  /** One turn of the loop of rotate_bbox, on the image built so far, stated with the loop's own tests. */
  lemma CompositeUnfold(src: Image, H: int, W: int, canvas: Image, cells: seq<Cell>)
    requires IsGrid(src, H, W) && IsGrid(canvas, H, W) && cells != []
    ensures !Inside(CellRect(cells[0]), H, W) ==> Composite(src, H, W, canvas, cells) == canvas
    ensures Inside(CellRect(cells[0]), H, W) && (CellRect(cells[0]).width == 0 || CellRect(cells[0]).height == 0) ==>
              Composite(src, H, W, canvas, cells) == Composite(src, H, W, canvas, cells[1..])
    ensures Inside(CellRect(cells[0]), H, W) && CellRect(cells[0]).width > 0 && CellRect(cells[0]).height > 0 ==>
              (!Inside(PasteRect(cells[0], H, W), H, W) ==> Composite(src, H, W, canvas, cells) == canvas)
              && (Inside(PasteRect(cells[0], H, W), H, W) ==>
                    Composite(src, H, W, canvas, cells)
                    == Composite(src, H, W, Paste(canvas, H, W, Tile(src, H, W, cells[0]), PasteRect(cells[0], H, W)),
                                 cells[1..]))
  {
  }

  /** rotate_bbox: clone the image, then rotate and paste cell after cell into the clone. */
  method RotateBBox(img: array2<Pixel>, cells: seq<Cell>) returns (rotated: array2<Pixel>)
    ensures fresh(rotated)
    ensures Snapshot(rotated)
            == Composite(Snapshot(img), img.Length0, img.Length1, Snapshot(img), cells)
  {
    ghost var src := Snapshot(img);
    var H, W := img.Length0, img.Length1;
    rotated := Clone(img);
    var i := 0;
    while i < |cells|
      invariant 0 <= i <= |cells|
      invariant rotated.Length0 == H && rotated.Length1 == W && Snapshot(img) == src
      invariant Composite(src, H, W, src, cells) == Composite(src, H, W, Snapshot(rotated), cells[i..])
    {
      CompositeUnfold(src, H, W, Snapshot(rotated), cells[i..]);
      assert cells[i..][0] == cells[i] && cells[i..][1..] == cells[i + 1..];
      var roi := CellRect(cells[i]);
      if !Inside(roi, H, W) {
        return;
      }
      if roi.width > 0 && roi.height > 0 {
        var tile := Tile(Snapshot(img), H, W, cells[i]);
        var at := PasteRect(cells[i], H, W);
        if !Inside(at, H, W) {
          return;
        }
        PasteTile(rotated, tile, at);
      }
      i := i + 1;
    }
  }
}
