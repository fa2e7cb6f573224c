# Grid correction for photographed answer sheets, in Dafny

`processImage` in `src/lib/utils/fileProcessor.ts` straightens a photographed table before text
recognition. It finds the outer boundary of the table, which is the approximating polygon of the
contour with the largest area. It settles that boundary on four corners, sorts the corners into
top-left, top-right, bottom-left and bottom-right, and interpolates a `rows` x `cols` grid of cells
between them. Each cell is cut out of the image, turned a quarter clockwise, and pasted back
centred on where it was. Last, the boundary region is cut out and turned a quarter
counter-clockwise.

This project models that geometry and raster composition and proves properties of it:

- `outcomes.dfy` (`Outcomes`): the failure kinds, plus `Result` and `Option`.
- `geometry.dfy` (`Geometry`): points, lines, and `find_intersections` over exact reals.
- `corners.dfy` (`Corners`): the largest-contour pick, the corner-count check with its
  bounding-rectangle fallback, and `sortCorners` as a loop over a four-slot sequence.
- `grid.dfy` (`Grid`): the two edge-interpolation loops and the nested cell loop.
- `raster.dfy` (`Raster`): images as rows of pixels, regions of interest, the two quarter turns,
  and the in-place paste into a pixel buffer (`array2`).
- `compositor.dfy` (`Compositor`): `rotate_bbox`, a loop over the cells that writes into a clone
  of the image.
- `pipeline.dfy` (`Pipeline`): `processImage` from the contour areas onwards, as a specification
  function `Process` and as a method `ProcessImage` proved equal to it.

Modelling choices:

- Pixel coordinates, `rows` and `cols` are mathematical integers. Intersection points, the centre
  of the corners and the centring arithmetic of `rotate_bbox` are exact reals.
- `Math.floor(a + ((b - a) * i) / n)` with integer `a`, `b`, `i` and `n > 0` equals Dafny's
  `a + (b - a) * i / n`, because Dafny's `/` floors when the divisor is positive.
- A number stored into an integer field of `cv.Rect` loses its fraction towards zero (`Trunc`).
- `cv.boundingRect` of a point set spans from the least to one past the greatest coordinate. Its
  width is `max - min + 1`, so the fallback corners at `x + width` and `y + height` lie one pixel
  beyond the largest vertex coordinates. This follows the code. A plain min/max reading of
  "bounding rectangle" would put them on the largest coordinates.
- An exception is an `Err` of the `Failure` kind that names it:
  - `Thrown(message)` for the two errors the code throws itself.
  - `UndefinedCorner` for reading a coordinate of a `sortCorners` slot that no corner reached.
  - `RegionOutOfRange` for OpenCV refusing a region of interest.
  - `NoContour` when there is no contour at all.
- Inside `rotate_bbox`, `return rotated_img` in the `finally` block discards the exception. The
  loop stops at the first cell whose region OpenCV refuses, and the partly composited image is
  returned (`Composite`, `CompositeAfter`).
- Two consequences of the branch order in `sortCorners`:
  - Its last branch sends every corner that fails the three strict tests to slot 0 (top right).
    A corner on a centre axis therefore goes there, not only a corner with x > cx and y < cy.
  - Two corners in one quadrant leave another slot empty, even for a convex quadrilateral
    (`SkewedQuadLeavesSlotEmpty`). Order independence holds when the four corners fall into four
    different slots (`SlotsPermutationInvariant`), for instance for the corners of an
    axis-aligned rectangle (`RectangleSorted`).
- With `rows < 1` or `cols < 1` there are no cells. The edge lists (`NaN` points when a count is
  0) are then never used, and the model does not build them. Which corner slots are read still
  depends on whether either interpolation loop runs (`Boundary`).

## Model

| member | source | states |
|---|---|---|
| Geometry.FindIntersection | src/lib/utils/fileProcessor.ts:5-22 | fails with "lines do not intersect" exactly when the two lines are parallel; otherwise the point lies on both lines |
| Geometry.ParallelIffSingular | src/lib/utils/fileProcessor.ts:6-16 | the determinant of the two difference vectors is zero exactly when the lines are parallel |
| Geometry.IntersectionOnBothLines | src/lib/utils/fileProcessor.ts:18-21 | for a non-zero determinant, Cramer's-rule coordinates satisfy the line equation of the row line and of the column line |
| Geometry.IntersectionUnique | src/lib/utils/fileProcessor.ts:5-22 | for non-parallel lines, any point on both lines is exactly the point returned |
| Geometry.EndsOnLine | src/lib/utils/fileProcessor.ts:215-218 | both points a grid line is drawn through lie on that line |
| Corners.LargestContour | src/lib/utils/fileProcessor.ts:126-133 | nothing for no contours; otherwise an index of greatest area with every earlier area strictly smaller, i.e. the head of a stable descending sort |
| Corners.BoundingRect | src/lib/utils/fileProcessor.ts:155-161 | covers every vertex half-open, and each of its four sides is reached by some vertex |
| Corners.NormalizeCorners | src/lib/utils/fileProcessor.ts:151-169 | fewer than four vertices throw "網格邊界不清楚"; four are kept; more give an axis-aligned rectangle containing every vertex, its corners within [min, max + 1] of the vertices |
| Corners.SortCorners | src/lib/utils/fileProcessor.ts:24-46 | the loop leaves in slot k the last corner whose quadrant test selects k, or nothing |
| Corners.PlacedSound | src/lib/utils/fileProcessor.ts:33-44 | a filled slot holds one of the corners, and that corner's test selects this slot |
| Corners.PlacedComplete | src/lib/utils/fileProcessor.ts:33-44 | the slot selected for each corner is filled |
| Corners.CentroidIsMean | src/lib/utils/fileProcessor.ts:25-32 | the centre is the arithmetic mean of the four corners |
| Corners.SlotQuadrants | src/lib/utils/fileProcessor.ts:34-44 | each filled slot 3/2/1 passes its strict quadrant test (BR, BL, TL); slot 0 holds a corner that passes none |
| Corners.TotalPermutation | src/lib/utils/fileProcessor.ts:25-30 | the coordinate sums do not depend on the order of the corners |
| Corners.SlotsPermutationInvariant | src/lib/utils/fileProcessor.ts:24-46 | when the four corners select four different slots, every slot is filled and any reordering of the corners gives the same slots |
| Corners.RectangleSorted | src/lib/utils/fileProcessor.ts:24-46 | the corners of an axis-aligned rectangle of positive size, in any order, sort to TR, TL, BL, BR |
| Corners.FallbackSorted | src/lib/utils/fileProcessor.ts:153-180 | after the more-than-four fallback every slot is filled, with TL.x < TR.x and TL.y < BL.y |
| Corners.SkewedQuadLeavesSlotEmpty | src/lib/utils/fileProcessor.ts:33-44 | for the convex quadrilateral (0,0), (10,0), (12,10), (11,11) the bottom-left slot stays undefined |
| Grid.EdgeList | src/lib/utils/fileProcessor.ts:183-195 | n + 1 points, the first the start corner, the last the end corner, point i at floored fraction i/n |
| Grid.LerpEnds | src/lib/utils/fileProcessor.ts:186-191 | the floored interpolation gives the start coordinate at i = 0 and the end coordinate at i = n |
| Grid.LerpBetween | src/lib/utils/fileProcessor.ts:186-191 | the interpolated coordinate stays between the two end coordinates and moves monotonically from one to the other |
| Grid.EdgePointBetween | src/lib/utils/fileProcessor.ts:185-192 | every edge point lies in the axis-aligned box spanned by the two corners of its edge |
| Grid.RowEdges | src/lib/utils/fileProcessor.ts:181-195 | the first loop yields the left and right edge lists from TL to BL and from TR to BR |
| Grid.ColumnEdges | src/lib/utils/fileProcessor.ts:197-211 | the second loop yields the top and bottom edge lists from TL to TR and from BL to BR |
| Grid.CellOf | src/lib/utils/fileProcessor.ts:215-224 | cell (r, c) fails with "lines do not intersect" exactly when one of its four line pairs is parallel; otherwise each crossing lies on its row line r or r + 1 and its column line c or c + 1 |
| Grid.RowCellsShape | src/lib/utils/fileProcessor.ts:214-225 | a row gives its cells left to right, cell c at index c, and fails exactly when one of its cells fails |
| Grid.RowsUpToLayout | src/lib/utils/fileProcessor.ts:212-226 | when built, the first m rows give m * cols cells in row-major order, cell (r, c) at index r * cols + c |
| Grid.AppendRow | src/lib/utils/fileProcessor.ts:213-225 | appending the next row's cells keeps the row-major layout |
| Grid.RowsUpToFailure | src/lib/utils/fileProcessor.ts:212-226 | the cell list fails exactly when some cell fails, and then with "lines do not intersect" |
| Grid.ErrorPersists | src/lib/utils/fileProcessor.ts:212-226 | once a row fails, later rows are not built and the first error stands |
| Grid.RowErrorPersists | src/lib/utils/fileProcessor.ts:214-225 | once a cell fails, the rest of its row is not built and the error stands |
| Grid.BuildCells | src/lib/utils/fileProcessor.ts:212-226 | the nested loop returns the row-major cell list, or the error of the first cell that throws |
| Grid.CornerCell | src/lib/utils/fileProcessor.ts:219-224 | a point on both lines of a crossing of a built cell is that crossing |
| Grid.OuterCrossings | src/lib/utils/fileProcessor.ts:212-226 | when the outer grid lines run between four points, the corner cells' outer crossings are those points |
| Raster.Crop | src/lib/utils/fileProcessor.ts:59-60 | the region of interest has the region's size and shows the pixels under it |
| Raster.RotateCW | src/lib/utils/fileProcessor.ts:61 | a clockwise quarter turn of an h x w image is w x h, pixel (i, j) taken from (h - 1 - j, i) |
| Raster.RotateCCW | src/lib/utils/fileProcessor.ts:231 | a counter-clockwise quarter turn of an h x w image is w x h, pixel (i, j) taken from (j, w - 1 - i) |
| Raster.RotateRoundTrip | src/lib/utils/fileProcessor.ts:61 | a counter-clockwise turn undoes a clockwise one |
| Raster.RotateRoundTripReverse | src/lib/utils/fileProcessor.ts:231 | a clockwise turn undoes a counter-clockwise one |
| Raster.Paste | src/lib/utils/fileProcessor.ts:69-71 | after the paste the region shows the tile, and every pixel outside it is unchanged |
| Raster.Clone | src/lib/utils/fileProcessor.ts:49 | a new buffer of the same size holding the same pixels |
| Raster.PasteTile | src/lib/utils/fileProcessor.ts:69-71 | the in-place copy into the buffer leaves it equal to the paste of the tile onto its old contents |
| Compositor.Trunc | src/lib/utils/fileProcessor.ts:59 | the integer part towards zero: within one below a non-negative number, within one above a negative one |
| Compositor.CellRect | src/lib/utils/fileProcessor.ts:53-59 | the cut-out region is built from the cell's top-left and bottom-right crossings only; its origin, width and height are those reals truncated, each within one below a non-negative value |
| Compositor.PasteOrigin | src/lib/utils/fileProcessor.ts:65-69 | the paste origin is clamped into [0, bound - size] when the tile fits, and is 0 when it does not; it is the floor of the centred position when that lies in range, 0 when it lies before the start, and bound - size when it lies past the end |
| Compositor.PasteRect | src/lib/utils/fileProcessor.ts:63-69 | the paste region is as wide as the cut-out is high and as high as it is wide, and lies inside the image exactly when the tile is no larger than the image |
| Compositor.Tile | src/lib/utils/fileProcessor.ts:53-61 | the rotated cut-out of a w x h region is h x w |
| Compositor.CellStep | src/lib/utils/fileProcessor.ts:52-73 | fails exactly when the cut-out region or the paste region is refused; otherwise the paste region shows the cell's rotated cut-out of the source, and every other pixel is unchanged |
| Compositor.Composite | src/lib/utils/fileProcessor.ts:48-78 | the composited image keeps the size of the source; what its pixels show is stated by `CompositeShowsTile` and `CompositeKeepsUncovered` |
| Compositor.AllSteps | src/lib/utils/fileProcessor.ts:52-73 | when every cell goes through, the result keeps the size of the source |
| Compositor.AllStepsSnoc | src/lib/utils/fileProcessor.ts:52-73 | running one more cell after a list fails if the list failed, and is otherwise that cell's step on the image the list built |
| Compositor.ResumeAfter | src/lib/utils/fileProcessor.ts:52-76 | when the cells up to k all go through, the returned image is what the loop builds from cell k + 1 on, starting from the image cell k left |
| Compositor.KeptAfter | src/lib/utils/fileProcessor.ts:52-76 | a pixel that no cell after k pastes over keeps, in the returned image, the value that cell k's step gave it |
| Compositor.StepShowsTile | src/lib/utils/fileProcessor.ts:59-71 | inside the paste region of a cell that goes through, the step shows the cell's rotated cut-out of the source |
| Compositor.CompositeShowsTile | src/lib/utils/fileProcessor.ts:48-78 | when the cells up to k all go through, every pixel of cell k's paste region that no later cell pastes over shows cell k's rotated cut-out of the source in the returned image |
| Compositor.CompositeUnfold | src/lib/utils/fileProcessor.ts:52-73 | one turn of the loop: a refused cut-out or paste region ends it with the image so far, an empty cut-out leaves the image as it is, otherwise the tile is pasted and the loop goes on |
| Compositor.CompositeAfter | src/lib/utils/fileProcessor.ts:74-76 | after a prefix of cells that all go through, the loop continues from the image they built; when the next cell throws, that image is returned |
| Compositor.CompositeKeepsUncovered | src/lib/utils/fileProcessor.ts:48-78 | a pixel covered by no cell's paste region keeps its value from the clone |
| Compositor.SquareCellInPlace | src/lib/utils/fileProcessor.ts:65-69 | a square cell with whole-pixel crossings is pasted back exactly over the region it was cut from |
| Compositor.RotateBBox | src/lib/utils/fileProcessor.ts:48-78 | returns a new buffer holding the composite of the source's cells over a copy of the source; the source is not written |
| Pipeline.Boundary | src/lib/utils/fileProcessor.ts:176-180 | reading an empty slot fails; the corners are taken as TR = slot 0, TL = slot 1, BL = slot 2, BR = slot 3; TR and BL are read only when an interpolation loop runs |
| Pipeline.GridEdges | src/lib/utils/fileProcessor.ts:181-211 | the four edge lists have rows + 1 and cols + 1 points |
| Pipeline.BoundaryRect | src/lib/utils/fileProcessor.ts:229 | the final region starts at the top-left corner and ends at the bottom-right corner |
| Pipeline.FinalCrop | src/lib/utils/fileProcessor.ts:228-231 | fails exactly when the TL-to-BR region leaves the image; otherwise turning the result back clockwise gives that region of the composited image |
| Pipeline.TooFewCorners | src/lib/utils/fileProcessor.ts:132-152 | when the first contour of largest area has fewer than four vertices, processing throws "網格邊界不清楚" |
| Pipeline.FallbackHasEveryCorner | src/lib/utils/fileProcessor.ts:153-180 | a boundary polygon of more than four vertices never leads to an undefined corner |
| Pipeline.GridSpansBoundary | src/lib/utils/fileProcessor.ts:212-226 | when the cells are built there are rows * cols of them, and the outer crossings of the four corner cells are the four boundary corners |
| Pipeline.ProcessImage | src/lib/utils/fileProcessor.ts:126-231 | the sequence of loops and OpenCV steps returns what the specification function `Process` gives for the same image and contour data |

## Left out

- Loading the image: `new Image()`, object URLs and `cv.imread` are browser I/O. The model starts
  from a pixel buffer.
- The OpenCV vision primitives: `cvtColor`, `adaptiveThreshold`, `findContours`, `contourArea`,
  `arcLength` and `approxPolyDP`. The contour areas and each contour's approximating polygon are
  inputs. `cv.boundingRect` is modelled by its result.
- `drawContours`: the model's input image stands for `mat` after the green outline has been drawn
  on it. The drawing itself is not modelled.
- The debug `cv.circle` drawing. The `debug` constant is `false`.
- `.delete()`, `isDeleted()`, and the reuse of `tempMat` across cells. These are buffer lifetime
  bookkeeping on the OpenCV heap. A cell's tile is modelled as a fresh value.
- Pixel channels: a pixel is one opaque value, copied whole.
- Geometry.FindIntersection: computes over exact reals. IEEE rounding, infinities and `NaN` are not
  modelled, so "on both lines" holds exactly rather than within rounding.
- Compositor.Trunc: does not model the 32-bit wrap-around of embind's integer conversion, because
  pixel coordinates of a real image are far from 2^31.
- Pipeline.ProcessImage: `rows` and `cols` are integers. Fractional counts from the caller, and the
  `NaN` edge points of a zero count, are not modelled.
- Corners.LargestContour: with no contour at all, the code passes `undefined` to OpenCV and fails
  there. The model reports this as `NoContour` without following the binding's behaviour.
- `src/lib/services/geminiService.ts`, `src/lib/utils/pdf2img.ts` and `src/lib/stores/toastStore.ts`
  are not part of this model. They are network, PDF rendering and UI notification plumbing.
