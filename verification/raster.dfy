/**
 * Images as OpenCV holds them: a rows x cols grid of pixels. The two quarter-turn rotations and
 * rectangular regions of interest are values; the pixel buffer that rotate_bbox writes into is an array.
 */
module Raster {
  import opened Geometry

  /** One pixel. Its channels are always copied together and never inspected. */
  type Pixel = int

  /** An image as a list of rows. */
  type Image = seq<seq<Pixel>>

  /** m has h rows of w pixels each. */
  predicate IsGrid(m: Image, h: int, w: int) {
    |m| == h && 0 <= w && forall i :: 0 <= i < h ==> |m[i]| == w
  }

  /** OpenCV's test for a region of interest: it lies inside the H x W image (it may be empty). */
  predicate Inside(r: Rect, H: int, W: int) {
    0 <= r.x && 0 <= r.width && r.x + r.width <= W && 0 <= r.y && 0 <= r.height && r.y + r.height <= H
  }

  /** Pixel (i, j) lies in r. */
  predicate InRect(r: Rect, i: int, j: int) {
    r.y <= i < r.y + r.height && r.x <= j < r.x + r.width
  }

  /** The pixels of a buffer, row by row. */
  function Snapshot(a: array2<Pixel>): (m: Image)
    reads a
    ensures IsGrid(m, a.Length0, a.Length1)
    ensures forall i, j :: 0 <= i < a.Length0 && 0 <= j < a.Length1 ==> m[i][j] == a[i, j]
  {
    seq(a.Length0, i requires 0 <= i < a.Length0 reads a =>
      seq(a.Length1, j requires 0 <= j < a.Length1 reads a => a[i, j]))
  }

  /** Two images of the same shape that agree on every pixel are the same image. */
  lemma GridsEqual(m: Image, n: Image, h: int, w: int)
    requires IsGrid(m, h, w) && IsGrid(n, h, w)
    requires forall i, j :: 0 <= i < h && 0 <= j < w ==> m[i][j] == n[i][j]
    ensures m == n
  {
    forall i | 0 <= i < h ensures m[i] == n[i] {
      assert forall j :: 0 <= j < w ==> m[i][j] == n[i][j];
    }
  }

  /** The region of interest r of m (Mat.roi followed by a copy). */
  function Crop(m: Image, H: int, W: int, r: Rect): (c: Image)
    requires IsGrid(m, H, W) && Inside(r, H, W)
    ensures IsGrid(c, r.height, r.width)
    ensures forall i, j :: 0 <= i < r.height && 0 <= j < r.width ==> c[i][j] == m[r.y + i][r.x + j]
  {
    seq(r.height, i requires 0 <= i < r.height => m[r.y + i][r.x .. r.x + r.width])
  }

  /** Pixel (i, j) of m, inside region r, is the pixel of the region's cut-out at the offset from its corner. */
  lemma CropPixel(m: Image, H: int, W: int, r: Rect, i: int, j: int)
    requires IsGrid(m, H, W) && Inside(r, H, W) && InRect(r, i, j)
    ensures 0 <= i - r.y < r.height && 0 <= j - r.x < r.width
    ensures Crop(m, H, W, r)[i - r.y][j - r.x] == m[i][j]
  {
  }

  /**
   * ROTATE_90_CLOCKWISE of an h x w image: a w x h image whose row i is column i of m read
   * from the bottom up.
   */
  function RotateCW(m: Image, h: int, w: int): (r: Image)
    requires IsGrid(m, h, w)
    ensures IsGrid(r, w, h)
    ensures forall i, j :: 0 <= i < w && 0 <= j < h ==> r[i][j] == m[h - 1 - j][i]
  {
    seq(w, i requires 0 <= i < w => seq(h, j requires 0 <= j < h => m[h - 1 - j][i]))
  }

  /**
   * ROTATE_90_COUNTERCLOCKWISE of an h x w image: a w x h image whose row i is column
   * w - 1 - i of m read from the top down.
   */
  function RotateCCW(m: Image, h: int, w: int): (r: Image)
    requires IsGrid(m, h, w)
    ensures IsGrid(r, w, h)
    ensures forall i, j :: 0 <= i < w && 0 <= j < h ==> r[i][j] == m[j][w - 1 - i]
  {
    seq(w, i requires 0 <= i < w => seq(h, j requires 0 <= j < h => m[j][w - 1 - i]))
  }

  /** A counter-clockwise quarter turn undoes a clockwise one. */
  lemma RotateRoundTrip(m: Image, h: int, w: int)
    requires IsGrid(m, h, w)
    ensures RotateCCW(RotateCW(m, h, w), w, h) == m
  {
    var back := RotateCCW(RotateCW(m, h, w), w, h);
    forall i, j | 0 <= i < h && 0 <= j < w ensures back[i][j] == m[i][j] {
      assert back[i][j] == RotateCW(m, h, w)[j][h - 1 - i];
    }
    GridsEqual(back, m, h, w);
  }

  /** A clockwise quarter turn undoes a counter-clockwise one. */
  lemma RotateRoundTripReverse(m: Image, h: int, w: int)
    requires IsGrid(m, h, w)
    ensures RotateCW(RotateCCW(m, h, w), w, h) == m
  {
    var back := RotateCW(RotateCCW(m, h, w), w, h);
    forall i, j | 0 <= i < h && 0 <= j < w ensures back[i][j] == m[i][j] {
      assert back[i][j] == RotateCCW(m, h, w)[w - 1 - j][i];
    }
    GridsEqual(back, m, h, w);
  }

  /**
   * m with tile copied onto the region at (Mat.copyTo into a region of interest): the region now
   * shows the tile and every pixel outside it is unchanged.
   */
  function Paste(m: Image, H: int, W: int, tile: Image, at: Rect): (p: Image)
    requires IsGrid(m, H, W) && Inside(at, H, W) && IsGrid(tile, at.height, at.width)
    ensures IsGrid(p, H, W)
    ensures Crop(p, H, W, at) == tile
    ensures forall i, j :: 0 <= i < H && 0 <= j < W && !InRect(at, i, j) ==> p[i][j] == m[i][j]
  {
    var p := seq(H, i requires 0 <= i < H => seq(W, j requires 0 <= j < W =>
               if InRect(at, i, j) then tile[i - at.y][j - at.x] else m[i][j]));
    GridsEqual(Crop(p, H, W, at), tile, at.height, at.width);
    p
  }

  /** Mat.clone: a new buffer holding the same pixels. */
  method Clone(img: array2<Pixel>) returns (copy: array2<Pixel>)
    ensures fresh(copy)
    ensures copy.Length0 == img.Length0 && copy.Length1 == img.Length1
    ensures Snapshot(copy) == Snapshot(img)
  {
    copy := new Pixel[img.Length0, img.Length1]((i, j) reads img =>
              if 0 <= i < img.Length0 && 0 <= j < img.Length1 then img[i, j] else 0);
    GridsEqual(Snapshot(copy), Snapshot(img), img.Length0, img.Length1);
  }

  /** Pixel (p, q) is among the first i rows of the region at, or among the first j pixels of its row i. */
  predicate Written(at: Rect, i: int, j: int, p: int, q: int) {
    InRect(at, p, q) && (p < at.y + i || (p == at.y + i && q < at.x + j))
  }

  /** The buffer shows before with the written part of the region at replaced by the tile. */
  ghost predicate PastedUpTo(canvas: array2<Pixel>, before: Image, tile: Image, at: Rect, i: int, j: int)
    reads canvas
  {
    IsGrid(before, canvas.Length0, canvas.Length1) && IsGrid(tile, at.height, at.width)
    && Inside(at, canvas.Length0, canvas.Length1)
    && forall p, q :: 0 <= p < canvas.Length0 && 0 <= q < canvas.Length1 ==>
         canvas[p, q] == if Written(at, i, j, p, q) then tile[p - at.y][q - at.x] else before[p][q]
  }

  /** tile.copyTo(canvas.roi(at)): the tile is written into the region, row by row, in place. */
  method PasteTile(canvas: array2<Pixel>, tile: Image, at: Rect)
    requires Inside(at, canvas.Length0, canvas.Length1) && IsGrid(tile, at.height, at.width)
    modifies canvas
    ensures Snapshot(canvas) == Paste(old(Snapshot(canvas)), canvas.Length0, canvas.Length1, tile, at)
  {
    ghost var before := Snapshot(canvas);
    for i := 0 to at.height
      invariant PastedUpTo(canvas, before, tile, at, i, 0)
    {
      PasteRow(canvas, before, tile, at, i);
    }
    GridsEqual(Snapshot(canvas), Paste(before, canvas.Length0, canvas.Length1, tile, at),
               canvas.Length0, canvas.Length1);
  }

  /** Row i of the tile copied into row at.y + i of the buffer, pixel by pixel. */
  method PasteRow(canvas: array2<Pixel>, ghost before: Image, tile: Image, at: Rect, i: int)
    requires 0 <= i < at.height
    requires PastedUpTo(canvas, before, tile, at, i, 0)
    modifies canvas
    ensures PastedUpTo(canvas, before, tile, at, i + 1, 0)
  {
    for j := 0 to at.width
      invariant PastedUpTo(canvas, before, tile, at, i, j)
    {
      canvas[at.y + i, at.x + j] := tile[i][j];
    }
    assert forall p, q :: Written(at, i, at.width, p, q) == Written(at, i + 1, 0, p, q);
  }
}
