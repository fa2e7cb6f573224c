/**
 * From the detected boundary polygon to four ordered corners: the pick of the largest
 * contour, the corner-count check with its bounding-rectangle fallback, and sortCorners.
 */
module Corners {
  import opened Outcomes
  import opened Geometry

  // ---------------------------------------------------------------------------
  // Largest contour

  /**
   * The contour processImage approximates: the head of the contour indices stably sorted by
   * descending area, i.e. the first index of largest area. None when there is no contour.
   */
  function LargestContour(areas: seq<real>): (k: Option<nat>)
    ensures k.None? <==> areas == []
    ensures k.Some? ==> k.value < |areas|
    ensures k.Some? ==> forall j :: 0 <= j < |areas| ==> areas[j] <= areas[k.value]
    ensures k.Some? ==> forall j :: 0 <= j < k.value ==> areas[j] < areas[k.value]
  {
    if areas == [] then None
    else
      var last := |areas| - 1;
      match LargestContour(areas[..last])
      case None => Some(0)
      case Some(k) => if areas[last] > areas[k] then Some(last) else Some(k)
  }

  // ---------------------------------------------------------------------------
  // Bounding rectangle

  function Least(xs: seq<int>): (m: int)
    requires |xs| > 0
    ensures m in xs
    ensures forall i :: 0 <= i < |xs| ==> m <= xs[i]
  {
    if |xs| == 1 then xs[0]
    else
      var m := Least(xs[..|xs| - 1]);
      if xs[|xs| - 1] < m then xs[|xs| - 1] else m
  }

  function Greatest(xs: seq<int>): (m: int)
    requires |xs| > 0
    ensures m in xs
    ensures forall i :: 0 <= i < |xs| ==> xs[i] <= m
  {
    if |xs| == 1 then xs[0]
    else
      var m := Greatest(xs[..|xs| - 1]);
      if xs[|xs| - 1] > m then xs[|xs| - 1] else m
  }

  function Xs(ps: seq<IntPoint>): (xs: seq<int>)
    ensures |xs| == |ps| && forall i :: 0 <= i < |ps| ==> xs[i] == ps[i].x
  {
    seq(|ps|, i requires 0 <= i < |ps| => ps[i].x)
  }

  function Ys(ps: seq<IntPoint>): (ys: seq<int>)
    ensures |ys| == |ps| && forall i :: 0 <= i < |ps| ==> ys[i] == ps[i].y
  {
    seq(|ps|, i requires 0 <= i < |ps| => ps[i].y)
  }

  /** p lies in the half-open rectangle [x, x + width) x [y, y + height): the pixels the rectangle covers. */
  predicate Covers(r: Rect, p: IntPoint) {
    r.x <= p.x < r.x + r.width && r.y <= p.y < r.y + r.height
  }

  /**
   * cv.boundingRect of integer points: the smallest rectangle of pixels covering every point,
   * Rect(xmin, ymin, xmax - xmin + 1, ymax - ymin + 1).
   */
  function BoundingRect(ps: seq<IntPoint>): (r: Rect)
    requires |ps| > 0
    ensures r.width >= 1 && r.height >= 1
    ensures forall i :: 0 <= i < |ps| ==> Covers(r, ps[i])
    ensures exists i :: 0 <= i < |ps| && ps[i].x == r.x
    ensures exists i :: 0 <= i < |ps| && ps[i].x == r.x + r.width - 1
    ensures exists i :: 0 <= i < |ps| && ps[i].y == r.y
    ensures exists i :: 0 <= i < |ps| && ps[i].y == r.y + r.height - 1
  {
    var xs, ys := Xs(ps), Ys(ps);
    var x0, x1, y0, y1 := Least(xs), Greatest(xs), Least(ys), Greatest(ys);
    var r := Rect(x0, y0, x1 - x0 + 1, y1 - y0 + 1);
    assert forall i :: 0 <= i < |ps| ==> Covers(r, ps[i]) by {
      forall i | 0 <= i < |ps| ensures Covers(r, ps[i]) {
        assert xs[i] == ps[i].x && ys[i] == ps[i].y;
      }
    }
    r
  }

  /** The corners of the rectangle, in the order processImage lists them: TL, TR, BR, BL. */
  function RectCorners(r: Rect): seq<IntPoint> {
    [IntPoint(r.x, r.y), IntPoint(r.x + r.width, r.y),
     IntPoint(r.x + r.width, r.y + r.height), IntPoint(r.x, r.y + r.height)]
  }

  /** cs lists TL, TR, BR, BL of an axis-aligned rectangle of positive width and height. */
  predicate IsRectangle(cs: seq<IntPoint>) {
    |cs| == 4
    && cs[0].x < cs[1].x && cs[0].y < cs[3].y
    && cs[1] == IntPoint(cs[1].x, cs[0].y)
    && cs[2] == IntPoint(cs[1].x, cs[3].y)
    && cs[3] == IntPoint(cs[0].x, cs[3].y)
  }

  /**
   * The corner-count step: fewer than four vertices throw "grid boundary unclear", exactly four
   * are kept, and more than four are replaced by the corners of their bounding rectangle.
   */
  function NormalizeCorners(vertices: seq<IntPoint>): (r: Result<seq<IntPoint>>)
    ensures r.Err? <==> |vertices| < 4
    ensures r.Err? ==> r.error == Thrown(BoundaryUnclear)
    ensures |vertices| == 4 ==> r == Ok(vertices)
    ensures |vertices| > 4 ==> r.Ok? && IsRectangle(r.value)
    ensures |vertices| > 4 ==>
              forall i :: 0 <= i < |vertices| ==>
                r.value[0].x <= vertices[i].x < r.value[2].x && r.value[0].y <= vertices[i].y < r.value[2].y
    ensures |vertices| > 4 ==>
              forall j :: 0 <= j < 4 ==>
                Least(Xs(vertices)) <= r.value[j].x <= Greatest(Xs(vertices)) + 1
                && Least(Ys(vertices)) <= r.value[j].y <= Greatest(Ys(vertices)) + 1
  {
    if |vertices| < 4 then
      Err(Thrown(BoundaryUnclear))
    else if |vertices| > 4 then
      var rect := BoundingRect(vertices);
      Ok(RectCorners(rect))
    else
      Ok(vertices)
  }

  // ---------------------------------------------------------------------------
  // sortCorners

  /** corners.reduce((acc, c) => acc + c, (0, 0)): the coordinate sums, folded from the left. */
  function Total(ps: seq<IntPoint>): IntPoint {
    if ps == [] then IntPoint(0, 0)
    else
      var t := Total(ps[..|ps| - 1]);
      IntPoint(t.x + ps[|ps| - 1].x, t.y + ps[|ps| - 1].y)
  }

  /** The centre sortCorners compares against: the coordinate sums divided by the corner count. */
  function Centroid(ps: seq<IntPoint>): Point
    requires |ps| > 0
  {
    Point(Total(ps).x as real / |ps| as real, Total(ps).y as real / |ps| as real)
  }

  /**
   * The slot sortCorners writes a corner to: 3 (bottom right), 2 (bottom left), 1 (top left),
   * and 0 (top right) for everything else, a corner on a centre axis included.
   */
  function Slot(p: IntPoint, c: Point): (k: nat)
    ensures k < 4
  {
    if p.x as real > c.x && p.y as real > c.y then 3
    else if p.x as real < c.x && p.y as real > c.y then 2
    else if p.x as real < c.x && p.y as real < c.y then 1
    else 0
  }

  /** What slot k holds after visiting ps in order: the last corner sent there, or nothing. */
  function Placed(ps: seq<IntPoint>, c: Point, k: nat): Option<IntPoint> {
    if ps == [] then None
    else if Slot(ps[|ps| - 1], c) == k then Some(ps[|ps| - 1])
    else Placed(ps[..|ps| - 1], c, k)
  }

  /** The array sortCorners returns: slots 0..3 for TR, TL, BL, BR; a slot no corner reached stays undefined. */
  function SortedSlots(ps: seq<IntPoint>): (s: seq<Option<IntPoint>>)
    requires |ps| == 4
  {
    var c := Centroid(ps);
    [Placed(ps, c, 0), Placed(ps, c, 1), Placed(ps, c, 2), Placed(ps, c, 3)]
  }

  /** sortCorners: one pass over the corners, overwriting the slot of each. */
  method SortCorners(corners: seq<IntPoint>) returns (sorted: seq<Option<IntPoint>>)
    requires |corners| == 4
    ensures sorted == SortedSlots(corners)
  {
    var center := Centroid(corners);
    sorted := [None, None, None, None];
    for i := 0 to |corners|
      invariant |sorted| == 4
      invariant forall k :: 0 <= k < 4 ==> sorted[k] == Placed(corners[..i], center, k)
    {
      var corner := corners[i];
      if corner.x as real > center.x && corner.y as real > center.y {
        sorted := sorted[3 := Some(corner)];
      } else if corner.x as real < center.x && corner.y as real > center.y {
        sorted := sorted[2 := Some(corner)];
      } else if corner.x as real < center.x && corner.y as real < center.y {
        sorted := sorted[1 := Some(corner)];
      } else {
        sorted := sorted[0 := Some(corner)];
      }
      assert corners[..i + 1][..i] == corners[..i];
    }
    assert corners[..|corners|] == corners;
  }

  /** A filled slot holds one of the corners, and that corner's slot is this one. */
  lemma {:induction false} PlacedSound(ps: seq<IntPoint>, c: Point, k: nat)
    requires Placed(ps, c, k).Some?
    ensures Placed(ps, c, k).value in ps && Slot(Placed(ps, c, k).value, c) == k
  {
    if Slot(ps[|ps| - 1], c) != k {
      PlacedSound(ps[..|ps| - 1], c, k);
    }
  }

  /** The slot of every corner is filled. */
  lemma {:induction false} PlacedComplete(ps: seq<IntPoint>, c: Point, p: IntPoint)
    requires p in ps
    ensures Placed(ps, c, Slot(p, c)).Some?
  {
    if Slot(ps[|ps| - 1], c) != Slot(p, c) {
      assert p in ps[..|ps| - 1] by {
        assert ps == ps[..|ps| - 1] + [ps[|ps| - 1]];
      }
      PlacedComplete(ps[..|ps| - 1], c, p);
    }
  }

  /** The centre is the arithmetic mean of the four corners. */
  lemma CentroidIsMean(ps: seq<IntPoint>)
    requires |ps| == 4
    ensures Centroid(ps).x == (ps[0].x + ps[1].x + ps[2].x + ps[3].x) as real / 4.0
    ensures Centroid(ps).y == (ps[0].y + ps[1].y + ps[2].y + ps[3].y) as real / 4.0
  {
    assert ps[..1][..0] == [] && ps[..2][..1] == ps[..1] && ps[..3][..2] == ps[..2] && ps[..|ps| - 1] == ps[..3];
    assert Total(ps[..1]) == ps[0];
    assert Total(ps[..2]) == IntPoint(ps[0].x + ps[1].x, ps[0].y + ps[1].y);
    assert Total(ps[..3]) == IntPoint(ps[0].x + ps[1].x + ps[2].x, ps[0].y + ps[1].y + ps[2].y);
    assert Total(ps) == IntPoint(ps[0].x + ps[1].x + ps[2].x + ps[3].x, ps[0].y + ps[1].y + ps[2].y + ps[3].y);
  }

  /**
   * Each filled slot passes its own quadrant test against the centre, strictly:
   * BR (slot 3) x > cx and y > cy, BL (slot 2) x < cx and y > cy, TL (slot 1) x < cx and y < cy;
   * slot 0 holds a corner that passes none of the three.
   */
  lemma SlotQuadrants(ps: seq<IntPoint>)
    requires |ps| == 4
    ensures var s, c := SortedSlots(ps), Centroid(ps);
            (s[3].Some? ==> s[3].value in ps && s[3].value.x as real > c.x && s[3].value.y as real > c.y)
            && (s[2].Some? ==> s[2].value in ps && s[2].value.x as real < c.x && s[2].value.y as real > c.y)
            && (s[1].Some? ==> s[1].value in ps && s[1].value.x as real < c.x && s[1].value.y as real < c.y)
            && (s[0].Some? ==> s[0].value in ps
                               && !(s[0].value.x as real > c.x && s[0].value.y as real > c.y)
                               && !(s[0].value.x as real < c.x && s[0].value.y as real > c.y)
                               && !(s[0].value.x as real < c.x && s[0].value.y as real < c.y))
  {
    var c := Centroid(ps);
    forall k | 0 <= k < 4 && Placed(ps, c, k).Some?
      ensures Placed(ps, c, k).value in ps && Slot(Placed(ps, c, k).value, c) == k
    {
      PlacedSound(ps, c, k);
    }
  }

  lemma {:induction false} TotalAppend(a: seq<IntPoint>, b: seq<IntPoint>)
    ensures Total(a + b) == IntPoint(Total(a).x + Total(b).x, Total(a).y + Total(b).y)
  {
    if b != [] {
      assert (a + b)[..|a + b| - 1] == a + b[..|b| - 1];
      TotalAppend(a, b[..|b| - 1]);
    } else {
      assert a + b == a;
    }
  }

  /** The coordinate sums, hence the centre, do not depend on the order of the corners. */
  lemma {:induction false} TotalPermutation(ps: seq<IntPoint>, qs: seq<IntPoint>)
    requires multiset(ps) == multiset(qs)
    ensures Total(ps) == Total(qs)
    decreases |ps|
  {
    if ps == [] {
      assert |qs| == |multiset(qs)| == 0;
    } else {
      var last := ps[|ps| - 1];
      var init := ps[..|ps| - 1];
      var i := MatchLast(ps, qs);
      var rest := qs[..i] + qs[i + 1..];
      TotalPermutation(init, rest);
      assert Total(qs) == IntPoint(Total(rest).x + last.x, Total(rest).y + last.y) by {
        assert qs == qs[..i] + [last] + qs[i + 1..];
        TotalSplit(qs[..i], last, qs[i + 1..]);
      }
    }
  }

  /**
   * For two orderings of the same non-empty multiset: a position i of the last element of ps in qs,
   * such that the rest of ps and qs without position i are again orderings of one multiset.
   */
  lemma MatchLast(ps: seq<IntPoint>, qs: seq<IntPoint>) returns (i: nat)
    requires ps != [] && multiset(ps) == multiset(qs)
    ensures i < |qs| && qs[i] == ps[|ps| - 1]
    ensures multiset(ps[..|ps| - 1]) == multiset(qs[..i] + qs[i + 1..])
  {
    var last := ps[|ps| - 1];
    assert ps == ps[..|ps| - 1] + [last];
    assert multiset(ps) == multiset(ps[..|ps| - 1]) + multiset{last};
    assert last in multiset(qs);
    i :| 0 <= i < |qs| && qs[i] == last;
    assert qs == qs[..i] + [qs[i]] + qs[i + 1..];
    assert multiset(qs) == multiset(qs[..i]) + multiset{qs[i]} + multiset(qs[i + 1..]);
    assert multiset(qs[..i] + qs[i + 1..]) == multiset(qs) - multiset{last};
    assert multiset(ps[..|ps| - 1]) == multiset(ps) - multiset{last};
  }

  lemma TotalSplit(before: seq<IntPoint>, p: IntPoint, after: seq<IntPoint>)
    ensures Total(before + [p] + after)
            == IntPoint(Total(before + after).x + p.x, Total(before + after).y + p.y)
  {
    TotalAppend(before, [p]);
    TotalAppend(before + [p], after);
    TotalAppend(before, after);
    assert Total([p]) == p by {
      assert [p][..0] == [];
    }
  }

  /** No two of the four corners fall into the same slot. */
  predicate DistinctSlots(ps: seq<IntPoint>)
    requires |ps| == 4
  {
    var c := Centroid(ps);
    forall i, j :: 0 <= i < j < 4 ==> Slot(ps[i], c) != Slot(ps[j], c)
  }

  /**
   * When the four corners fall into four different slots, every slot is filled and the result
   * does not depend on the order the corners come in.
   */
  lemma SlotsPermutationInvariant(ps: seq<IntPoint>, qs: seq<IntPoint>)
    requires |ps| == 4 && multiset(ps) == multiset(qs)
    requires DistinctSlots(ps)
    ensures |qs| == 4 && SortedSlots(ps) == SortedSlots(qs)
    ensures forall k :: 0 <= k < 4 ==> SortedSlots(ps)[k].Some?
  {
    assert |qs| == |multiset(qs)| == 4;
    TotalPermutation(ps, qs);
    var c := Centroid(ps);
    assert Centroid(qs) == c;
    // the four slots of ps[0..3] are 0..3 in some order
    forall k | 0 <= k < 4
      ensures Placed(ps, c, k) == Placed(qs, c, k) && Placed(ps, c, k).Some?
    {
      var i := OwnerOf(ps, c, k);
      PlacedComplete(ps, c, ps[i]);
      PlacedSound(ps, c, k);
      assert ps[i] in multiset(qs);
      PlacedComplete(qs, c, ps[i]);
      PlacedSound(qs, c, k);
      var p, q := Placed(ps, c, k).value, Placed(qs, c, k).value;
      assert q in multiset(ps);
      assert p == ps[i] && q == ps[i] by {
        forall j | 0 <= j < 4 && Slot(ps[j], c) == k ensures ps[j] == ps[i] {
          assert j == i;
        }
      }
    }
  }

  /** With four distinct slots among four corners, each slot belongs to exactly one corner. */
  lemma OwnerOf(ps: seq<IntPoint>, c: Point, k: nat) returns (i: nat)
    requires |ps| == 4 && c == Centroid(ps) && DistinctSlots(ps) && k < 4
    ensures i < 4 && Slot(ps[i], c) == k
    ensures forall j :: 0 <= j < 4 && Slot(ps[j], c) == k ==> j == i
  {
    var s0, s1, s2, s3 := Slot(ps[0], c), Slot(ps[1], c), Slot(ps[2], c), Slot(ps[3], c);
    assert s0 != s1 && s0 != s2 && s0 != s3 && s1 != s2 && s1 != s3 && s2 != s3;
    assert k == s0 || k == s1 || k == s2 || k == s3;
    i := if s0 == k then 0 else if s1 == k then 1 else if s2 == k then 2 else 3;
  }

  /**
   * The corners of an axis-aligned rectangle of positive width and height come out as
   * TR, TL, BL, BR in slots 0..3, whatever order they are given in.
   */
  lemma RectangleSorted(r: Rect, ps: seq<IntPoint>)
    requires r.width > 0 && r.height > 0
    requires multiset(ps) == multiset(RectCorners(r))
    ensures |ps| == 4
    ensures SortedSlots(ps) == [Some(RectCorners(r)[1]), Some(RectCorners(r)[0]),
                                Some(RectCorners(r)[3]), Some(RectCorners(r)[2])]
  {
    var cs := RectCorners(r);
    assert |ps| == |multiset(ps)| == 4;
    TotalPermutation(ps, cs);
    CentroidIsMean(cs);
    var c := Centroid(cs);
    assert c == Point(r.x as real + r.width as real / 2.0, r.y as real + r.height as real / 2.0);
    assert Slot(cs[0], c) == 1 && Slot(cs[1], c) == 0 && Slot(cs[2], c) == 3 && Slot(cs[3], c) == 2;
    SlotsPermutationInvariant(cs, ps);
    forall k | 0 <= k < 4
      ensures Placed(cs, c, k).Some? && Placed(cs, c, k).value in cs && Slot(Placed(cs, c, k).value, c) == k
    {
      assert SortedSlots(cs)[k] == Placed(cs, c, k);
      PlacedSound(cs, c, k);
    }
  }

  /**
   * The more-than-four fallback always yields a complete quadrilateral: every slot is filled,
   * the top-left corner is left of the top-right one and above the bottom-left one.
   */
  lemma FallbackSorted(vertices: seq<IntPoint>)
    requires |vertices| > 4
    ensures var s := SortedSlots(NormalizeCorners(vertices).value);
            s[0].Some? && s[1].Some? && s[2].Some? && s[3].Some?
            && s[1].value.x < s[0].value.x && s[1].value.y < s[2].value.y
  {
    var r := BoundingRect(vertices);
    RectangleSorted(r, RectCorners(r));
  }

  /**
   * A convex quadrilateral can leave a slot empty: two of its corners share the bottom-right
   * quadrant of the centre, so the bottom-left slot stays undefined.
   */
  lemma SkewedQuadLeavesSlotEmpty()
    ensures var ps := [IntPoint(0, 0), IntPoint(10, 0), IntPoint(12, 10), IntPoint(11, 11)];
            SortedSlots(ps)[2].None? && SortedSlots(ps)[3] == Some(IntPoint(11, 11))
  {
    var ps := [IntPoint(0, 0), IntPoint(10, 0), IntPoint(12, 10), IntPoint(11, 11)];
    CentroidIsMean(ps);
    var c := Centroid(ps);
    assert c == Point(33.0 / 4.0, 21.0 / 4.0);
    if Placed(ps, c, 2).Some? {
      PlacedSound(ps, c, 2);
      assert false;
    }
  }
}
