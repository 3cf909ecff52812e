// Day 9, part 1 (day9/solution.swift): red tiles at integer points; the
// largest rectangle of tiles having two red tiles as opposite corners.
module Day9Tiles {

  datatype Point = Point(x: int, y: int)

  function Abs(v: int): (a: int)
    ensures a >= 0 && (a == v || a == -v)
  {
    if v < 0 then -v else v
  }

  /** Tiles in the rectangle with corners p and q, both inclusive. */
  function Area(p: Point, q: Point): (a: int)
    ensures a >= 1
  {
    var w, h := Abs(q.x - p.x) + 1, Abs(q.y - p.y) + 1;
    assert w * h >= 1 by { PositiveProduct(w, h); }
    w * h
  }

  lemma PositiveProduct(a: int, b: int)
    requires a >= 1 && b >= 1
    ensures a * b >= 1 && a * b >= a && a * b >= b
  {
    assert a * b == a * (b - 1) + a;
    assert a * (b - 1) >= 0;
  }

  /** The two corners may be given in either order. */
  lemma AreaSymmetric(p: Point, q: Point)
    ensures Area(p, q) == Area(q, p)
  {
    assert Abs(q.x - p.x) == Abs(p.x - q.x) && Abs(q.y - p.y) == Abs(p.y - q.y);
  }

  /** The nested loops: the largest area over all pairs, 0 with fewer than two points. */
  method MaxArea(points: seq<Point>) returns (maxArea: int)
    ensures |points| < 2 ==> maxArea == 0
    ensures forall i, j :: 0 <= i < j < |points| ==> Area(points[i], points[j]) <= maxArea
    ensures |points| >= 2 ==> exists i, j :: 0 <= i < j < |points| && Area(points[i], points[j]) == maxArea
  {
    var n := |points|;
    maxArea := 0;
    ghost var bi, bj := -1, -1;
    for i := 0 to n
      invariant forall a, b :: 0 <= a < i && a < b < n ==> Area(points[a], points[b]) <= maxArea
      invariant maxArea == 0 <==> bi == -1
      invariant bi != -1 ==> 0 <= bi < bj < n && Area(points[bi], points[bj]) == maxArea
      invariant i >= 1 && n >= 2 ==> bi != -1
    {
      var best, at := RowMax(points, i, maxArea);
      if best != maxArea {
        bi, bj := i, at;
      }
      maxArea := best;
    }
  }

  /** The inner loop for point i: `maxArea = max(maxArea, area)` against every later point. */
  method RowMax(points: seq<Point>, i: nat, current: int) returns (best: int, ghost at: int)
    requires i < |points| && current >= 0
    ensures best >= current
    ensures forall b :: i < b < |points| ==> Area(points[i], points[b]) <= best
    ensures best != current ==> i < at < |points| && Area(points[i], points[at]) == best
    ensures i + 1 < |points| ==> best >= 1
  {
    best, at := current, -1;
    for j := i + 1 to |points|
      invariant best >= current
      invariant forall b :: i < b < j ==> Area(points[i], points[b]) <= best
      invariant best != current ==> i < at < |points| && Area(points[i], points[at]) == best
      invariant j > i + 1 ==> best >= 1
    {
      var p, q := points[i], points[j];
      var area := (Abs(q.x - p.x) + 1) * (Abs(q.y - p.y) + 1);
      assert area == Area(p, q);
      if area > best {
        best, at := area, j;
      }
    }
  }
}
