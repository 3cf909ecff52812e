// Day 9, part 2 (day9/solution2.swift): the red tiles, taken in input order,
// are the vertices of a rectilinear polygon. The answer is the largest
// rectangle with two red tiles as opposite corners that lies inside the
// polygon or on its boundary. Containment is decided with ray casting over
// the vertical edges and with merged x-ranges at each vertex row.
module Day9Polygon {
  import opened Optional
  import opened Sorting
  import opened Sums
  import opened Intervals
  import opened Day9Tiles

  /** A polygon edge from (x1, y1) to (x2, y2), with the computed properties of the source's `Edge`. */
  datatype Edge = Edge(x1: int, y1: int, x2: int, y2: int) {
    predicate IsVertical() {
      x1 == x2
    }

    predicate IsHorizontal() {
      y1 == y2
    }

    function MinY(): (m: int)
      ensures m <= y1 && m <= y2 && (m == y1 || m == y2)
    {
      if y1 <= y2 then y1 else y2
    }

    function MaxY(): (m: int)
      ensures m >= y1 && m >= y2 && (m == y1 || m == y2)
    {
      if y1 >= y2 then y1 else y2
    }

    function MinX(): (m: int)
      ensures m <= x1 && m <= x2 && (m == x1 || m == x2)
    {
      if x1 <= x2 then x1 else x2
    }

    function MaxX(): (m: int)
      ensures m >= x1 && m >= x2 && (m == x1 || m == x2)
    {
      if x1 >= x2 then x1 else x2
    }
  }

  /** Edge i runs from point i to point i + 1, wrapping around to point 0. */
  function EdgeOf(points: seq<Point>, i: nat): Edge
    requires i < |points|
  {
    var p, q := points[i], points[(i + 1) % |points|];
    Edge(p.x, p.y, q.x, q.y)
  }

  /** The edges close the polygon: each one starts at its own vertex and ends where the next one starts. */
  lemma EdgesClose(points: seq<Point>, i: nat)
    requires i < |points|
    ensures EdgeOf(points, i).x1 == points[i].x && EdgeOf(points, i).y1 == points[i].y
    ensures EdgeOf(points, i).x2 == EdgeOf(points, (i + 1) % |points|).x1
    ensures EdgeOf(points, i).y2 == EdgeOf(points, (i + 1) % |points|).y1
    ensures i == |points| - 1 ==> EdgeOf(points, i).x2 == points[0].x && EdgeOf(points, i).y2 == points[0].y
  {
  }

  /** The edge-building loop: one edge per point. */
  method BuildEdges(points: seq<Point>) returns (edges: seq<Edge>)
    ensures |edges| == |points|
    ensures forall i :: 0 <= i < |points| ==> edges[i] == EdgeOf(points, i)
  {
    edges := [];
    for i := 0 to |points|
      invariant |edges| == i
      invariant forall k :: 0 <= k < i ==> edges[k] == EdgeOf(points, k)
    {
      var p1 := points[i];
      var p2 := points[(i + 1) % |points|];
      edges := edges + [Edge(p1.x, p1.y, p2.x, p2.y)];
    }
  }

  /** The edges satisfying `keep`, in their original order (the source's `filter`). */
  function Select(edges: seq<Edge>, keep: Edge -> bool): (r: seq<Edge>)
    ensures |r| <= |edges|
    ensures forall e :: e in r <==> e in edges && keep(e)
  {
    if edges == [] then []
    else
      var init, last := edges[..|edges| - 1], edges[|edges| - 1];
      assert edges == init + [last];
      Select(init, keep) + (if keep(last) then [last] else [])
  }

  function ByX(e: Edge): (int, int) {
    (e.x1, 0)
  }

  function IntKey(x: int): (int, int) {
    (x, 0)
  }

  predicate Increasing(s: seq<int>) {
    forall i, j :: 0 <= i < j < |s| ==> s[i] < s[j]
  }

  /** Adds y to a strictly increasing list unless it is already there. */
  function InsertUnique(y: int, s: seq<int>): (r: seq<int>)
    requires Increasing(s)
    ensures Increasing(r)
    ensures forall v :: v in r <==> v in s || v == y
  {
    if s == [] || y < s[0] then [y] + s
    else if y == s[0] then s
    else
      var rest := InsertUnique(y, s[1..]);
      assert forall k :: 0 <= k < |rest| ==> s[0] < rest[k] by {
        forall k | 0 <= k < |rest| ensures s[0] < rest[k] {
          assert rest[k] in rest;
          if rest[k] != y {
            var j :| 0 <= j < |s[1..]| && s[1..][j] == rest[k];
            assert s[j + 1] == rest[k];
          }
        }
      }
      [s[0]] + rest
  }

  /** The distinct values, in increasing order (a `Set` followed by `sorted()`). */
  function DistinctSorted(s: seq<int>): (r: seq<int>)
    ensures Increasing(r)
    ensures forall v :: v in r <==> v in s
  {
    if s == [] then []
    else
      assert s == s[..|s| - 1] + [s[|s| - 1]];
      InsertUnique(s[|s| - 1], DistinctSorted(s[..|s| - 1]))
  }

  function Edges(points: seq<Point>): (edges: seq<Edge>)
    ensures |edges| == |points| && forall i :: 0 <= i < |points| ==> edges[i] == EdgeOf(points, i)
  {
    seq(|points|, i requires 0 <= i < |points| => EdgeOf(points, i))
  }

  /** The vertical edges, sorted by x. */
  function VerticalEdges(edges: seq<Edge>): (r: seq<Edge>)
    ensures SortedBy(r, ByX)
    ensures forall e :: e in r <==> e in edges && e.IsVertical()
  {
    var v := Select(edges, (e: Edge) => e.IsVertical());
    assert forall e :: e in SortBy(v, ByX) <==> e in v by {
      forall e ensures e in SortBy(v, ByX) <==> e in v {
        SortByElements(v, ByX, e);
      }
    }
    SortBy(v, ByX)
  }

  function HorizontalEdges(edges: seq<Edge>): (r: seq<Edge>)
    ensures forall e :: e in r <==> e in edges && e.IsHorizontal()
  {
    Select(edges, (e: Edge) => e.IsHorizontal())
  }

  /** The distinct vertex ys in increasing order. */
  function VertexYs(points: seq<Point>): (ys: seq<int>)
    ensures Increasing(ys)
    ensures forall y :: y in ys <==> exists k :: 0 <= k < |points| && points[k].y == y
  {
    var all := seq(|points|, k requires 0 <= k < |points| => points[k].y);
    assert forall y :: y in all <==> exists k :: 0 <= k < |points| && points[k].y == y by {
      forall y | y in all ensures exists k :: 0 <= k < |points| && points[k].y == y {
        var k :| 0 <= k < |all| && all[k] == y;
      }
      forall y | exists k :: 0 <= k < |points| && points[k].y == y ensures y in all {
        var k :| 0 <= k < |points| && points[k].y == y;
        assert all[k] == y;
      }
    }
    DistinctSorted(all)
  }

  /** The data the solver builds once from the points. */
  datatype Polygon = Polygon(points: seq<Point>, edges: seq<Edge>, vertical: seq<Edge>, horizontal: seq<Edge>, ys: seq<int>)

  function PolygonOf(points: seq<Point>): Polygon {
    var edges := Edges(points);
    Polygon(points, edges, VerticalEdges(edges), HorizontalEdges(edges), VertexYs(points))
  }

  /** The top-level set-up: builds the edges with the loop and derives the rest. */
  method Outline(points: seq<Point>) returns (poly: Polygon)
    ensures poly == PolygonOf(points)
  {
    var edges := BuildEdges(points);
    assert edges == Edges(points);
    poly := Polygon(points, edges, VerticalEdges(edges), HorizontalEdges(edges), VertexYs(points));
  }

  /** The edge strictly spans row y: the row passes through it and not through an end. */
  predicate Spans(e: Edge, y: int) {
    e.MinY() < y < e.MaxY()
  }

  /** The x of every edge that strictly spans row y, in edge order. */
  function Crossings(vs: seq<Edge>, y: int): (c: seq<int>)
    ensures |c| <= |vs|
  {
    if vs == [] then []
    else
      var last := vs[|vs| - 1];
      Crossings(vs[..|vs| - 1], y) + (if Spans(last, y) then [last.x1] else [])
  }

  /** The crossings are exactly the xs of the edges that strictly span row y. */
  lemma {:induction false} CrossingsMembers(vs: seq<Edge>, y: int, x: int)
    ensures x in Crossings(vs, y) <==> exists k :: 0 <= k < |vs| && Spans(vs[k], y) && vs[k].x1 == x
  {
    if vs != [] {
      var init, last := vs[..|vs| - 1], vs[|vs| - 1];
      CrossingsMembers(init, y, x);
      if exists k :: 0 <= k < |vs| && Spans(vs[k], y) && vs[k].x1 == x {
        var k :| 0 <= k < |vs| && Spans(vs[k], y) && vs[k].x1 == x;
        if k < |init| {
          assert init[k] == vs[k];
        }
      }
      if exists k :: 0 <= k < |init| && Spans(init[k], y) && init[k].x1 == x {
        var k :| 0 <= k < |init| && Spans(init[k], y) && init[k].x1 == x;
        assert vs[k] == init[k];
      }
    }
  }

  /** The crossing loop shared by `getInsideXRanges` and `getStrictInteriorXRange`. */
  method CollectCrossings(vs: seq<Edge>, y: int) returns (crossings: seq<int>)
    ensures crossings == Crossings(vs, y)
  {
    crossings := [];
    for k := 0 to |vs|
      invariant crossings == Crossings(vs[..k], y)
    {
      assert vs[..k + 1][..k] == vs[..k];
      if vs[k].MinY() < y && y < vs[k].MaxY() {
        crossings := crossings + [vs[k].x1];
      }
    }
    assert vs[..|vs|] == vs;
  }

  /** Consecutive sorted crossings paired up, an unpaired last crossing dropped. */
  function InsidePairs(s: seq<int>): (r: seq<Range>)
    ensures |r| == |s| / 2
    ensures forall k :: 0 <= k < |r| ==> r[k] == (s[2 * k], s[2 * k + 1])
  {
    if |s| < 2 then []
    else
      var rest := InsidePairs(s[2..]);
      assert forall k :: 1 <= k < |rest| + 1 ==> ([(s[0], s[1])] + rest)[k] == rest[k - 1];
      [(s[0], s[1])] + rest
  }

  /** `getInsideXRanges`: sort the crossings and pair them up left to right. */
  method GetInsideXRanges(vs: seq<Edge>, y: int) returns (ranges: seq<Range>)
    ensures ranges == InsidePairs(SortBy(Crossings(vs, y), IntKey))
  {
    var crossings := CollectCrossings(vs, y);
    crossings := SortBy(crossings, IntKey);
    ranges := PairUp(crossings);
  }

  /** The pairing loop of `getInsideXRanges`, stepping two crossings at a time. */
  method PairUp(crossings: seq<int>) returns (ranges: seq<Range>)
    ensures ranges == InsidePairs(crossings)
  {
    ranges := [];
    var i: nat := 0;
    ghost var h: nat := 0;
    while i < |crossings| - 1
      invariant i <= |crossings| && i == 2 * h
      invariant |ranges| == h
      invariant forall k :: 0 <= k < h ==> ranges[k] == (crossings[2 * k], crossings[2 * k + 1])
    {
      ranges := ranges + [(crossings[i], crossings[i + 1])];
      i, h := i + 2, h + 1;
    }
    assert h == |crossings| / 2;
    ghost var pairs := InsidePairs(crossings);
    assert forall k :: 0 <= k < h ==> ranges[k] == pairs[k];
  }

  /** Sorted crossings pair up into start-sorted, well-formed ranges. */
  lemma InsidePairsSorted(s: seq<int>)
    requires SortedBy(s, IntKey)
    ensures AllWellFormed(InsidePairs(s)) && StartsSorted(InsidePairs(s))
  {
    var r := InsidePairs(s);
    forall i, j | 0 <= i < j < |r| ensures r[i].0 <= r[j].0 {
      assert LexLe(IntKey(s[2 * i]), IntKey(s[2 * j]));
    }
    forall k | 0 <= k < |r| ensures WellFormed(r[k]) {
      assert LexLe(IntKey(s[2 * k]), IntKey(s[2 * k + 1]));
    }
  }

  /** How many of the values lie strictly below x. */
  function CountBelow(s: seq<int>, x: int): (n: nat)
    ensures n <= |s|
  {
    if s == [] then 0 else (if s[0] < x then 1 else 0) + CountBelow(s[1..], x)
  }

  lemma {:induction false} CountBelowAppend(a: seq<int>, b: seq<int>, x: int)
    ensures CountBelow(a + b, x) == CountBelow(a, x) + CountBelow(b, x)
  {
    if a == [] {
      assert a + b == b;
    } else {
      assert (a + b)[0] == a[0] && (a + b)[1..] == a[1..] + b;
      CountBelowAppend(a[1..], b, x);
    }
  }

  /** The count does not depend on the order of the values. */
  lemma {:induction false} CountBelowPermutation(a: seq<int>, b: seq<int>, x: int)
    requires multiset(a) == multiset(b)
    ensures CountBelow(a, x) == CountBelow(b, x)
    decreases |a|
  {
    if a != [] {
      var v := a[0];
      assert v in multiset(b);
      var i :| 0 <= i < |b| && b[i] == v;
      MultisetRemove(b, i);
      assert multiset(a[1..]) == multiset(a) - multiset{v} by {
        assert a == [v] + a[1..];
      }
      CountBelowPermutation(a[1..], b[..i] + b[i + 1..], x);
      CountBelowRemove(b, i, x);
    }
  }

  lemma CountBelowRemove(b: seq<int>, i: nat, x: int)
    requires i < |b|
    ensures CountBelow(b, x) == (if b[i] < x then 1 else 0) + CountBelow(b[..i] + b[i + 1..], x)
  {
    assert b == b[..i] + [b[i]] + b[i + 1..];
    CountBelowAppend(b[..i] + [b[i]], b[i + 1..], x);
    CountBelowAppend(b[..i], [b[i]], x);
    CountBelowAppend(b[..i], b[i + 1..], x);
    assert CountBelow([b[i]], x) == if b[i] < x then 1 else 0 by {
      assert [b[i]][1..] == [];
    }
  }

  lemma {:induction false} CountBelowNone(s: seq<int>, x: int)
    requires forall k :: 0 <= k < |s| ==> s[k] > x
    ensures CountBelow(s, x) == 0
  {
    if s != [] {
      CountBelowNone(s[1..], x);
    }
  }

  /**
   * Ray casting on sorted crossings: off the crossings themselves, x lies in
   * one of the paired ranges exactly when an odd number of crossings lie to
   * its left (for an even number of crossings, as a closed polygon has).
   */
  lemma {:induction false} PairsParity(s: seq<int>, x: int)
    requires SortedBy(s, IntKey) && |s| % 2 == 0 && x !in s
    ensures Covers(InsidePairs(s), x) <==> CountBelow(s, x) % 2 == 1
  {
    if s != [] {
      var a, b, t := s[0], s[1], s[2..];
      PairsUnfold(s);
      CoversCons((a, b), InsidePairs(t), x);
      if x < b {
        CountBelowNone(t, x);
        NotCoveredBefore(t, x);
        ParityFirstPair(a, b, x, CountBelow(t, x), CountBelow(s, x));
      } else {
        PairsParity(t, x);
        ParityPastPair(a, b, x, CountBelow(t, x), CountBelow(s, x));
      }
    }
  }

  /** x lies before the second crossing: it is inside the first pair exactly when it is past the first crossing. */
  lemma ParityFirstPair(a: int, b: int, x: int, rest: nat, n: nat)
    requires a <= b && x < b && x != a && rest == 0
    requires n == (if a < x then 1 else 0) + (if b < x then 1 else 0) + rest
    ensures InRange((a, b), x) <==> n % 2 == 1
  {
  }

  /** x lies past both crossings of the first pair: they add two to the count and leave its parity. */
  lemma ParityPastPair(a: int, b: int, x: int, rest: nat, n: nat)
    requires a <= b && b <= x && x != b
    requires n == (if a < x then 1 else 0) + (if b < x then 1 else 0) + rest
    ensures !InRange((a, b), x) && (n % 2 == 1 <==> rest % 2 == 1)
  {
  }

  /** The first pair of a sorted list of crossings, and what it contributes. */
  lemma PairsUnfold(s: seq<int>)
    requires SortedBy(s, IntKey) && |s| >= 2
    ensures s[0] <= s[1] && SortedBy(s[2..], IntKey)
    ensures forall k :: 0 <= k < |s[2..]| ==> s[1] <= s[2..][k]
    ensures InsidePairs(s) == [(s[0], s[1])] + InsidePairs(s[2..])
    ensures forall x :: CountBelow(s, x) == (if s[0] < x then 1 else 0) + (if s[1] < x then 1 else 0) + CountBelow(s[2..], x)
  {
    var t := s[2..];
    assert s[1..][1..] == t;
    forall k | 0 <= k < |t| ensures s[1] <= t[k] {
      assert LexLe(IntKey(s[1]), IntKey(s[k + 2]));
    }
    assert LexLe(IntKey(s[0]), IntKey(s[1]));
  }

  lemma NotCoveredBefore(s: seq<int>, x: int)
    requires forall k :: 0 <= k < |s| ==> s[k] > x
    ensures !Covers(InsidePairs(s), x)
  {
    var r := InsidePairs(s);
    forall k | 0 <= k < |r| ensures !InRange(r[k], x) {
      assert r[k].0 == s[2 * k];
    }
  }

  /**
   * The ranges of `getInsideXRanges` agree with the crossing-parity test of
   * `isPointInsideOrOnBoundary` at every x that is not itself a crossing.
   */
  lemma RayCastAgrees(vs: seq<Edge>, y: int, x: int)
    requires |Crossings(vs, y)| % 2 == 0 && x !in Crossings(vs, y)
    ensures Covers(InsidePairs(SortBy(Crossings(vs, y), IntKey)), x) <==> CountBelow(Crossings(vs, y), x) % 2 == 1
  {
    var c := Crossings(vs, y);
    var s := SortBy(c, IntKey);
    SortByElements(c, IntKey, x);
    CountBelowPermutation(s, c, x);
    PairsParity(s, x);
  }

  /** (x, y) lies on the closed span of the edge, for a horizontal or a vertical edge. */
  predicate OnEdge(e: Edge, x: int, y: int) {
    (e.IsHorizontal() && e.y1 == y && e.MinX() <= x <= e.MaxX())
    || (e.IsVertical() && e.x1 == x && e.MinY() <= y <= e.MaxY())
  }

  predicate OnBoundary(edges: seq<Edge>, x: int, y: int) {
    exists k :: 0 <= k < |edges| && OnEdge(edges[k], x, y)
  }

  /** On the boundary, or an odd number of spanning vertical edges strictly to the left. */
  predicate PointInside(poly: Polygon, x: int, y: int) {
    OnBoundary(poly.edges, x, y) || CountBelow(Crossings(poly.vertical, y), x) % 2 == 1
  }

  /** `isPointInsideOrOnBoundary`: the boundary scan with early return, then the crossing count. */
  method IsPointInsideOrOnBoundary(poly: Polygon, x: int, y: int) returns (inside: bool)
    ensures inside == PointInside(poly, x, y)
  {
    for k := 0 to |poly.edges|
      invariant forall j :: 0 <= j < k ==> !OnEdge(poly.edges[j], x, y)
    {
      var edge := poly.edges[k];
      if edge.IsHorizontal() && edge.y1 == y && edge.MinX() <= x && x <= edge.MaxX() {
        return true;
      }
      if edge.IsVertical() && edge.x1 == x && edge.MinY() <= y && y <= edge.MaxY() {
        return true;
      }
    }
    var crossings := 0;
    var vs := poly.vertical;
    for k := 0 to |vs|
      invariant crossings == CountBelow(Crossings(vs[..k], y), x)
    {
      assert vs[..k + 1][..k] == vs[..k];
      CountBelowAppend(Crossings(vs[..k], y), if Spans(vs[k], y) then [vs[k].x1] else [], x);
      if vs[k].MinY() < y && y < vs[k].MaxY() && vs[k].x1 < x {
        crossings := crossings + 1;
      }
    }
    assert vs[..|vs|] == vs;
    inside := crossings % 2 == 1;
  }

  /** Every red tile of a rectilinear outline lies on the boundary, so it passes the point test. */
  lemma VertexInside(points: seq<Point>, i: nat)
    requires i < |points|
    requires EdgeOf(points, i).IsHorizontal() || EdgeOf(points, i).IsVertical()
    ensures PointInside(PolygonOf(points), points[i].x, points[i].y)
  {
    assert OnEdge(PolygonOf(points).edges[i], points[i].x, points[i].y);
  }

  function SeqMin(s: seq<int>): int
    requires |s| >= 1
  {
    if |s| == 1 then s[0]
    else
      var m := SeqMin(s[..|s| - 1]);
      if s[|s| - 1] < m then s[|s| - 1] else m
  }

  function SeqMax(s: seq<int>): int
    requires |s| >= 1
  {
    if |s| == 1 then s[0]
    else
      var m := SeqMax(s[..|s| - 1]);
      if s[|s| - 1] > m then s[|s| - 1] else m
  }

  /** The least and the greatest value: both occur, and every value lies between them. */
  lemma {:induction false} SeqMinMax(s: seq<int>)
    requires |s| >= 1
    ensures SeqMin(s) in s && SeqMax(s) in s
    ensures forall x :: x in s ==> SeqMin(s) <= x <= SeqMax(s)
  {
    if |s| > 1 {
      var init := s[..|s| - 1];
      SeqMinMax(init);
      assert s == init + [s[|s| - 1]];
    }
  }

  /** The first and the last of the sorted values are the least and the greatest. */
  lemma OrderedEnds(r: seq<int>, s: seq<int>)
    requires |s| >= 1 && SortedBy(r, IntKey) && multiset(r) == multiset(s)
    ensures r[0] == SeqMin(s) && r[|r| - 1] == SeqMax(s)
  {
    var lo, hi := SeqMin(s), SeqMax(s);
    SeqMinMax(s);
    assert |r| == |s| by {
      assert |multiset(r)| == |multiset(s)|;
    }
    assert r[0] in multiset(r) && r[|r| - 1] in multiset(r);
    assert lo in multiset(r) && hi in multiset(r);
    var i :| 0 <= i < |r| && r[i] == lo;
    var j :| 0 <= j < |r| && r[j] == hi;
    if i > 0 {
      assert LexLe(IntKey(r[0]), IntKey(r[i]));
    }
    if j < |r| - 1 {
      assert LexLe(IntKey(r[j]), IntKey(r[|r| - 1]));
    }
    assert r[0] in s && r[|r| - 1] in s;
  }

  /** The outermost crossings, or None with fewer than two (the source's `guard`). */
  function StrictInterior(vs: seq<Edge>, y: int): Option<Range> {
    var c := Crossings(vs, y);
    if |c| < 2 then None else Some((SeqMin(c), SeqMax(c)))
  }

  /** `getStrictInteriorXRange` returns the leftmost and the rightmost crossing, each of them a crossing. */
  lemma StrictInteriorBounds(vs: seq<Edge>, y: int)
    ensures StrictInterior(vs, y).None? <==> |Crossings(vs, y)| < 2
    ensures StrictInterior(vs, y).Some? ==>
      var r := StrictInterior(vs, y).value;
      r.0 in Crossings(vs, y) && r.1 in Crossings(vs, y)
      && forall x :: x in Crossings(vs, y) ==> r.0 <= x <= r.1
  {
    if |Crossings(vs, y)| >= 2 {
      SeqMinMax(Crossings(vs, y));
    }
  }

  /** Sorts the crossings and takes the first and the last. */
  method GetStrictInteriorXRange(vs: seq<Edge>, y: int) returns (r: Option<Range>)
    ensures r == StrictInterior(vs, y)
  {
    var crossings := CollectCrossings(vs, y);
    if |crossings| < 2 {
      return None;
    }
    var sorted := SortBy(crossings, IntKey);
    OrderedEnds(sorted, crossings);
    crossings := sorted;
    r := Some((crossings[0], crossings[|crossings| - 1]));
  }

  /** The x-span of every horizontal edge lying on row y, in edge order. */
  function RowSpans(hs: seq<Edge>, y: int): (r: seq<Range>)
    ensures |r| <= |hs| && AllWellFormed(r)
  {
    if hs == [] then []
    else
      var last := hs[|hs| - 1];
      RowSpans(hs[..|hs| - 1], y) + (if last.y1 == y then [(last.MinX(), last.MaxX())] else [])
  }

  /** The row spans cover exactly the tiles of row y on the edges that lie on that row. */
  lemma {:induction false} RowSpansCover(hs: seq<Edge>, y: int, x: int)
    ensures Covers(RowSpans(hs, y), x) <==> exists k :: 0 <= k < |hs| && hs[k].y1 == y && hs[k].MinX() <= x <= hs[k].MaxX()
  {
    if hs != [] {
      var init, last := hs[..|hs| - 1], hs[|hs| - 1];
      RowSpansCover(init, y, x);
      if last.y1 == y {
        CoversSnoc(RowSpans(init, y), (last.MinX(), last.MaxX()), x);
      } else {
        assert RowSpans(hs, y) == RowSpans(init, y);
      }
      if exists k :: 0 <= k < |hs| && hs[k].y1 == y && hs[k].MinX() <= x <= hs[k].MaxX() {
        var k :| 0 <= k < |hs| && hs[k].y1 == y && hs[k].MinX() <= x <= hs[k].MaxX();
        if k < |init| {
          assert init[k] == hs[k];
        }
      }
      if exists k :: 0 <= k < |init| && init[k].y1 == y && init[k].MinX() <= x <= init[k].MaxX() {
        var k :| 0 <= k < |init| && init[k].y1 == y && init[k].MinX() <= x <= init[k].MaxX();
        assert hs[k] == init[k];
      }
    }
  }

  /** The loop `for edge in horizontalEdges where edge.y1 == y`. */
  method CollectRowSpans(hs: seq<Edge>, y: int) returns (ranges: seq<Range>)
    ensures ranges == RowSpans(hs, y)
  {
    ranges := [];
    for k := 0 to |hs|
      invariant ranges == RowSpans(hs[..k], y)
    {
      assert hs[..k + 1][..k] == hs[..k];
      if hs[k].y1 == y {
        ranges := ranges + [(hs[k].MinX(), hs[k].MaxX())];
      }
    }
    assert hs[..|hs|] == hs;
  }

  /** Sort by start, merge ranges at most `gap` apart, and look for one merged range holding [lo, hi]. */
  predicate Fits(rs: seq<Range>, gap: nat, lo: int, hi: int) {
    Holds(Merged(SortBy(rs, ByStart), gap), lo, hi)
  }

  /** The containment loop over the merged ranges, leaving at the first hit. */
  method AnyHolds(merged: seq<Range>, lo: int, hi: int) returns (found: bool)
    ensures found == Holds(merged, lo, hi)
  {
    for k := 0 to |merged|
      invariant forall j :: 0 <= j < k ==> !(merged[j].0 <= lo && hi <= merged[j].1)
    {
      var (rx1, rx2) := merged[k];
      if rx1 <= lo && hi <= rx2 {
        return true;
      }
    }
    return false;
  }

  /** The sort-merge-check sequence both containment tests run. */
  method MergeAndCheck(rs: seq<Range>, gap: nat, lo: int, hi: int) returns (fits: bool)
    requires gap <= 1
    ensures fits == Fits(rs, gap, lo, hi)
  {
    var sorted := SortBy(rs, ByStart);
    assert StartsSorted(sorted) by {
      assert SortedBy(sorted, ByStart);
    }
    var merged := MergeSorted(sorted, gap);
    fits := AnyHolds(merged, lo, hi);
  }

  /** Sorting well-formed ranges and merging them with join distance `gap` keeps the covered integers. */
  lemma SortMergeCovers(rs: seq<Range>, gap: nat, x: int)
    requires gap <= 1 && AllWellFormed(rs)
    ensures var m := Merged(SortBy(rs, ByStart), gap);
      StartsSorted(m) && Separated(m, gap) && (Covers(m, x) <==> Covers(rs, x))
  {
    var sorted := SortBy(rs, ByStart);
    assert StartsSorted(sorted) by {
      assert SortedBy(sorted, ByStart);
    }
    forall k | 0 <= k < |sorted| ensures sorted[k] in rs && WellFormed(sorted[k]) {
      SortByElements(rs, ByStart, sorted[k]);
    }
    forall k | 0 <= k < |rs| ensures rs[k] in sorted {
      SortByElements(rs, ByStart, rs[k]);
    }
    CoveredSameElements(sorted, rs);
    MergedShape(sorted, gap);
    MergedCoverage(sorted, gap);
    var m := Merged(sorted, gap);
    CoveredSetCovers(m, x);
    CoveredSetCovers(rs, x);
  }

  /**
   * With join distance 1, as in `isRectangleInside`, the check is exact: one
   * merged range holds [lo, hi] exactly when every tile of it is covered.
   */
  lemma AdjacentMergeExact(rs: seq<Range>, lo: int, hi: int)
    requires AllWellFormed(rs) && lo <= hi
    ensures Fits(rs, 1, lo, hi) <==> forall x :: lo <= x <= hi ==> Covers(rs, x)
  {
    var m := Merged(SortBy(rs, ByStart), 1);
    SortMergeCovers(rs, 1, lo);
    HoldsIffCovered(m, lo, hi);
    forall x ensures Covers(m, x) <==> Covers(rs, x) {
      SortMergeCovers(rs, 1, x);
    }
  }

  /** With join distance 0, as in `isHorizontalSegmentInside`, a hit still means every tile is covered. */
  lemma OverlapMergeSound(rs: seq<Range>, lo: int, hi: int)
    requires AllWellFormed(rs)
    ensures Fits(rs, 0, lo, hi) ==> forall x :: lo <= x <= hi ==> Covers(rs, x)
  {
    var m := Merged(SortBy(rs, ByStart), 0);
    if Fits(rs, 0, lo, hi) {
      var k :| 0 <= k < |m| && m[k].0 <= lo && hi <= m[k].1;
      forall x | lo <= x <= hi ensures Covers(rs, x) {
        assert InRange(m[k], x);
        SortMergeCovers(rs, 0, x);
      }
    }
  }

  /**
   * But it misses segments covered by two ranges that only touch: (0, 5) and
   * (6, 10) stay apart, so [0, 10] is rejected though all of it is covered.
   */
  lemma OverlapMergeMissesTouching()
    ensures var rs := [(0, 5), (6, 10)];
      !Fits(rs, 0, 0, 10) && (forall x :: 0 <= x <= 10 ==> Covers(rs, x)) && Fits(rs, 1, 0, 10)
  {
    TouchingRejected([(0, 5), (6, 10)]);
  }

  lemma TouchingRejected(rs: seq<Range>)
    requires rs == [(0, 5), (6, 10)]
    ensures !Fits(rs, 0, 0, 10) && (forall x :: 0 <= x <= 10 ==> Covers(rs, x)) && Fits(rs, 1, 0, 10)
  {
    assert SortedBy(rs, ByStart);
    SortSorted(rs, ByStart);
    TouchingMerges(rs);
    assert Merged(rs, 1)[0] == (0, 10);
    TouchingCovered(rs);
  }

  lemma TouchingMerges(rs: seq<Range>)
    requires rs == [(0, 5), (6, 10)]
    ensures Merged(rs, 0) == [(0, 5), (6, 10)] && Merged(rs, 1) == [(0, 10)]
  {
    assert rs[..1] == [(0, 5)];
    assert Merged(rs[..1], 0) == [(0, 5)];
    assert Merged(rs[..1], 1) == [(0, 5)];
  }

  lemma TouchingCovered(rs: seq<Range>)
    requires rs == [(0, 5), (6, 10)]
    ensures forall x :: 0 <= x <= 10 ==> Covers(rs, x)
  {
    forall x | 0 <= x <= 10 ensures Covers(rs, x) {
      if x <= 5 {
        assert InRange(rs[0], x);
      } else {
        assert InRange(rs[1], x);
      }
    }
  }

  /** The ranges `isHorizontalSegmentInside` merges at row y: interior pairs, then edge spans. */
  function SegmentRanges(poly: Polygon, y: int): seq<Range> {
    InsidePairs(SortBy(Crossings(poly.vertical, y), IntKey)) + RowSpans(poly.horizontal, y)
  }

  /**
   * `isHorizontalSegmentInside`: both ends pass the point test and one of the
   * ranges merged with join distance 0 holds the segment.
   */
  method IsHorizontalSegmentInside(poly: Polygon, x1: int, x2: int, y: int) returns (inside: bool)
    ensures var lo, hi := if x1 <= x2 then x1 else x2, if x1 >= x2 then x1 else x2;
      inside == (PointInside(poly, lo, y) && PointInside(poly, hi, y) && Fits(SegmentRanges(poly, y), 0, lo, hi))
    ensures inside ==> forall x :: (if x1 <= x2 then x1 else x2) <= x <= (if x1 >= x2 then x1 else x2) ==> Covers(SegmentRanges(poly, y), x)
  {
    var minX := if x1 <= x2 then x1 else x2;
    var maxX := if x1 >= x2 then x1 else x2;
    var ok := IsPointInsideOrOnBoundary(poly, minX, y);
    if !ok {
      return false;
    }
    ok := IsPointInsideOrOnBoundary(poly, maxX, y);
    if !ok {
      return false;
    }
    var interiorRanges := GetInsideXRanges(poly.vertical, y);
    var boundaryRanges := CollectRowSpans(poly.horizontal, y);
    inside := MergeAndCheck(interiorRanges + boundaryRanges, 0, minX, maxX);
    InsidePairsSorted(SortBy(Crossings(poly.vertical, y), IntKey));
    assert AllWellFormed(SegmentRanges(poly, y));
    OverlapMergeSound(SegmentRanges(poly, y), minX, maxX);
  }

  function Min(a: int, b: int): int {
    if a <= b then a else b
  }

  function Max(a: int, b: int): int {
    if a >= b then a else b
  }

  /** Swift's `(a + b) / 2`, which truncates toward zero. */
  function Mid(a: int, b: int): (m: int)
    ensures a <= b ==> a <= m <= b
    ensures a + 1 < b ==> a < m < b
  {
    var sum := a + b;
    if sum >= 0 then sum / 2 else -((-sum) / 2)
  }

  /** The ys within [lo, hi], in their original order (the source's `filter`). */
  function CriticalYs(ys: seq<int>, lo: int, hi: int): (r: seq<int>)
    ensures forall y :: y in r <==> y in ys && lo <= y <= hi
    ensures Increasing(ys) ==> Increasing(r)
  {
    if ys == [] then []
    else
      var init, last := ys[..|ys| - 1], ys[|ys| - 1];
      assert ys == init + [last];
      var r := CriticalYs(init, lo, hi);
      assert Increasing(ys) ==> forall k :: 0 <= k < |r| ==> r[k] < last by {
        if Increasing(ys) {
          forall k | 0 <= k < |r| ensures r[k] < last {
            assert r[k] in r;
            var j :| 0 <= j < |init| && init[j] == r[k];
            assert ys[j] == r[k];
          }
        }
      }
      r + (if lo <= last <= hi then [last] else [])
  }

  lemma IncreasingSorted(s: seq<int>)
    requires Increasing(s)
    ensures SortedBy(s, IntKey)
  {
  }

  /**
   * When both corners are vertices, the critical rows run from the
   * rectangle's bottom row to its top row, so there is at least one.
   */
  lemma CriticalYsEnds(points: seq<Point>, p: Point, q: Point)
    requires p in points && q in points
    ensures var ys := CriticalYs(VertexYs(points), Min(p.y, q.y), Max(p.y, q.y));
      |ys| >= 1 && ys[0] == Min(p.y, q.y) && ys[|ys| - 1] == Max(p.y, q.y)
  {
    var lo, hi := Min(p.y, q.y), Max(p.y, q.y);
    var all := VertexYs(points);
    var ys := CriticalYs(all, lo, hi);
    var i :| 0 <= i < |points| && points[i] == p;
    var j :| 0 <= j < |points| && points[j] == q;
    assert p.y in all && q.y in all;
    assert lo in ys && hi in ys;
    var a :| 0 <= a < |ys| && ys[a] == lo;
    var b :| 0 <= b < |ys| && ys[b] == hi;
    assert forall k :: 0 <= k < |ys| ==> lo <= ys[k] <= hi by {
      forall k | 0 <= k < |ys| ensures lo <= ys[k] <= hi {
        assert ys[k] in ys;
      }
    }
    IncreasingEnds(ys, lo, hi, a, b);
  }

  /** An increasing list within [lo, hi] that holds both starts with lo and ends with hi. */
  lemma IncreasingEnds(ys: seq<int>, lo: int, hi: int, a: nat, b: nat)
    requires Increasing(ys) && a < |ys| && b < |ys| && ys[a] == lo && ys[b] == hi
    requires forall k :: 0 <= k < |ys| ==> lo <= ys[k] <= hi
    ensures ys[0] == lo && ys[|ys| - 1] == hi
  {
    assert ys[0] <= ys[a];
    assert ys[b] <= ys[|ys| - 1];
  }

  /** The outermost crossings of the row between two critical rows, as a list of zero or one range. */
  function StripRange(vs: seq<Edge>, a: int, b: int): seq<Range> {
    match StrictInterior(vs, Mid(a, b))
    case None => []
    case Some(r) => [r]
  }

  /** The ranges collected for critical row i: its edge spans and the strips just above and below. */
  function RowRanges(poly: Polygon, ys: seq<int>, i: nat): seq<Range>
    requires i < |ys|
  {
    RowSpans(poly.horizontal, ys[i])
    + (if i < |ys| - 1 then StripRange(poly.vertical, ys[i], ys[i + 1]) else [])
    + (if i > 0 then StripRange(poly.vertical, ys[i - 1], ys[i]) else [])
  }

  /** The strip between critical rows i and i + 1 has crossings, and they reach past [lo, hi] on both sides. */
  predicate StripFits(poly: Polygon, ys: seq<int>, i: nat, lo: int, hi: int)
    requires i + 1 < |ys|
  {
    match StrictInterior(poly.vertical, Mid(ys[i], ys[i + 1]))
    case None => false
    case Some(r) => !(r.0 > lo || r.1 < hi)
  }

  /** The ranges of the first n critical rows. */
  function Rows(poly: Polygon, ys: seq<int>, n: nat): (rows: seq<seq<Range>>)
    requires n <= |ys|
    ensures |rows| == n
  {
    if n == 0 then [] else Rows(poly, ys, n - 1) + [RowRanges(poly, ys, n - 1)]
  }

  lemma {:induction false} RowsAt(poly: Polygon, ys: seq<int>, n: nat, i: nat)
    requires i < n <= |ys|
    ensures Rows(poly, ys, n)[i] == RowRanges(poly, ys, i)
  {
    if i < n - 1 {
      RowsAt(poly, ys, n - 1, i);
    }
  }

  predicate AllFit(rows: seq<seq<Range>>, lo: int, hi: int) {
    forall k :: 0 <= k < |rows| ==> Fits(rows[k], 1, lo, hi)
  }

  /** What `isRectangleInside` decides for the corners p and q. */
  predicate RectInside(poly: Polygon, p: Point, q: Point) {
    var lo, hi := Min(p.x, q.x), Max(p.x, q.x);
    var ys := CriticalYs(poly.ys, Min(p.y, q.y), Max(p.y, q.y));
    p in poly.points && q in poly.points
    && AllFit(Rows(poly, ys, |ys|), lo, hi)
    && (forall i :: 0 <= i < |ys| - 1 ==> StripFits(poly, ys, i, lo, hi))
  }

  lemma StripRangeWellFormed(vs: seq<Edge>, a: int, b: int)
    ensures AllWellFormed(StripRange(vs, a, b))
  {
    StrictInteriorBounds(vs, Mid(a, b));
  }

  /** Each row check is exact: it passes exactly when every tile of [lo, hi] on that row is covered. */
  lemma RowCheckExact(poly: Polygon, ys: seq<int>, i: nat, lo: int, hi: int)
    requires i < |ys| && lo <= hi
    ensures Fits(RowRanges(poly, ys, i), 1, lo, hi) <==> forall x :: lo <= x <= hi ==> Covers(RowRanges(poly, ys, i), x)
  {
    if i < |ys| - 1 {
      StripRangeWellFormed(poly.vertical, ys[i], ys[i + 1]);
    }
    if i > 0 {
      StripRangeWellFormed(poly.vertical, ys[i - 1], ys[i]);
    }
    AdjacentMergeExact(RowRanges(poly, ys, i), lo, hi);
  }

  /** An accepted rectangle has every tile of every critical row covered by that row's ranges. */
  lemma RectRowsCovered(poly: Polygon, p: Point, q: Point, i: nat, x: int)
    requires RectInside(poly, p, q)
    requires i < |CriticalYs(poly.ys, Min(p.y, q.y), Max(p.y, q.y))|
    requires Min(p.x, q.x) <= x <= Max(p.x, q.x)
    ensures Covers(RowRanges(poly, CriticalYs(poly.ys, Min(p.y, q.y), Max(p.y, q.y)), i), x)
  {
    var ys := CriticalYs(poly.ys, Min(p.y, q.y), Max(p.y, q.y));
    RowsAt(poly, ys, |ys|, i);
    assert Fits(Rows(poly, ys, |ys|)[i], 1, Min(p.x, q.x), Max(p.x, q.x));
    RowCheckExact(poly, ys, i, Min(p.x, q.x), Max(p.x, q.x));
  }

  /** `isRectangleInside`: both corners are vertices, every critical row fits, and every strip fits. */
  method IsRectangleInside(poly: Polygon, x1: int, y1: int, x2: int, y2: int) returns (inside: bool)
    requires poly == PolygonOf(poly.points)
    ensures inside == RectInside(poly, Point(x1, y1), Point(x2, y2))
    ensures inside ==> Point(x1, y1) in poly.points && Point(x2, y2) in poly.points
  {
    var minX, maxX := Min(x1, x2), Max(x1, x2);
    var minY, maxY := Min(y1, y2), Max(y1, y2);
    if Point(x1, y1) !in poly.points {
      return false;
    }
    if Point(x2, y2) !in poly.points {
      return false;
    }
    var filtered := CriticalYs(poly.ys, minY, maxY);
    IncreasingSorted(filtered);
    SortSorted(filtered, IntKey);
    var ys := SortBy(filtered, IntKey);
    CriticalYsEnds(poly.points, Point(x1, y1), Point(x2, y2));
    var rowsFit := RowsFit(poly, ys, minX, maxX);
    if !rowsFit {
      return false;
    }
    inside := StripsFit(poly, ys, minX, maxX);
  }

  /** The first loop of `isRectangleInside`, over the critical rows, returning false at the first row that does not fit. */
  method RowsFit(poly: Polygon, ys: seq<int>, lo: int, hi: int) returns (ok: bool)
    ensures ok == AllFit(Rows(poly, ys, |ys|), lo, hi)
  {
    ghost var rows := Rows(poly, ys, |ys|);
    for i := 0 to |ys|
      invariant forall k :: 0 <= k < i ==> Fits(rows[k], 1, lo, hi)
    {
      var fits := RowFits(poly, ys, i, lo, hi);
      if !fits {
        return false;
      }
    }
    return true;
  }

  /** One pass of the first loop: collect the row's ranges, merge them with join distance 1, and check. */
  method RowFits(poly: Polygon, ys: seq<int>, i: nat, lo: int, hi: int) returns (fits: bool)
    requires i < |ys|
    ensures fits == Fits(Rows(poly, ys, |ys|)[i], 1, lo, hi)
  {
    var hRanges := CollectRowRanges(poly, ys, i);
    RowsAt(poly, ys, |ys|, i);
    fits := MergeAndCheck(hRanges, 1, lo, hi);
  }

  /** The ranges of critical row i: its edge spans, then the interior range of the strip above and of the strip below. */
  method CollectRowRanges(poly: Polygon, ys: seq<int>, i: nat) returns (hRanges: seq<Range>)
    requires i < |ys|
    ensures hRanges == RowRanges(poly, ys, i)
  {
    hRanges := CollectRowSpans(poly.horizontal, ys[i]);
    ghost var above: seq<Range> := [];
    if i < |ys| - 1 {
      var interior := GetStrictInteriorXRange(poly.vertical, Mid(ys[i], ys[i + 1]));
      above := StripRange(poly.vertical, ys[i], ys[i + 1]);
      if interior.Some? {
        hRanges := hRanges + [interior.value];
      }
    }
    assert hRanges == RowSpans(poly.horizontal, ys[i]) + above;
    ghost var below: seq<Range> := [];
    if i > 0 {
      var interior := GetStrictInteriorXRange(poly.vertical, Mid(ys[i - 1], ys[i]));
      below := StripRange(poly.vertical, ys[i - 1], ys[i]);
      if interior.Some? {
        hRanges := hRanges + [interior.value];
      }
    }
    assert hRanges == RowSpans(poly.horizontal, ys[i]) + above + below;
  }

  /** The second loop of `isRectangleInside`, over the strips between consecutive critical rows. */
  method StripsFit(poly: Polygon, ys: seq<int>, lo: int, hi: int) returns (ok: bool)
    requires |ys| >= 1
    ensures ok == forall k :: 0 <= k < |ys| - 1 ==> StripFits(poly, ys, k, lo, hi)
  {
    for i := 0 to |ys| - 1
      invariant forall k :: 0 <= k < i ==> StripFits(poly, ys, k, lo, hi)
    {
      var interior := GetStrictInteriorXRange(poly.vertical, Mid(ys[i], ys[i + 1]));
      match interior
      case None =>
        assert !StripFits(poly, ys, i, lo, hi);
        return false;
      case Some(r) =>
        if r.0 > lo || r.1 < hi {
          assert !StripFits(poly, ys, i, lo, hi);
          return false;
        }
    }
    return true;
  }

  /** The pair (i, j) is a rectangle the main loop accepts: no shared row or column, and inside. */
  predicate Candidate(poly: Polygon, i: nat, j: nat)
    requires i < |poly.points| && j < |poly.points|
  {
    var p, q := poly.points[i], poly.points[j];
    p.x != q.x && p.y != q.y && RectInside(poly, p, q)
  }

  /**
   * The main loop: the largest area over accepted pairs, or 0 when none is
   * accepted. A pair is only checked when it would raise the maximum, which
   * does not change the result.
   */
  method MaxInsideArea(points: seq<Point>) returns (maxArea: int)
    ensures maxArea >= 0
    ensures forall i, j :: 0 <= i < j < |points| && Candidate(PolygonOf(points), i, j) ==> Area(points[i], points[j]) <= maxArea
    ensures maxArea != 0 ==> exists i, j :: 0 <= i < j < |points| && Candidate(PolygonOf(points), i, j) && Area(points[i], points[j]) == maxArea
  {
    var poly := Outline(points);
    maxArea := 0;
    for i := 0 to |points|
      invariant maxArea >= 0
      invariant forall a, b :: 0 <= a < i && a < b < |points| && Candidate(poly, a, b) ==> Area(points[a], points[b]) <= maxArea
      invariant maxArea != 0 ==> exists a, b :: 0 <= a < b < |points| && Candidate(poly, a, b) && Area(points[a], points[b]) == maxArea
    {
      ghost var before := maxArea;
      maxArea := InsideRowMax(poly, i, maxArea);
      forall a, b | 0 <= a < i + 1 && a < b < |points| && Candidate(poly, a, b)
        ensures Area(points[a], points[b]) <= maxArea
      {
        if a < i {
          assert Area(points[a], points[b]) <= before;
        }
      }
    }
  }

  /** The inner loop of the main loop for point i. */
  method InsideRowMax(poly: Polygon, i: nat, current: int) returns (best: int)
    requires poly == PolygonOf(poly.points)
    requires i < |poly.points| && current >= 0
    ensures best >= current
    ensures forall b :: i < b < |poly.points| && Candidate(poly, i, b) ==> Area(poly.points[i], poly.points[b]) <= best
    ensures best != current ==> exists b :: i < b < |poly.points| && Candidate(poly, i, b) && Area(poly.points[i], poly.points[b]) == best
  {
    var points := poly.points;
    best := current;
    for j := i + 1 to |points|
      invariant best >= current
      invariant forall b :: i < b < j && Candidate(poly, i, b) ==> Area(points[i], points[b]) <= best
      invariant best != current ==> exists b :: i < b < j && Candidate(poly, i, b) && Area(points[i], points[b]) == best
    {
      best := ConsiderPair(poly, i, j, best);
    }
  }

  /** One pass of the inner loop: check the pair (i, j) only when its area beats the best so far. */
  method ConsiderPair(poly: Polygon, i: nat, j: nat, best: int) returns (best': int)
    requires poly == PolygonOf(poly.points)
    requires i < j < |poly.points|
    ensures best' >= best
    ensures Candidate(poly, i, j) ==> Area(poly.points[i], poly.points[j]) <= best'
    ensures best' != best ==> Candidate(poly, i, j) && Area(poly.points[i], poly.points[j]) == best'
  {
    best' := best;
    var p, q := poly.points[i], poly.points[j];
    if p.x != q.x && p.y != q.y {
      var area := (Abs(q.x - p.x) + 1) * (Abs(q.y - p.y) + 1);
      assert area == Area(p, q);
      if area > best {
        var inside := IsRectangleInside(poly, p.x, p.y, q.x, q.y);
        if inside {
          best' := area;
        }
      }
    }
  }
}
