// Day 12 (day12/solution.ts, lines 37-90): a present's shape as the list of
// its (row, column) points, and the distinct orientations of that list under
// the four rotations and a reflection, each moved to the origin and sorted.
// The "r,c;r,c" string key of pointsToString is the point list itself here:
// two lists give the same key exactly when they are equal.
module Day12Shapes {
  import opened Sorting

  type Point = (int, int)
  type Shape = seq<seq<bool>>

  /** The sort key of normalizePoints: row first, then column. */
  function Id(p: Point): Point {
    p
  }

  // getShapePoints (lines 37-47).

  /** The '#' cells among the first n columns of row r, left to right. */
  function RowCells(shape: Shape, r: nat, n: nat): seq<Point>
    requires r < |shape| && n <= |shape[r]|
  {
    if n == 0 then [] else RowCells(shape, r, n - 1) + (if shape[r][n - 1] then [(r, n - 1)] else [])
  }

  /** The '#' cells of the first m rows, row by row. */
  function CellsUpTo(shape: Shape, m: nat): seq<Point>
    requires m <= |shape|
  {
    if m == 0 then [] else CellsUpTo(shape, m - 1) + RowCells(shape, m - 1, |shape[m - 1]|)
  }

  function Cells(shape: Shape): seq<Point> {
    CellsUpTo(shape, |shape|)
  }

  predicate IsCell(shape: Shape, p: Point) {
    0 <= p.0 < |shape| && 0 <= p.1 < |shape[p.0]| && shape[p.0][p.1]
  }

  /** Strictly increasing in row-major order, so no point is listed twice. */
  predicate Increasing(ps: seq<Point>) {
    forall i, j :: 0 <= i < j < |ps| ==> ps[i] != ps[j] && LexLe(ps[i], ps[j])
  }

  lemma {:induction false} RowCellsExact(shape: Shape, r: nat, n: nat)
    requires r < |shape| && n <= |shape[r]|
    ensures forall p :: p in RowCells(shape, r, n) <==> p.0 == r && 0 <= p.1 < n && shape[r][p.1]
    ensures Increasing(RowCells(shape, r, n))
  {
    if n > 0 {
      RowCellsExact(shape, r, n - 1);
    }
  }

  lemma {:induction false} CellsUpToExact(shape: Shape, m: nat)
    requires m <= |shape|
    ensures forall p :: p in CellsUpTo(shape, m) <==> p.0 < m && IsCell(shape, p)
    ensures Increasing(CellsUpTo(shape, m))
  {
    if m > 0 {
      CellsUpToExact(shape, m - 1);
      RowCellsExact(shape, m - 1, |shape[m - 1]|);
      var a, b := CellsUpTo(shape, m - 1), RowCells(shape, m - 1, |shape[m - 1]|);
      assert forall i :: 0 <= i < |a| ==> a[i] in a;
      assert forall j :: 0 <= j < |b| ==> b[j] in b;
      forall i, j | 0 <= i < j < |a + b| ensures (a + b)[i] != (a + b)[j] && LexLe((a + b)[i], (a + b)[j]) {
        if i < |a| && j >= |a| {
          assert (a + b)[i] == a[i] && (a + b)[j] == b[j - |a|];
          assert a[i].0 < m - 1;
        }
      }
    }
  }

  /** The points are exactly the '#' cells, each once, in row-major order. */
  lemma CellsExact(shape: Shape)
    ensures forall p :: p in Cells(shape) <==> IsCell(shape, p)
    ensures Increasing(Cells(shape))
  {
    CellsUpToExact(shape, |shape|);
  }

  /** getShapePoints: the nested loops at lines 39-45. */
  method ShapePoints(shape: Shape) returns (points: seq<Point>)
    ensures points == Cells(shape)
  {
    points := [];
    for r := 0 to |shape|
      invariant points == CellsUpTo(shape, r)
    {
      for c := 0 to |shape[r]|
        invariant points == CellsUpTo(shape, r) + RowCells(shape, r, c)
      {
        if shape[r][c] {
          points := points + [(r, c)];
        }
      }
    }
  }

  // normalizePoints (lines 49-56).

  function MinRow(ps: seq<Point>): (m: int)
    requires ps != []
    ensures forall i :: 0 <= i < |ps| ==> m <= ps[i].0
    ensures exists i :: 0 <= i < |ps| && ps[i].0 == m
  {
    if |ps| == 1 then ps[0].0
    else
      var m := MinRow(ps[1..]);
      assert forall i :: 1 <= i < |ps| ==> ps[i] == ps[1..][i - 1];
      if ps[0].0 <= m then ps[0].0 else m
  }

  function MinCol(ps: seq<Point>): (m: int)
    requires ps != []
    ensures forall i :: 0 <= i < |ps| ==> m <= ps[i].1
    ensures exists i :: 0 <= i < |ps| && ps[i].1 == m
  {
    if |ps| == 1 then ps[0].1
    else
      var m := MinCol(ps[1..]);
      assert forall i :: 1 <= i < |ps| ==> ps[i] == ps[1..][i - 1];
      if ps[0].1 <= m then ps[0].1 else m
  }

  function Shift(ps: seq<Point>, dr: int, dc: int): (r: seq<Point>)
    ensures |r| == |ps|
  {
    seq(|ps|, i requires 0 <= i < |ps| => (ps[i].0 - dr, ps[i].1 - dc))
  }

  /** normalizePoints: moved so that the least row and column are 0, then sorted. */
  function Normalize(ps: seq<Point>): (r: seq<Point>)
    ensures |r| == |ps|
  {
    if ps == [] then [] else SortBy(Shift(ps, MinRow(ps), MinCol(ps)), Id)
  }

  /** Sorted in row-major order, touching row 0 and column 0. */
  predicate Normalized(ps: seq<Point>) {
    SortedBy(ps, Id) && (ps != [] ==> MinRow(ps) == 0 && MinCol(ps) == 0)
  }

  lemma MinsOfSameElements(a: seq<Point>, b: seq<Point>)
    requires a != [] && forall p :: p in a <==> p in b
    ensures b != [] && MinRow(a) == MinRow(b) && MinCol(a) == MinCol(b)
  {
    assert a[0] in b;
    var i :| 0 <= i < |a| && a[i].0 == MinRow(a);
    var j :| 0 <= j < |b| && b[j].0 == MinRow(b);
    assert a[i] in b && b[j] in a;
    var k :| 0 <= k < |a| && a[k].1 == MinCol(a);
    var l :| 0 <= l < |b| && b[l].1 == MinCol(b);
    assert a[k] in b && b[l] in a;
  }

  /** Shifting by the least row and column puts both at 0. */
  lemma ShiftedMins(ps: seq<Point>)
    requires ps != []
    ensures MinRow(Shift(ps, MinRow(ps), MinCol(ps))) == 0 && MinCol(Shift(ps, MinRow(ps), MinCol(ps))) == 0
  {
    var s := Shift(ps, MinRow(ps), MinCol(ps));
    var i :| 0 <= i < |ps| && ps[i].0 == MinRow(ps);
    var j :| 0 <= j < |ps| && ps[j].1 == MinCol(ps);
    assert s[i].0 == 0 && s[j].1 == 0;
    var k :| 0 <= k < |s| && s[k].0 == MinRow(s);
    var l :| 0 <= l < |s| && s[l].1 == MinCol(s);
  }

  /** Sorting keeps the least row and column, and sorts. */
  lemma SortedMins(s: seq<Point>)
    requires s != []
    ensures SortBy(s, Id) != [] && SortedBy(SortBy(s, Id), Id)
    ensures MinRow(SortBy(s, Id)) == MinRow(s) && MinCol(SortBy(s, Id)) == MinCol(s)
  {
    forall p ensures p in SortBy(s, Id) <==> p in s {
      SortByElements(s, Id, p);
    }
    MinsOfSameElements(s, SortBy(s, Id));
  }

  /** The result is the input moved to the origin: same length, same points
      shifted by the least row and column, sorted, and normalized. */
  lemma NormalizeFacts(ps: seq<Point>)
    ensures |Normalize(ps)| == |ps|
    ensures ps != [] ==> multiset(Normalize(ps)) == multiset(Shift(ps, MinRow(ps), MinCol(ps)))
    ensures Normalized(Normalize(ps))
  {
    if ps != [] {
      ShiftedMins(ps);
      SortedMins(Shift(ps, MinRow(ps), MinCol(ps)));
    }
  }

  /** A normalized list is its own normalization. */
  lemma NormalizedFixed(ps: seq<Point>)
    requires Normalized(ps)
    ensures Normalize(ps) == ps
  {
    if ps != [] {
      assert Shift(ps, 0, 0) == ps;
      SortSorted(ps, Id);
    }
  }

  /** normalizePoints is idempotent. */
  lemma NormalizeIdempotent(ps: seq<Point>)
    ensures Normalize(Normalize(ps)) == Normalize(ps)
  {
    NormalizeFacts(ps);
    NormalizedFixed(Normalize(ps));
  }

  // rotatePoints and flipPoints (lines 58-64).

  /** A quarter turn: (r, c) becomes (c, -r). */
  function Rotate(ps: seq<Point>): (r: seq<Point>)
    ensures |r| == |ps|
  {
    seq(|ps|, i requires 0 <= i < |ps| => (ps[i].1, -ps[i].0))
  }

  /** A mirror image: (r, c) becomes (r, -c). */
  function Flip(ps: seq<Point>): (r: seq<Point>)
    ensures |r| == |ps|
  {
    seq(|ps|, i requires 0 <= i < |ps| => (ps[i].0, -ps[i].1))
  }

  /** Four quarter turns give back the same list. */
  lemma RotateFour(ps: seq<Point>)
    ensures Rotate(Rotate(Rotate(Rotate(ps)))) == ps
  {
    var r4 := Rotate(Rotate(Rotate(Rotate(ps))));
    forall i | 0 <= i < |ps| ensures r4[i] == ps[i] {
      assert Rotate(Rotate(ps))[i] == (-ps[i].0, -ps[i].1);
    }
  }

  /** Mirroring twice gives back the same list. */
  lemma FlipTwice(ps: seq<Point>)
    ensures Flip(Flip(ps)) == ps
  {
    assert forall i :: 0 <= i < |ps| ==> Flip(Flip(ps))[i] == ps[i];
  }

  /** k quarter turns. */
  function Rotations(ps: seq<Point>, k: nat): (r: seq<Point>)
    ensures |r| == |ps|
  {
    if k == 0 then ps else Rotate(Rotations(ps, k - 1))
  }

  // getAllOrientations (lines 70-90).

  /** The list the inner loop starts from in pass `flip`: the points, then
      the mirror image of their fourth turn. */
  function Base(ps: seq<Point>, flip: nat): seq<Point> {
    if flip == 0 then ps else Flip(Rotations(ps, 4))
  }

  /** The eight lists the loops produce, in loop order, each passed through
      norm; the program's norm is Normalize. */
  function CandidatesWith(ps: seq<Point>, norm: seq<Point> -> seq<Point>): (cs: seq<seq<Point>>)
    ensures |cs| == 8
    ensures forall k :: 0 <= k < 4 ==> cs[k] == norm(Rotations(Base(ps, 0), k))
    ensures forall k :: 4 <= k < 8 ==> cs[k] == norm(Rotations(Base(ps, 1), k - 4))
  {
    seq(8, k requires 0 <= k < 8 =>
      if k < 4 then norm(Rotations(Base(ps, 0), k)) else norm(Rotations(Base(ps, 1), k - 4)))
  }

  /** The eight normalized orientations, in loop order. */
  function Candidates(ps: seq<Point>): (cs: seq<seq<Point>>)
    ensures cs == CandidatesWith(ps, Normalize)
  {
    CandidatesWith(ps, Normalize)
  }

  /** The first occurrence of each list, in order (the `seen` set). */
  function Dedupe(xs: seq<seq<Point>>): (r: seq<seq<Point>>)
    ensures |r| <= |xs|
    ensures forall x :: x in r <==> x in xs
  {
    if xs == [] then []
    else
      var d := Dedupe(xs[..|xs| - 1]);
      assert xs == xs[..|xs| - 1] + [xs[|xs| - 1]];
      if xs[|xs| - 1] in d then d else d + [xs[|xs| - 1]]
  }

  lemma {:induction false} DedupeDistinct(xs: seq<seq<Point>>)
    ensures forall i, j :: 0 <= i < j < |Dedupe(xs)| ==> Dedupe(xs)[i] != Dedupe(xs)[j]
  {
    if xs != [] {
      DedupeDistinct(xs[..|xs| - 1]);
    }
  }

  /** The loops at lines 76-87 with the normalizer passed in. */
  method OrientationsWith(shape: Shape, norm: seq<Point> -> seq<Point>) returns (orientations: seq<seq<Point>>)
    ensures orientations == Dedupe(CandidatesWith(Cells(shape), norm))
  {
    var points := ShapePoints(shape);
    ghost var cells := points;
    ghost var cands := CandidatesWith(cells, norm);
    orientations := [];
    var seen: set<seq<Point>> := {};
    for flip := 0 to 2
      invariant flip < 2 ==> points == Base(cells, flip)
      invariant orientations == Dedupe(cands[..4 * flip])
      invariant seen == set o | o in orientations
    {
      for rot := 0 to 4
        invariant points == Rotations(Base(cells, flip), rot)
        invariant orientations == Dedupe(cands[..4 * flip + rot])
        invariant seen == set o | o in orientations
      {
        var normalized := norm(points);
        assert cands[..4 * flip + rot + 1][..4 * flip + rot] == cands[..4 * flip + rot];
        assert normalized == cands[4 * flip + rot];
        if normalized !in seen {
          seen := seen + {normalized};
          orientations := orientations + [normalized];
        }
        points := Rotate(points);
      }
      points := Flip(points);
    }
    assert cands[..8] == cands;
  }

  /** getAllOrientations (lines 70-90). */
  method AllOrientations(shape: Shape) returns (orientations: seq<seq<Point>>)
    ensures orientations == Dedupe(Candidates(Cells(shape)))
  {
    orientations := OrientationsWith(shape, Normalize);
  }

  /** o is a normalized rotation, possibly mirrored, of ps. */
  predicate IsOrientationOf(o: seq<Point>, ps: seq<Point>) {
    Normalized(o) && |o| == |ps| &&
    exists flip, rot :: 0 <= flip < 2 && 0 <= rot < 4 && o == Normalize(Rotations(Base(ps, flip), rot))
  }

  /** Each candidate is an orientation of the list. */
  lemma CandidateFacts(ps: seq<Point>, k: nat)
    requires k < 8
    ensures IsOrientationOf(Candidates(ps)[k], ps)
  {
    var flip, rot := if k < 4 then 0 else 1, if k < 4 then k else k - 4;
    var b := Rotations(Base(ps, flip), rot);
    assert |Base(ps, flip)| == |ps|;
    assert Candidates(ps)[k] == Normalize(b);
    NormalizeFacts(b);
  }

  /** What getAllOrientations promises: between one and eight lists, no two
      equal, each normalized and as long as the shape has '#' cells, and each
      one a rotation, possibly mirrored, of the shape moved to the origin. */
  lemma OrientationsFacts(ps: seq<Point>)
    ensures 1 <= |Dedupe(Candidates(ps))| <= 8
    ensures forall i, j :: 0 <= i < j < |Dedupe(Candidates(ps))| ==> Dedupe(Candidates(ps))[i] != Dedupe(Candidates(ps))[j]
    ensures forall o :: o in Dedupe(Candidates(ps)) ==> IsOrientationOf(o, ps)
  {
    var cs := Candidates(ps);
    DedupeDistinct(cs);
    assert cs[0] in Dedupe(cs);
    forall o | o in Dedupe(cs)
      ensures IsOrientationOf(o, ps)
    {
      var k :| 0 <= k < 8 && cs[k] == o;
      CandidateFacts(ps, k);
    }
  }

  // No orientation lists a cell twice.

  predicate DistinctPoints(ps: seq<Point>) {
    forall i, j :: 0 <= i < j < |ps| ==> ps[i] != ps[j]
  }

  lemma DuplicateCount(s: seq<Point>, i: nat, j: nat)
    requires i < j < |s| && s[i] == s[j]
    ensures multiset(s)[s[i]] >= 2
  {
    assert s == s[..j] + s[j..];
    assert s[i] == s[..j][i] && s[j] == s[j..][0];
    assert multiset(s) == multiset(s[..j]) + multiset(s[j..]);
  }

  lemma {:induction false} DistinctCount(s: seq<Point>, x: Point)
    requires DistinctPoints(s)
    ensures multiset(s)[x] <= 1
  {
    if s != [] {
      var init := s[..|s| - 1];
      assert s == init + [s[|s| - 1]];
      assert DistinctPoints(init);
      DistinctCount(init, x);
      assert s[|s| - 1] !in init;
    }
  }

  /** A list with the same elements as a distinct list is distinct. */
  lemma SameElementsDistinct(s: seq<Point>, t: seq<Point>)
    requires multiset(s) == multiset(t) && DistinctPoints(t)
    ensures DistinctPoints(s)
  {
    forall i, j | 0 <= i < j < |s| ensures s[i] != s[j] {
      if s[i] == s[j] {
        DuplicateCount(s, i, j);
        DistinctCount(t, s[i]);
      }
    }
  }

  lemma {:induction false} RotationsDistinct(ps: seq<Point>, k: nat)
    requires DistinctPoints(ps)
    ensures DistinctPoints(Rotations(ps, k))
  {
    if k > 0 {
      RotationsDistinct(ps, k - 1);
      var q := Rotations(ps, k - 1);
      forall i, j | 0 <= i < j < |q| ensures Rotate(q)[i] != Rotate(q)[j] {
        assert Rotate(q)[i] == (q[i].1, -q[i].0) && Rotate(q)[j] == (q[j].1, -q[j].0);
      }
    }
  }

  lemma BaseDistinct(ps: seq<Point>, flip: nat)
    requires DistinctPoints(ps)
    ensures DistinctPoints(Base(ps, flip))
  {
    if flip != 0 {
      RotationsDistinct(ps, 4);
      var q := Rotations(ps, 4);
      forall i, j | 0 <= i < j < |q| ensures Flip(q)[i] != Flip(q)[j] {
        assert Flip(q)[i] == (q[i].0, -q[i].1) && Flip(q)[j] == (q[j].0, -q[j].1);
      }
    }
  }

  lemma NormalizeDistinct(ps: seq<Point>)
    requires DistinctPoints(ps)
    ensures DistinctPoints(Normalize(ps))
  {
    if ps != [] {
      var s := Shift(ps, MinRow(ps), MinCol(ps));
      assert DistinctPoints(s);
      NormalizeFacts(ps);
      SameElementsDistinct(Normalize(ps), s);
    }
  }

  /** The orientations of a list without repeats have none either. */
  lemma OrientationsDistinctPoints(ps: seq<Point>)
    requires DistinctPoints(ps)
    ensures forall o :: o in Dedupe(Candidates(ps)) ==> DistinctPoints(o)
  {
    var cs := Candidates(ps);
    forall o | o in Dedupe(cs) ensures DistinctPoints(o) {
      var k :| 0 <= k < 8 && cs[k] == o;
      var flip, rot := if k < 4 then 0 else 1, if k < 4 then k else k - 4;
      BaseDistinct(ps, flip);
      RotationsDistinct(Base(ps, flip), rot);
      NormalizeDistinct(Rotations(Base(ps, flip), rot));
    }
  }
}
