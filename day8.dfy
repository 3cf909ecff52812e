// Day 8, part 1 (day8/solution.cs): junction boxes are points in space. All
// pairs are listed with their squared distance and sorted by it; the 1000
// closest pairs are joined with union-find, and the answer is the product of
// the three largest circuit sizes. Connectivity is specified independently of
// union-find, as the equivalence generated by the joined pairs.
module Day8Circuits {
  import opened Optional
  import opened Sorting
  import opened Sums
  import opened UnionFind

  datatype Point = Point(x: int, y: int, z: int)

  /** One entry of `pairs`: the squared distance and the two indices, i < j. */
  datatype Pair = Pair(distSq: int, i: int, j: int)

  /** `dx * dx + dy * dy + dz * dz` (the model does not wrap at 64 bits). */
  function DistSq(a: Point, b: Point): (d: int)
    ensures d >= 0
  {
    var dx, dy, dz := a.x - b.x, a.y - b.y, a.z - b.z;
    Square(dx) + Square(dy) + Square(dz)
  }

  function Square(v: int): (s: int)
    ensures s >= 0
  {
    if v >= 0 then v * v else (-v) * (-v)
  }

  /** The entries (i, j) for j = from .. n-1, in the order the inner loop adds them. */
  function Row(points: seq<Point>, i: nat, from: nat): (r: seq<Pair>)
    requires i < |points| && from <= |points|
    ensures |r| == |points| - from
    ensures forall k :: 0 <= k < |r| ==> r[k] == Pair(DistSq(points[i], points[from + k]), i, from + k)
    decreases |points| - from
  {
    if from == |points| then []
    else [Pair(DistSq(points[i], points[from]), i, from)] + Row(points, i, from + 1)
  }

  /** The entries for every first index below m, in the order the loops add them. */
  function PairsBelow(points: seq<Point>, m: nat): seq<Pair>
    requires m <= |points|
  {
    if m == 0 then [] else PairsBelow(points, m - 1) + Row(points, m - 1, m)
  }

  /** The pair-building loops. */
  method BuildPairs(points: seq<Point>) returns (pairs: seq<Pair>)
    ensures pairs == PairsBelow(points, |points|)
  {
    var n := |points|;
    pairs := [];
    for i := 0 to n
      invariant pairs == PairsBelow(points, i)
    {
      pairs := AppendRow(points, i, pairs);
    }
  }

  /** The inner loop: the entries (i, j) for every j > i, appended in order of j. */
  method AppendRow(points: seq<Point>, i: nat, pairs: seq<Pair>) returns (r: seq<Pair>)
    requires i < |points|
    ensures r == pairs + Row(points, i, i + 1)
  {
    r := pairs;
    for j := i + 1 to |points|
      invariant r + Row(points, i, j) == pairs + Row(points, i, i + 1)
    {
      var dx := points[i].x - points[j].x;
      var dy := points[i].y - points[j].y;
      var dz := points[i].z - points[j].z;
      var distSq := dx * dx + dy * dy + dz * dz;
      assert distSq == DistSq(points[i], points[j]) by {
        SquareIs(dx);
        SquareIs(dy);
        SquareIs(dz);
      }
      assert Row(points, i, j) == [Pair(distSq, i, j)] + Row(points, i, j + 1);
      r := r + [Pair(distSq, i, j)];
    }
  }

  lemma SquareIs(v: int)
    ensures Square(v) == v * v
  {
    if v < 0 {
      assert (-v) * (-v) == v * v;
    }
  }

  /** Entries are strictly increasing in (i, j), so no pair occurs twice. */
  predicate IndexOrdered(s: seq<Pair>) {
    forall k, l :: 0 <= k < l < |s| ==> s[k].i < s[l].i || (s[k].i == s[l].i && s[k].j < s[l].j)
  }

  lemma {:induction false} PairsBelowOrdered(points: seq<Point>, m: nat)
    requires m <= |points|
    ensures IndexOrdered(PairsBelow(points, m))
    ensures forall q :: q in PairsBelow(points, m) ==> q.i < m
  {
    if m > 0 {
      var i := m - 1;
      PairsBelowOrdered(points, i);
      var prefix, row := PairsBelow(points, i), Row(points, i, m);
      assert PairsBelow(points, m) == prefix + row;
      assert forall k :: 0 <= k < |prefix| ==> prefix[k] in prefix;
    }
  }

  lemma RowMembers(points: seq<Point>, i: nat)
    requires i < |points|
    ensures forall q :: q in Row(points, i, i + 1) <==>
              q.i == i && i < q.j < |points| && q.distSq == DistSq(points[q.i], points[q.j])
  {
    var row := Row(points, i, i + 1);
    forall q: Pair | q.i == i && i < q.j < |points| && q.distSq == DistSq(points[q.i], points[q.j])
      ensures q in row
    {
      assert row[q.j - i - 1] == q;
    }
  }

  lemma {:induction false} PairsBelowMembers(points: seq<Point>, m: nat)
    requires m <= |points|
    ensures forall q :: q in PairsBelow(points, m) <==>
              0 <= q.i < m && q.i < q.j < |points| && q.distSq == DistSq(points[q.i], points[q.j])
  {
    if m > 0 {
      var prefix, row := PairsBelow(points, m - 1), Row(points, m - 1, m);
      PairsBelowMembers(points, m - 1);
      RowMembers(points, m - 1);
      assert PairsBelow(points, m) == prefix + row;
      forall q ensures q in prefix + row <==> q in prefix || q in row {
      }
    }
  }

  lemma {:induction false} PairsBelowCount(points: seq<Point>, m: nat)
    requires m <= |points|
    ensures 2 * |PairsBelow(points, m)| + (|points| - m) * (|points| - m - 1) == |points| * (|points| - 1)
  {
    var n := |points|;
    if m > 0 {
      PairsBelowCount(points, m - 1);
      assert |PairsBelow(points, m)| == |PairsBelow(points, m - 1)| + (n - m);
      PronicStep(n - m);
    }
  }

  lemma PronicStep(k: int)
    ensures (k + 1) * k == k * (k - 1) + 2 * k
  {
  }

  /** `pairs` holds exactly one entry per i < j, with its squared distance. */
  lemma PairsExact(points: seq<Point>)
    ensures IndexOrdered(PairsBelow(points, |points|))
    ensures forall q :: q in PairsBelow(points, |points|) <==>
              0 <= q.i < q.j < |points| && q.distSq == DistSq(points[q.i], points[q.j])
    ensures 2 * |PairsBelow(points, |points|)| == |points| * (|points| - 1)
  {
    PairsBelowOrdered(points, |points|);
    PairsBelowMembers(points, |points|);
    PairsBelowCount(points, |points|);
  }

  /** `pairs.Sort` compares by distance alone. */
  function DistKey(q: Pair): (int, int) {
    (q.distSq, 0)
  }

  /** The pairs by nondecreasing distance. */
  function SortedPairs(points: seq<Point>): (s: seq<Pair>)
    ensures multiset(s) == multiset(PairsBelow(points, |points|))
    ensures forall k, l :: 0 <= k < l < |s| ==> s[k].distSq <= s[l].distSq
    ensures forall k :: 0 <= k < |s| ==> 0 <= s[k].i < s[k].j < |points|
  {
    var s := SortBy(PairsBelow(points, |points|), DistKey);
    assert SortedBy(s, DistKey);
    PairsExact(points);
    assert forall k :: 0 <= k < |s| ==> s[k] in multiset(s);
    s
  }

  // ---------------------------------------------------------------------------
  // Connectivity, independently of union-find.

  /** a and b are joined by the pairs in E: the equivalence those pairs generate, one pair at a time. */
  function Conn(E: seq<Pair>, a: int, b: int): bool
    decreases |E|
  {
    if E == [] then a == b
    else
      var e, F := E[|E| - 1], E[..|E| - 1];
      || Conn(F, a, b)
      || (Conn(F, a, e.i) && Conn(F, b, e.j))
      || (Conn(F, a, e.j) && Conn(F, b, e.i))
  }

  lemma {:induction false} ConnSymmetric(E: seq<Pair>, a: int, b: int)
    ensures Conn(E, a, b) == Conn(E, b, a)
    decreases |E|
  {
    if E != [] {
      var e, F := E[|E| - 1], E[..|E| - 1];
      ConnSymmetric(F, a, b);
    }
  }

  lemma {:induction false} ConnTransitive(E: seq<Pair>, a: int, b: int, c: int)
    requires Conn(E, a, b) && Conn(E, b, c)
    ensures Conn(E, a, c)
    decreases |E|
  {
    if E != [] {
      var e, F := E[|E| - 1], E[..|E| - 1];
      forall u, v, w | Conn(F, u, v) && Conn(F, v, w) ensures Conn(F, u, w) {
        ConnTransitive(F, u, v, w);
      }
      forall u, v ensures Conn(F, u, v) == Conn(F, v, u) {
        ConnSymmetric(F, u, v);
      }
    }
  }

  lemma {:induction false} ConnMonotone(E: seq<Pair>, k: nat, a: int, b: int)
    requires k <= |E| && Conn(E[..k], a, b)
    ensures Conn(E, a, b)
    decreases |E| - k
  {
    if k < |E| {
      assert E[..k + 1][..k] == E[..k];
      ConnMonotone(E, k + 1, a, b);
    } else {
      assert E[..k] == E;
    }
  }

  lemma ConnEdge(E: seq<Pair>, k: nat)
    requires k < |E|
    ensures Conn(E, E[k].i, E[k].j)
  {
    var P := E[..k + 1];
    assert P[..k] == E[..k];
    assert Conn(E[..k], E[k].i, E[k].i) by { ConnReflexive(E[..k], E[k].i); }
    assert Conn(E[..k], E[k].j, E[k].j) by { ConnReflexive(E[..k], E[k].j); }
    ConnMonotone(E, k + 1, E[k].i, E[k].j);
  }

  lemma {:induction false} ConnReflexive(E: seq<Pair>, a: int)
    ensures Conn(E, a, a)
    decreases |E|
  {
    if E != [] {
      ConnReflexive(E[..|E| - 1], a);
    }
  }

  /** Conn is contained in every equivalence that relates the ends of every pair. */
  lemma {:induction false} ConnLeast(E: seq<Pair>, R: (int, int) -> bool, a: int, b: int)
    requires forall u :: R(u, u)
    requires forall u, v :: R(u, v) ==> R(v, u)
    requires forall u, v, w :: R(u, v) && R(v, w) ==> R(u, w)
    requires forall k :: 0 <= k < |E| ==> R(E[k].i, E[k].j)
    requires Conn(E, a, b)
    ensures R(a, b)
    decreases |E|
  {
    if E != [] {
      var e, F := E[|E| - 1], E[..|E| - 1];
      assert forall k :: 0 <= k < |F| ==> F[k] == E[k];
      assert R(e.i, e.j);
      if Conn(F, a, b) {
        ConnLeast(F, R, a, b);
      } else if Conn(F, a, e.i) && Conn(F, b, e.j) {
        ConnLeast(F, R, a, e.i);
        ConnLeast(F, R, b, e.j);
      } else {
        ConnLeast(F, R, a, e.j);
        ConnLeast(F, R, b, e.i);
      }
    }
  }

  /** The circuit of a: the points joined to it. */
  function Circuit(E: seq<Pair>, n: nat, a: int): set<int> {
    set b | 0 <= b < n && Conn(E, a, b)
  }

  /** a is the smallest point of its circuit. */
  predicate Leads(E: seq<Pair>, a: int) {
    forall j :: 0 <= j < a ==> !Conn(E, j, a)
  }

  /** The circuit sizes, one per circuit, in the order of their smallest points below m. */
  function CircuitSizes(E: seq<Pair>, n: nat, m: nat): seq<int>
    requires m <= n
  {
    if m == 0 then []
    else CircuitSizes(E, n, m - 1) + (if Leads(E, m - 1) then [|Circuit(E, n, m - 1)|] else [])
  }

  // ---------------------------------------------------------------------------
  // The size tally, over a labelling R of the points by their roots.

  /** k is the first point with its label. */
  predicate FirstOf(R: seq<int>, k: nat)
    requires k < |R|
  {
    forall j :: 0 <= j < k ==> R[j] != R[k]
  }

  /** The labels of the points below m, each once, in order of first occurrence. */
  function FirstLabels(R: seq<int>, m: nat): seq<int>
    requires m <= |R|
  {
    if m == 0 then []
    else
      var r := FirstLabels(R, m - 1);
      if FirstOf(R, m - 1) then r + [R[m - 1]] else r
  }

  lemma {:induction false} FirstLabelsShape(R: seq<int>, m: nat)
    requires m <= |R|
    ensures forall v :: v in FirstLabels(R, m) <==> exists j :: 0 <= j < m && R[j] == v
    ensures forall k, l :: 0 <= k < l < |FirstLabels(R, m)| ==> FirstLabels(R, m)[k] != FirstLabels(R, m)[l]
  {
    if m > 0 {
      FirstLabelsShape(R, m - 1);
      var r := FirstLabels(R, m - 1);
      if FirstOf(R, m - 1) {
        assert R[m - 1] !in r;
        assert FirstLabels(R, m) == r + [R[m - 1]];
      }
      forall v ensures v in FirstLabels(R, m) <==> exists j :: 0 <= j < m && R[j] == v {
        if v == R[m - 1] && !FirstOf(R, m - 1) {
          var j :| 0 <= j < m - 1 && R[j] == R[m - 1];
          assert v in r;
        }
      }
    }
  }

  /** How many points below m carry label v. */
  function Count(R: seq<int>, v: int, m: nat): nat
    requires m <= |R|
  {
    |set i | 0 <= i < m && R[i] == v|
  }

  lemma CountStep(R: seq<int>, v: int, m: nat)
    requires m < |R|
    ensures Count(R, v, m + 1) == Count(R, v, m) + (if R[m] == v then 1 else 0)
  {
    var below := set i | 0 <= i < m && R[i] == v;
    if R[m] == v {
      assert (set i | 0 <= i < m + 1 && R[i] == v) == below + {m};
    } else {
      assert (set i | 0 <= i < m + 1 && R[i] == v) == below;
    }
  }

  /** The values of the size dictionary, in insertion order. */
  function Values(order: seq<int>, sizes: map<int, nat>): seq<int>
    requires forall k :: 0 <= k < |order| ==> order[k] in sizes
  {
    seq(|order|, k requires 0 <= k < |order| => sizes[order[k]] as int)
  }

  /** `sizes[root] = sizes.GetValueOrDefault(root, 0) + 1` keeps the sum of the values one above the points seen. */
  lemma {:induction false} ValuesBump(order: seq<int>, sizes: map<int, nat>, r: int)
    requires forall k :: 0 <= k < |order| ==> order[k] in sizes
    requires forall k, l :: 0 <= k < l < |order| ==> order[k] != order[l]
    requires r in order
    ensures Sum(Values(order, sizes[r := sizes[r] + 1])) == Sum(Values(order, sizes)) + 1
    decreases |order|
  {
    var n := |order| - 1;
    var s0, s1 := Values(order, sizes), Values(order, sizes[r := sizes[r] + 1]);
    var p := order[..n];
    assert Values(p, sizes) == s0[..n] && s0 == s0[..n] + [s0[n]];
    assert Values(p, sizes[r := sizes[r] + 1]) == s1[..n] && s1 == s1[..n] + [s1[n]];
    SumAppend(s0[..n], [s0[n]]);
    SumAppend(s1[..n], [s1[n]]);
    if order[n] == r {
      assert Values(p, sizes[r := sizes[r] + 1]) == Values(p, sizes);
    } else {
      ValuesBump(p, sizes, r);
    }
  }

  lemma ValuesSnoc(order: seq<int>, sizes: map<int, nat>, r: int)
    requires forall k :: 0 <= k < |order| ==> order[k] in sizes
    requires r !in order
    ensures Values(order + [r], sizes[r := 1]) == Values(order, sizes) + [1]
  {
  }

  /** The tally loop's state after the points below i. */
  ghost predicate Tallied(R: seq<int>, i: nat, order: seq<int>, sizes: map<int, nat>)
    requires i <= |R|
  {
    && order == FirstLabels(R, i)
    && sizes.Keys == (set v | v in order)
    && (forall k :: 0 <= k < |order| ==> order[k] in sizes)
    && (forall v :: v in sizes ==> sizes[v] == Count(R, v, i))
    && Sum(Values(order, sizes)) == i
  }

  /** A point whose label is already a key adds one to that key's count. */
  lemma TallyBump(R: seq<int>, i: nat, order: seq<int>, sizes: map<int, nat>)
    requires i < |R| && Tallied(R, i, order, sizes) && R[i] in sizes
    ensures Tallied(R, i + 1, order, sizes[R[i] := sizes[R[i]] + 1])
  {
    var root, sizes' := R[i], sizes[R[i] := sizes[R[i]] + 1];
    FirstLabelsShape(R, i);
    assert root in order;
    assert !FirstOf(R, i);
    assert FirstLabels(R, i + 1) == order;
    forall v | v in sizes' ensures sizes'[v] == Count(R, v, i + 1) {
      CountStep(R, v, i);
    }
    ValuesBump(order, sizes, root);
  }

  /** A point with a new label appends it to the order with count one. */
  lemma TallyNew(R: seq<int>, i: nat, order: seq<int>, sizes: map<int, nat>)
    requires i < |R| && Tallied(R, i, order, sizes) && R[i] !in sizes
    ensures Tallied(R, i + 1, order + [R[i]], sizes[R[i] := 1])
  {
    var root, sizes' := R[i], sizes[R[i] := 1];
    FirstLabelsShape(R, i);
    assert root !in order;
    forall j | 0 <= j < i ensures R[j] != R[i] {
      assert R[j] in order;
    }
    assert FirstLabels(R, i + 1) == order + [root];
    forall v | v in sizes' ensures sizes'[v] == Count(R, v, i + 1) {
      CountStep(R, v, i);
      if v == root {
        assert (set j | 0 <= j < i && R[j] == v) == {};
      }
    }
    ValuesSnoc(order, sizes, root);
    SumAppend(Values(order, sizes), [1]);
  }

  /** One step of the tally: the point's root counted once more. */
  function Bumped(order: seq<int>, sizes: map<int, nat>, root: int): (seq<int>, map<int, nat>) {
    if root in sizes then (order, sizes[root := sizes[root] + 1])
    else (order + [root], sizes[root := 1])
  }

  lemma TallyStep(R: seq<int>, i: nat, order: seq<int>, sizes: map<int, nat>)
    requires i < |R| && Tallied(R, i, order, sizes)
    ensures Tallied(R, i + 1, Bumped(order, sizes, R[i]).0, Bumped(order, sizes, R[i]).1)
  {
    if R[i] in sizes {
      TallyBump(R, i, order, sizes);
    } else {
      TallyNew(R, i, order, sizes);
    }
  }

  /** The component-size loop: one `Find` per point, counting points per root. */
  method Tally(uf: UnionFind) returns (order: seq<int>, sizes: map<int, nat>)
    requires uf.Valid()
    modifies uf.parent
    ensures uf.Valid()
    ensures Tallied(old(RootLabels(uf.parent[..], uf.rank[..])), uf.n, order, sizes)
  {
    ghost var p0 := uf.parent[..];
    ghost var R := RootLabels(uf.parent[..], uf.rank[..]);
    order, sizes := [], map[];
    for i := 0 to uf.n
      invariant uf.Valid()
      invariant Compressed(p0, uf.parent[..], uf.rank[..])
      invariant Tallied(R, i, order, sizes)
    {
      CompressedSame(p0, uf.parent[..], uf.rank[..]);
      ghost var before := uf.parent[..];
      var root := uf.Find(i);
      CompressedTrans(p0, before, uf.parent[..], uf.rank[..]);
      assert root == R[i];
      TallyStep(R, i, order, sizes);
      order, sizes := Bumped(order, sizes, root).0, Bumped(order, sizes, root).1;
    }
  }

  /** The final counts of the labels in `order`. */
  function Counts(R: seq<int>, order: seq<int>): (c: seq<int>)
    ensures |c| == |order|
  {
    seq(|order|, k requires 0 <= k < |order| => Count(R, order[k], |R|) as int)
  }

  /**
   * When equal labels mean joined points, the counts of the labels in order
   * of first occurrence are the circuit sizes in order of smallest points.
   */
  lemma {:induction false} CountsAreCircuitSizes(R: seq<int>, E: seq<Pair>, m: nat)
    requires m <= |R|
    requires forall a, b :: 0 <= a < |R| && 0 <= b < |R| ==> (R[a] == R[b] <==> Conn(E, a, b))
    ensures Counts(R, FirstLabels(R, m)) == CircuitSizes(E, |R|, m)
  {
    if m > 0 {
      var k := m - 1;
      CountsAreCircuitSizes(R, E, k);
      var prefix := FirstLabels(R, k);
      assert FirstOf(R, k) <==> Leads(E, k);
      if FirstOf(R, k) {
        assert (set b | 0 <= b < |R| && R[b] == R[k]) == Circuit(E, |R|, k);
        assert Counts(R, prefix + [R[k]]) == Counts(R, prefix) + [Count(R, R[k], |R|)];
      }
    }
  }

  /** After the tally, the dictionary's values in insertion order are the circuit sizes. */
  lemma TalliedSizes(R: seq<int>, E: seq<Pair>, order: seq<int>, sizes: map<int, nat>)
    requires Tallied(R, |R|, order, sizes)
    requires forall a, b :: 0 <= a < |R| && 0 <= b < |R| ==> (R[a] == R[b] <==> Conn(E, a, b))
    ensures Values(order, sizes) == CircuitSizes(E, |R|, |R|)
    ensures Sum(CircuitSizes(E, |R|, |R|)) == |R|
  {
    CountsAreCircuitSizes(R, E, |R|);
    assert Values(order, sizes) == Counts(R, order);
  }

  // ---------------------------------------------------------------------------
  // The answer.

  /** `OrderByDescending(x => x)`. */
  function Descending(v: int): (int, int) {
    (-v, 0)
  }

  /** The product of the three largest values; none when there are fewer than three (`top3[2]` throws). */
  function TopThree(values: seq<int>): (r: Option<int>)
    ensures r.Some? <==> |values| >= 3
  {
    if |values| < 3 then None
    else
      var t := SortBy(values, Descending);
      Some(t[0] * t[1] * t[2])
  }

  /** The three factors are the largest values, each taken from a distinct entry. */
  lemma TopThreeLargest(values: seq<int>)
    requires |values| >= 3
    ensures exists a, b, c ::
              && TopThree(values) == Some(a * b * c)
              && a >= b >= c
              && multiset{a, b, c} <= multiset(values)
              && forall v :: v in multiset(values) - multiset{a, b, c} ==> v <= c
  {
    var t := SortBy(values, Descending);
    assert SortedBy(t, Descending);
    assert LexLe(Descending(t[0]), Descending(t[1])) && LexLe(Descending(t[1]), Descending(t[2]));
    assert t == [t[0], t[1], t[2]] + t[3..];
    assert multiset(values) == multiset{t[0], t[1], t[2]} + multiset(t[3..]);
    forall v | v in multiset(values) - multiset{t[0], t[1], t[2]} ensures v <= t[2] {
      assert v in t[3..];
      var k :| 3 <= k < |t| && t[k] == v;
      assert LexLe(Descending(t[2]), Descending(t[k]));
    }
  }

  /** Pairs taken in part 1. */
  const Connections := 1000

  /** The union-find forest p, rk relates exactly the points the pairs in E join. */
  ghost predicate Tracks(p: seq<int>, rk: seq<int>, E: seq<Pair>) {
    && Forest(p, rk)
    && forall a, b :: 0 <= a < |p| && 0 <= b < |p| ==> (Same(p, rk, a, b) <==> Conn(E, a, b))
  }

  /** Singletons track the empty list of pairs. */
  lemma TracksStart(p: seq<int>, rk: seq<int>)
    requires Forest(p, rk) && forall a :: 0 <= a < |p| ==> Root(p, rk, a) == a
    ensures Tracks(p, rk, [])
  {
  }

  /** A `Union` of the ends of pair k extends the tracked list by that pair. */
  lemma TracksStep(p0: seq<int>, rk0: seq<int>, p1: seq<int>, rk1: seq<int>, E: seq<Pair>, k: nat)
    requires k < |E| && Tracks(p0, rk0, E[..k])
    requires Forest(p1, rk1) && |p1| == |p0|
    requires 0 <= E[k].i < |p0| && 0 <= E[k].j < |p0|
    requires forall a, b :: 0 <= a < |p0| && 0 <= b < |p0| ==>
               (Same(p1, rk1, a, b) <==>
                  || Same(p0, rk0, a, b)
                  || (Same(p0, rk0, a, E[k].i) && Same(p0, rk0, b, E[k].j))
                  || (Same(p0, rk0, a, E[k].j) && Same(p0, rk0, b, E[k].i)))
    ensures Tracks(p1, rk1, E[..k + 1])
  {
    assert E[..k + 1][..k] == E[..k];
  }

  /** `Union` over each pair of E in turn, starting from singletons. */
  method ConnectAll(uf: UnionFind, E: seq<Pair>)
    requires uf.Valid() && forall a :: 0 <= a < uf.n ==> uf.RootOf(a) == a
    requires forall k :: 0 <= k < |E| ==> 0 <= E[k].i < uf.n && 0 <= E[k].j < uf.n
    modifies uf.parent, uf.rank
    ensures uf.Valid()
    ensures Tracks(uf.parent[..], uf.rank[..], E)
  {
    assert E[..0] == [];
    forall a | 0 <= a < uf.n ensures Root(uf.parent[..], uf.rank[..], a) == a {
      assert uf.RootOf(a) == a;
    }
    TracksStart(uf.parent[..], uf.rank[..]);
    for k := 0 to |E|
      invariant uf.Valid()
      invariant Tracks(uf.parent[..], uf.rank[..], E[..k])
    {
      ghost var p0, rk0 := uf.parent[..], uf.rank[..];
      var _ := uf.Union(E[k].i, E[k].j);
      TracksStep(p0, rk0, uf.parent[..], uf.rank[..], E, k);
    }
    assert E[..|E|] == E;
  }

  /**
   * Part 1: the product of the three largest circuits once the 1000 closest
   * pairs are joined; none when there are fewer than 1000 pairs (`pairs[i]`
   * throws) or fewer than three circuits.
   */
  method Part1(points: seq<Point>) returns (result: Option<int>)
    ensures var sorted := SortedPairs(points);
            result == if |sorted| < Connections then None
                      else TopThree(CircuitSizes(sorted[..Connections], |points|, |points|))
  {
    var n := |points|;
    var pairs := BuildPairs(points);
    var sorted := SortBy(pairs, DistKey);
    assert sorted == SortedPairs(points);
    if |sorted| < Connections {
      return None;
    }
    var uf := new UnionFind(n);
    ConnectAll(uf, sorted[..Connections]);
    ghost var E := sorted[..Connections];
    ghost var R := RootLabels(uf.parent[..], uf.rank[..]);
    assert forall a, b :: 0 <= a < n && 0 <= b < n ==> (R[a] == R[b] <==> Conn(E, a, b));
    var order, sizes := Tally(uf);
    TalliedSizes(R, E, order, sizes);
    var values := Values(order, sizes);
    var top := SortBy(values, Descending);
    if |top| < 3 {
      return None;
    }
    result := Some(top[0] * top[1] * top[2]);
  }
}
