// Day 8, part 2 (day8/solution_part2.cs): the sorted pairs are joined one by
// one, counting circuits, until a single circuit remains; the answer is the
// product of the x coordinates of the two points of the pair that completed
// it.
module Day8LastLink {
  import opened Optional
  import opened Sorting
  import opened UnionFind
  import opened Day8Circuits

  /** Every point is joined to point 0 by the pairs in E. */
  predicate AllJoined(E: seq<Pair>, n: nat) {
    forall a :: 0 <= a < n ==> Conn(E, 0, a)
  }

  /** Joining the pairs up to and including index m leaves one circuit. */
  predicate Completes(E: seq<Pair>, n: nat, m: nat)
    requires m < |E|
  {
    AllJoined(E[..m + 1], n)
  }

  /** The first index from k on whose pair leaves one circuit, or |E| when none does. */
  function JoiningIndex(E: seq<Pair>, n: nat, k: nat): (r: nat)
    requires k <= |E|
    ensures k <= r <= |E|
    ensures r < |E| ==> Completes(E, n, r)
    ensures forall m :: k <= m < r ==> !Completes(E, n, m)
    decreases |E| - k
  {
    if k == |E| then |E|
    else if Completes(E, n, k) then k
    else JoiningIndex(E, n, k + 1)
  }

  /** Joining more pairs never splits a circuit. */
  lemma AllJoinedMonotone(E: seq<Pair>, n: nat, k: nat, m: nat)
    requires k <= m <= |E| && AllJoined(E[..k], n)
    ensures AllJoined(E[..m], n)
  {
    forall a | 0 <= a < n ensures Conn(E[..m], 0, a) {
      assert E[..m][..k] == E[..k];
      ConnMonotone(E[..m], k, 0, a);
    }
  }

  /** The index found is the only one whose pair completes the single circuit. */
  lemma JoiningIndexUnique(E: seq<Pair>, n: nat, k: nat)
    requires k < |E| && AllJoined(E[..k + 1], n) && !AllJoined(E[..k], n)
    ensures JoiningIndex(E, n, 0) == k
  {
    var r := JoiningIndex(E, n, 0);
    assert Completes(E, n, k);
    if r < k {
      assert Completes(E, n, r);
      AllJoinedMonotone(E, n, r + 1, k);
    }
  }

  /** Scanning from index 0, the index is reached at the first pair that completes the circuit. */
  lemma JoiningStep(E: seq<Pair>, n: nat, k: nat)
    requires k < |E| && k <= JoiningIndex(E, n, 0)
    ensures Completes(E, n, k) ==> JoiningIndex(E, n, 0) == k
    ensures !Completes(E, n, k) ==> k + 1 <= JoiningIndex(E, n, 0)
  {
  }

  /** With two points or more, some pair completes the single circuit. */
  lemma JoiningIndexExists(points: seq<Point>)
    requires |points| >= 2
    ensures JoiningIndex(SortedPairs(points), |points|, 0) < |SortedPairs(points)|
  {
    var s := SortedPairs(points);
    AllPairsJoin(points);
    PairsExact(points);
    assert |s| >= 1;
    assert s[..|s| - 1 + 1] == s;
    assert Completes(s, |points|, |s| - 1);
  }

  /** With two points or more, the complete list of pairs joins everything. */
  lemma AllPairsJoin(points: seq<Point>)
    requires |points| >= 2
    ensures AllJoined(SortedPairs(points), |points|)
  {
    var s, n := SortedPairs(points), |points|;
    PairsExact(points);
    forall a | 0 <= a < n ensures Conn(s, 0, a) {
      if a == 0 {
        ConnReflexive(s, 0);
      } else {
        var q := Pair(DistSq(points[0], points[a]), 0, a);
        assert q in multiset(s);
        var k :| 0 <= k < |s| && s[k] == q;
        ConnEdge(s, k);
      }
    }
  }

  /** With fewer than two points there are no pairs. */
  lemma NoPairs(points: seq<Point>)
    requires |points| < 2
    ensures SortedPairs(points) == []
  {
    PairsExact(points);
    assert |PairsBelow(points, |points|)| == 0;
  }

  /** Circuits are counted by roots: one root exactly when everything is joined. */
  lemma OneCircuit(p: seq<int>, rk: seq<int>, E: seq<Pair>)
    requires Tracks(p, rk, E) && |p| >= 1
    ensures |Roots(p)| == 1 <==> AllJoined(E, |p|)
  {
    SingleRoot(p, rk);
  }

  /**
   * One pass of the joining loop's body: `Union` on the k-th pair, which keeps
   * union-find in step with the joined pairs and removes a circuit exactly when
   * it merges.
   */
  method JoinPair(uf: UnionFind, E: seq<Pair>, k: nat) returns (merged: bool)
    requires uf.Valid() && k < |E| && 0 <= E[k].i < uf.n && 0 <= E[k].j < uf.n
    requires Tracks(uf.parent[..], uf.rank[..], E[..k])
    modifies uf.parent, uf.rank
    ensures uf.Valid()
    ensures Tracks(uf.parent[..], uf.rank[..], E[..k + 1])
    ensures merged ==> |Roots(uf.parent[..])| == old(|Roots(uf.parent[..])|) - 1
    ensures !merged ==> |Roots(uf.parent[..])| == old(|Roots(uf.parent[..])|)
    ensures uf.n >= 1 ==> (|Roots(uf.parent[..])| == 1 <==> AllJoined(E[..k + 1], uf.n))
  {
    ghost var p0, rk0 := uf.parent[..], uf.rank[..];
    merged := uf.Union(E[k].i, E[k].j);
    TracksStep(p0, rk0, uf.parent[..], uf.rank[..], E, k);
    if uf.n >= 1 {
      OneCircuit(uf.parent[..], uf.rank[..], E[..k + 1]);
    }
  }

  /**
   * The joining loop: `Union` over the pairs of E in turn from singletons,
   * counting circuits, until one circuit is left; the last merging pair is the
   * one at the joining index.
   */
  method JoinUntilOne(uf: UnionFind, E: seq<Pair>) returns (lastI: int, lastJ: int)
    requires uf.Valid() && forall a :: 0 <= a < uf.n ==> uf.RootOf(a) == a
    requires |Roots(uf.parent[..])| == uf.n
    requires forall k :: 0 <= k < |E| ==> 0 <= E[k].i < uf.n && 0 <= E[k].j < uf.n
    modifies uf.parent, uf.rank
    ensures E == [] ==> lastI == -1
    ensures uf.n >= 2 && JoiningIndex(E, uf.n, 0) < |E| ==>
              lastI == E[JoiningIndex(E, uf.n, 0)].i && lastJ == E[JoiningIndex(E, uf.n, 0)].j
  {
    var n := uf.n;
    ghost var J := JoiningIndex(E, n, 0);
    var components := n;
    lastI, lastJ := -1, -1;
    assert E[..0] == [];
    forall a | 0 <= a < uf.n ensures Root(uf.parent[..], uf.rank[..], a) == a {
      assert uf.RootOf(a) == a;
    }
    TracksStart(uf.parent[..], uf.rank[..]);
    for k := 0 to |E|
      invariant uf.Valid()
      invariant Tracks(uf.parent[..], uf.rank[..], E[..k])
      invariant components == |Roots(uf.parent[..])|
      invariant n >= 2 ==> k <= J && components >= 2
      invariant k == 0 ==> lastI == -1
    {
      var i, j := E[k].i, E[k].j;
      var merged := JoinPair(uf, E, k);
      if n >= 2 {
        JoiningStep(E, n, k);
      }
      if merged {
        components := components - 1;
        lastI, lastJ := i, j;
        if components == 1 {
          break;
        }
      }
    }
  }

  /**
   * Part 2: the product of the x coordinates of the pair that leaves a single
   * circuit; none with fewer than two points, where no pair ever merges and
   * `points[lastI]` throws.
   */
  method Part2(points: seq<Point>) returns (result: Option<int>)
    ensures |points| < 2 ==> result == None
    ensures |points| >= 2 ==>
              var sorted := SortedPairs(points);
              var k := JoiningIndex(sorted, |points|, 0);
              k < |sorted| && result == Some(points[sorted[k].i].x * points[sorted[k].j].x)
  {
    var n := |points|;
    var pairs := BuildPairs(points);
    var sorted := SortBy(pairs, DistKey);
    assert sorted == SortedPairs(points);
    if n >= 2 {
      JoiningIndexExists(points);
    } else {
      NoPairs(points);
    }
    var uf := new UnionFind(n);
    var lastI, lastJ := JoinUntilOne(uf, sorted);
    if lastI == -1 {
      result := None;
    } else {
      result := Some(points[lastI].x * points[lastJ].x);
    }
  }
}
