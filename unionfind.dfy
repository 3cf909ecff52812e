// The union-find structure shared by both parts of day 8 (day8/solution.cs,
// day8/solution_part2.cs): `parent` and `rank` arrays, `Find` with path
// compression and `Union` by rank. The rank strictly grows along every parent
// link, which is what makes `Find` terminate; the specification follows the
// links to the root and proves that compression keeps every element's root
// and that linking merges exactly two classes.
module UnionFind {

  /** Every parent is an index, ranks are non-negative, and a non-root's rank is below its parent's. */
  predicate Forest(p: seq<int>, rk: seq<int>) {
    && |p| == |rk|
    && forall i :: 0 <= i < |p| ==> 0 <= p[i] < |p| && 0 <= rk[i] && (p[i] != i ==> rk[i] < rk[p[i]])
  }

  function MaxRank(rk: seq<int>): (m: int)
    ensures forall i :: 0 <= i < |rk| ==> rk[i] <= m
  {
    if rk == [] then 0
    else
      var m := MaxRank(rk[1..]);
      if rk[0] > m then rk[0] else m
  }

  /** The root reached by following parent links from x. */
  function Root(p: seq<int>, rk: seq<int>, x: int): (r: int)
    requires Forest(p, rk) && 0 <= x < |p|
    ensures 0 <= r < |p| && p[r] == r
    ensures rk[x] <= rk[r]
    ensures p[x] != x ==> rk[x] < rk[r]
    decreases MaxRank(rk) - rk[x]
  {
    if p[x] == x then x else Root(p, rk, p[x])
  }

  /** Two elements are in one component when they share a root. */
  predicate Same(p: seq<int>, rk: seq<int>, a: int, b: int)
    requires Forest(p, rk) && 0 <= a < |p| && 0 <= b < |p|
  {
    Root(p, rk, a) == Root(p, rk, b)
  }

  /** The root of every element, by index. */
  function RootLabels(p: seq<int>, rk: seq<int>): (r: seq<int>)
    requires Forest(p, rk)
    ensures |r| == |p|
    ensures forall a :: 0 <= a < |p| ==> r[a] == Root(p, rk, a)
  {
    seq(|p|, a requires 0 <= a < |p| => Root(p, rk, a))
  }

  /** The roots: one per component. */
  function Roots(p: seq<int>): set<int> {
    set i | 0 <= i < |p| && p[i] == i
  }

  /** p1 differs from p0 only by pointing some elements straight at their root. */
  predicate Compressed(p0: seq<int>, p1: seq<int>, rk: seq<int>)
    requires Forest(p0, rk)
  {
    |p1| == |p0| && forall y :: 0 <= y < |p0| ==> p1[y] == p0[y] || p1[y] == Root(p0, rk, y)
  }

  lemma CompressedForest(p0: seq<int>, p1: seq<int>, rk: seq<int>)
    requires Forest(p0, rk) && Compressed(p0, p1, rk)
    ensures Forest(p1, rk)
  {
  }

  /** Path compression keeps every element's root. */
  lemma {:induction false} CompressedRoot(p0: seq<int>, p1: seq<int>, rk: seq<int>, y: int)
    requires Forest(p0, rk) && Compressed(p0, p1, rk) && 0 <= y < |p0|
    ensures Forest(p1, rk)
    ensures Root(p1, rk, y) == Root(p0, rk, y)
    decreases MaxRank(rk) - rk[y]
  {
    CompressedForest(p0, p1, rk);
    var r := Root(p0, rk, y);
    if p0[y] == y {
      assert p1[y] == y;
    } else if p1[y] == r {
      assert p1[r] == r;
    } else {
      CompressedRoot(p0, p1, rk, p0[y]);
    }
  }

  lemma CompressedSame(p0: seq<int>, p1: seq<int>, rk: seq<int>)
    requires Forest(p0, rk) && Compressed(p0, p1, rk)
    ensures Forest(p1, rk)
    ensures forall y :: 0 <= y < |p0| ==> Root(p1, rk, y) == Root(p0, rk, y)
    ensures Roots(p1) == Roots(p0)
  {
    CompressedForest(p0, p1, rk);
    forall y | 0 <= y < |p0| ensures Root(p1, rk, y) == Root(p0, rk, y) {
      CompressedRoot(p0, p1, rk, y);
    }
  }

  lemma CompressedTrans(p0: seq<int>, p1: seq<int>, p2: seq<int>, rk: seq<int>)
    requires Forest(p0, rk) && Compressed(p0, p1, rk)
    requires Forest(p1, rk) && Compressed(p1, p2, rk)
    ensures Compressed(p0, p2, rk)
  {
    CompressedSame(p0, p1, rk);
  }

  /** A forest where every element is its own root. */
  lemma Singletons(p: seq<int>, rk: seq<int>)
    requires Forest(p, rk) && forall i :: 0 <= i < |p| ==> p[i] == i
    ensures forall i :: 0 <= i < |p| ==> Root(p, rk, i) == i
  {
  }

  /** Ranks after the link: the winner's may grow, no other rank changes. */
  predicate RankRaised(rk0: seq<int>, rk1: seq<int>, w: int)
    requires 0 <= w < |rk0|
  {
    |rk1| == |rk0| && rk1[w] >= rk0[w] && forall i :: 0 <= i < |rk0| && i != w ==> rk1[i] == rk0[i]
  }

  /**
   * Hanging root l under root w (whose new rank exceeds l's) keeps the forest,
   * and moves exactly l's component to w.
   */
  lemma {:induction false} LinkRoot(p0: seq<int>, rk0: seq<int>, w: int, l: int, rk1: seq<int>, z: int)
    requires Forest(p0, rk0) && 0 <= w < |p0| && 0 <= l < |p0| && w != l
    requires p0[w] == w && p0[l] == l
    requires RankRaised(rk0, rk1, w) && rk0[l] < rk1[w]
    requires 0 <= z < |p0|
    ensures Forest(p0[l := w], rk1)
    ensures Root(p0[l := w], rk1, z) == if Root(p0, rk0, z) == l then w else Root(p0, rk0, z)
    decreases MaxRank(rk0) - rk0[z]
  {
    var p1 := p0[l := w];
    assert Forest(p1, rk1) by {
      forall i | 0 <= i < |p1| && p1[i] != i ensures rk1[i] < rk1[p1[i]] {
        if i != l {
          assert p0[i] != i && i != w;
        }
      }
    }
    if p0[z] != z {
      assert z != l;
      LinkRoot(p0, rk0, w, l, rk1, p0[z]);
    } else if z == l {
      assert p1[w] == w;
    }
  }

  lemma LinkSame(p0: seq<int>, rk0: seq<int>, w: int, l: int, rk1: seq<int>)
    requires Forest(p0, rk0) && 0 <= w < |p0| && 0 <= l < |p0| && w != l
    requires p0[w] == w && p0[l] == l
    requires RankRaised(rk0, rk1, w) && rk0[l] < rk1[w]
    ensures Forest(p0[l := w], rk1)
    ensures forall z :: 0 <= z < |p0| ==>
              Root(p0[l := w], rk1, z) == if Root(p0, rk0, z) == l then w else Root(p0, rk0, z)
    ensures Roots(p0[l := w]) == Roots(p0) - {l}
  {
    LinkRoot(p0, rk0, w, l, rk1, 0);
    forall z | 0 <= z < |p0|
      ensures Root(p0[l := w], rk1, z) == if Root(p0, rk0, z) == l then w else Root(p0, rk0, z)
    {
      LinkRoot(p0, rk0, w, l, rk1, z);
    }
  }

  /** Renaming l to w identifies u and v iff they were equal or are the two merged roots. */
  lemma RelabelEq(u: int, v: int, w: int, l: int, rx: int, ry: int)
    requires w != l && {w, l} == {rx, ry}
    ensures ((if u == l then w else u) == (if v == l then w else v)) <==>
            u == v || (u == rx && v == ry) || (u == ry && v == rx)
  {
  }

  /**
   * Linking the roots of x and y in a compression p2 of p0 merges exactly the
   * components of x and y, and removes one root.
   */
  lemma MergeSpec(p0: seq<int>, rk0: seq<int>, p2: seq<int>, w: int, l: int, rk1: seq<int>, x: int, y: int)
    requires Forest(p0, rk0) && Compressed(p0, p2, rk0)
    requires 0 <= x < |p0| && 0 <= y < |p0| && 0 <= w < |p0| && 0 <= l < |p0| && w != l
    requires {w, l} == {Root(p0, rk0, x), Root(p0, rk0, y)}
    requires RankRaised(rk0, rk1, w) && rk0[l] < rk1[w]
    ensures Forest(p2[l := w], rk1)
    ensures forall a, b :: 0 <= a < |p0| && 0 <= b < |p0| ==>
              (Same(p2[l := w], rk1, a, b) <==>
                 || Same(p0, rk0, a, b)
                 || (Same(p0, rk0, a, x) && Same(p0, rk0, b, y))
                 || (Same(p0, rk0, a, y) && Same(p0, rk0, b, x)))
    ensures |Roots(p2[l := w])| == |Roots(p0)| - 1
  {
    CompressedSame(p0, p2, rk0);
    assert p2[w] == w && p2[l] == l;
    LinkSame(p2, rk0, w, l, rk1);
    var p3 := p2[l := w];
    forall a, b | 0 <= a < |p0| && 0 <= b < |p0|
      ensures Same(p3, rk1, a, b) <==>
                || Same(p0, rk0, a, b)
                || (Same(p0, rk0, a, x) && Same(p0, rk0, b, y))
                || (Same(p0, rk0, a, y) && Same(p0, rk0, b, x))
    {
      RelabelEq(Root(p0, rk0, a), Root(p0, rk0, b), w, l, Root(p0, rk0, x), Root(p0, rk0, y));
    }
    assert l in Roots(p2);
  }

  /**
   * Union by rank over p0/rk0 as the source links: of the roots of x and y the
   * one of lower rank (y's root on a tie) is hung under the other, whose rank
   * grows by one exactly when the two ranks were equal; apart from that link,
   * p1 only compresses paths of p0, and no other rank changes.
   */
  ghost predicate LinkedByRank(p0: seq<int>, rk0: seq<int>, p1: seq<int>, rk1: seq<int>, x: int, y: int)
    requires Forest(p0, rk0) && 0 <= x < |p0| && 0 <= y < |p0|
  {
    var rx, ry := Root(p0, rk0, x), Root(p0, rk0, y);
    var w := if rk0[rx] < rk0[ry] then ry else rx;
    var l := if rk0[rx] < rk0[ry] then rx else ry;
    && rk0[l] <= rk0[w]
    && |p1| == |p0| && p1[l] == w
    && Compressed(p0, p1[l := l], rk0)
    && rk1 == rk0[w := rk0[w] + (if rk0[w] == rk0[l] then 1 else 0)]
  }

  /** Linking the lower-rank root l under w in a compression p2 of p0 is union by rank. */
  lemma LinkIsByRank(p0: seq<int>, rk0: seq<int>, p2: seq<int>, w: int, l: int, x: int, y: int)
    requires Forest(p0, rk0) && Compressed(p0, p2, rk0)
    requires 0 <= x < |p0| && 0 <= y < |p0| && 0 <= w < |p0| && 0 <= l < |p0|
    requires Root(p0, rk0, x) != Root(p0, rk0, y)
    requires rk0[Root(p0, rk0, x)] < rk0[Root(p0, rk0, y)] ==> w == Root(p0, rk0, y) && l == Root(p0, rk0, x)
    requires rk0[Root(p0, rk0, x)] >= rk0[Root(p0, rk0, y)] ==> w == Root(p0, rk0, x) && l == Root(p0, rk0, y)
    ensures LinkedByRank(p0, rk0, p2[l := w], rk0[w := rk0[w] + (if rk0[w] == rk0[l] then 1 else 0)], x, y)
  {
    assert p2[l := w][l := l] == p2 by {
      assert p2[l] == l;
    }
  }

  /** When every element shares one root, that root is the only one. */
  lemma OneRoot(p: seq<int>, rk: seq<int>, r: int)
    requires Forest(p, rk) && 0 <= r < |p|
    requires forall a :: 0 <= a < |p| ==> Root(p, rk, a) == r
    ensures Roots(p) == {r}
  {
    assert Root(p, rk, r) == r;
    forall i | i in Roots(p) ensures i == r {
      assert Root(p, rk, i) == i;
    }
  }

  /** There is a single root exactly when every element shares element 0's root. */
  lemma SingleRoot(p: seq<int>, rk: seq<int>)
    requires Forest(p, rk) && |p| >= 1
    ensures |Roots(p)| == 1 <==> forall a :: 0 <= a < |p| ==> Same(p, rk, 0, a)
  {
    var r := Root(p, rk, 0);
    assert r in Roots(p);
    if forall a :: 0 <= a < |p| ==> Same(p, rk, 0, a) {
      forall a | 0 <= a < |p| ensures Root(p, rk, a) == r {
        assert Same(p, rk, 0, a);
      }
      OneRoot(p, rk, r);
    } else {
      var a :| 0 <= a < |p| && !Same(p, rk, 0, a);
      var x := Root(p, rk, a);
      assert x in Roots(p) - {r};
      assert |Roots(p) - {r}| == |Roots(p)| - 1;
    }
  }

  /** The indices 0 .. n-1. */
  function Indices(n: nat): (s: set<int>)
    ensures forall i :: i in s <==> 0 <= i < n
    ensures |s| == n
  {
    if n == 0 then {} else Indices(n - 1) + {n - 1}
  }

  class UnionFind {
    const n: nat
    var parent: array<int>
    var rank: array<int>

    ghost predicate Valid()
      reads this, parent, rank
    {
      parent.Length == n && rank.Length == n && parent != rank && Forest(parent[..], rank[..])
    }

    /** The component of x. */
    ghost function RootOf(x: int): int
      reads this, parent, rank
      requires Valid() && 0 <= x < n
    {
      Root(parent[..], rank[..], x)
    }

    /** `parent[i] = i` for every i, every rank 0: n singleton components. */
    constructor (size: nat)
      ensures Valid() && n == size
      ensures fresh(parent) && fresh(rank)
      ensures forall i :: 0 <= i < n ==> RootOf(i) == i
      ensures |Roots(parent[..])| == n
    {
      var p := new int[size];
      var rk := new int[size](_ => 0);
      for i := 0 to size
        invariant forall k :: 0 <= k < i ==> p[k] == k
        invariant forall k :: 0 <= k < size ==> rk[k] == 0
      {
        p[i] := i;
      }
      n, parent, rank := size, p, rk;
      Singletons(p[..], rk[..]);
      assert Roots(p[..]) == Indices(size);
    }

    /** `Find`: the root of x, pointing every element on the way straight at it. */
    method Find(x: int) returns (r: int)
      requires Valid() && 0 <= x < n
      modifies parent
      ensures Valid()
      ensures r == Root(old(parent[..]), rank[..], x)
      ensures parent[x] == r
      ensures Compressed(old(parent[..]), parent[..], rank[..])
      decreases MaxRank(rank[..]) - rank[x]
    {
      if parent[x] != x {
        ghost var p0 := parent[..];
        var r0 := Find(parent[x]);
        ghost var p1 := parent[..];
        CompressedSame(p0, p1, rank[..]);
        parent[x] := r0;
        assert parent[..] == p1[x := r0];
        CompressedTrans(p0, p1, parent[..], rank[..]);
        CompressedForest(p0, parent[..], rank[..]);
      }
      r := parent[x];
    }

    /**
     * `Union`: false, with every component and every rank kept, when x and y
     * already share a root; otherwise the lower-rank root goes under the other
     * (`LinkedByRank`), the two components become one, and exactly one root
     * disappears.
     */
    method Union(x: int, y: int) returns (merged: bool)
      requires Valid() && 0 <= x < n && 0 <= y < n
      modifies parent, rank
      ensures Valid()
      ensures merged <==> !Same(old(parent[..]), old(rank[..]), x, y)
      ensures forall a, b :: 0 <= a < n && 0 <= b < n ==>
                (Same(parent[..], rank[..], a, b) <==>
                   || Same(old(parent[..]), old(rank[..]), a, b)
                   || (Same(old(parent[..]), old(rank[..]), a, x) && Same(old(parent[..]), old(rank[..]), b, y))
                   || (Same(old(parent[..]), old(rank[..]), a, y) && Same(old(parent[..]), old(rank[..]), b, x)))
      ensures !merged ==> forall a :: 0 <= a < n ==> RootOf(a) == Root(old(parent[..]), old(rank[..]), a)
      ensures !merged ==> Roots(parent[..]) == old(Roots(parent[..]))
      ensures merged ==> |Roots(parent[..])| == old(|Roots(parent[..])|) - 1
      ensures !merged ==> rank[..] == old(rank[..]) && Compressed(old(parent[..]), parent[..], rank[..])
      ensures merged ==> LinkedByRank(old(parent[..]), old(rank[..]), parent[..], rank[..], x, y)
    {
      ghost var p0, rk := parent[..], rank[..];
      var px := Find(x);
      ghost var p1 := parent[..];
      CompressedSame(p0, p1, rk);
      var py := Find(y);
      ghost var p2 := parent[..];
      CompressedSame(p1, p2, rk);
      CompressedTrans(p0, p1, p2, rk);
      if px == py {
        return false;
      }
      if rank[px] < rank[py] {
        px, py := py, px;
      }
      parent[py] := px;
      assert parent[..] == p2[py := px];
      if rank[px] == rank[py] {
        rank[px] := rank[px] + 1;
      }
      assert rank[..] == rk[px := rk[px] + (if rk[px] == rk[py] then 1 else 0)];
      LinkIsByRank(p0, rk, p2, px, py, x, y);
      MergeSpec(p0, rk, p2, px, py, rank[..], x, y);
      return true;
    }
  }
}
