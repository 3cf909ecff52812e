// Day 11 (day11/solution.c): counting the paths of a device graph. A node's
// edges are the indices of the devices its output feeds, in input order and
// with repeats kept. count_paths and count_paths2 recurse over the edges; they
// terminate only when the part of the graph they walk is acyclic, which is
// stated here by a ranking: every edge out of a ranked node other than `out`
// goes to a ranked node of smaller rank.
module Day11Graph {

  predicate Ranked(edges: seq<seq<nat>>, out: nat, rank: map<nat, nat>) {
    (forall u :: u in rank ==> u < |edges|) &&
    (forall u, i :: u in rank && u != out && 0 <= i < |edges[u]| ==>
       edges[u][i] in rank && rank[edges[u][i]] < rank[u])
  }

  /** count_paths (lines 42-60) without the memo: 1 at `out`, otherwise the sum over the edges. */
  function Paths(edges: seq<seq<nat>>, out: nat, rank: map<nat, nat>, v: nat): nat
    requires Ranked(edges, out, rank) && v in rank
    decreases rank[v], 1, 0
  {
    if v == out then 1 else Total(edges, out, rank, v, |edges[v]|)
  }

  /** The loop at lines 54-56: the counts of the first n edges of v added up. */
  function Total(edges: seq<seq<nat>>, out: nat, rank: map<nat, nat>, v: nat, n: nat): nat
    requires Ranked(edges, out, rank) && v in rank && v != out && n <= |edges[v]|
    decreases rank[v], 0, n
  {
    if n == 0 then 0 else Total(edges, out, rank, v, n - 1) + Paths(edges, out, rank, edges[v][n - 1])
  }

  /** A walk from v to out: consecutive nodes joined by an edge, `out` only at the end. */
  predicate IsWalk(edges: seq<seq<nat>>, out: nat, p: seq<nat>, v: nat) {
    |p| >= 1 && p[0] == v && p[|p| - 1] == out &&
    forall k :: 0 <= k < |p| - 1 ==> p[k] != out && p[k] < |edges| && p[k + 1] in edges[p[k]]
  }

  function Prepend(v: nat, ps: seq<seq<nat>>): (r: seq<seq<nat>>)
    ensures |r| == |ps|
    ensures forall k :: 0 <= k < |ps| ==> r[k] == [v] + ps[k]
  {
    seq(|ps|, k requires 0 <= k < |ps| => [v] + ps[k])
  }

  /** The walks from v to out, one per choice of edge at each step: an edge
      listed twice gives every walk through it twice. */
  function Walks(edges: seq<seq<nat>>, out: nat, rank: map<nat, nat>, v: nat): seq<seq<nat>>
    requires Ranked(edges, out, rank) && v in rank
    decreases rank[v], 1, 0
  {
    if v == out then [[out]] else WalksVia(edges, out, rank, v, |edges[v]|)
  }

  /** The walks from v that leave through one of its first n edges. */
  function WalksVia(edges: seq<seq<nat>>, out: nat, rank: map<nat, nat>, v: nat, n: nat): seq<seq<nat>>
    requires Ranked(edges, out, rank) && v in rank && v != out && n <= |edges[v]|
    decreases rank[v], 0, n
  {
    if n == 0 then []
    else WalksVia(edges, out, rank, v, n - 1) + Prepend(v, Walks(edges, out, rank, edges[v][n - 1]))
  }

  /** count_paths counts the walks to out. */
  lemma {:induction false} PathsCountsWalks(edges: seq<seq<nat>>, out: nat, rank: map<nat, nat>, v: nat)
    requires Ranked(edges, out, rank) && v in rank
    ensures Paths(edges, out, rank, v) == |Walks(edges, out, rank, v)|
    decreases rank[v], 1, 0
  {
    if v != out {
      TotalCountsWalks(edges, out, rank, v, |edges[v]|);
    }
  }

  lemma {:induction false} TotalCountsWalks(edges: seq<seq<nat>>, out: nat, rank: map<nat, nat>, v: nat, n: nat)
    requires Ranked(edges, out, rank) && v in rank && v != out && n <= |edges[v]|
    ensures Total(edges, out, rank, v, n) == |WalksVia(edges, out, rank, v, n)|
    decreases rank[v], 0, n
  {
    if n > 0 {
      TotalCountsWalks(edges, out, rank, v, n - 1);
      PathsCountsWalks(edges, out, rank, edges[v][n - 1]);
    }
  }

  /** Everything listed is a walk from v to out. */
  lemma {:induction false} WalksSound(edges: seq<seq<nat>>, out: nat, rank: map<nat, nat>, v: nat)
    requires Ranked(edges, out, rank) && v in rank
    ensures forall p :: p in Walks(edges, out, rank, v) ==> IsWalk(edges, out, p, v)
    decreases rank[v], 1, 0
  {
    if v != out {
      WalksViaSound(edges, out, rank, v, |edges[v]|);
    }
  }

  lemma {:induction false} WalksViaSound(edges: seq<seq<nat>>, out: nat, rank: map<nat, nat>, v: nat, n: nat)
    requires Ranked(edges, out, rank) && v in rank && v != out && n <= |edges[v]|
    ensures forall p :: p in WalksVia(edges, out, rank, v, n) ==> IsWalk(edges, out, p, v)
    decreases rank[v], 0, n
  {
    if n > 0 {
      var w := edges[v][n - 1];
      WalksViaSound(edges, out, rank, v, n - 1);
      WalksSound(edges, out, rank, w);
      var tails := Walks(edges, out, rank, w);
      forall p | p in Prepend(v, tails) ensures IsWalk(edges, out, p, v) {
        var k :| 0 <= k < |tails| && p == [v] + tails[k];
        assert tails[k] in tails;
        assert IsWalk(edges, out, tails[k], w);
        forall m | 0 <= m < |p| - 1 ensures p[m] != out && p[m] < |edges| && p[m + 1] in edges[p[m]] {
          if m > 0 {
            assert p[m] == tails[k][m - 1] && p[m + 1] == tails[k][m];
          } else {
            assert edges[v][n - 1] in edges[v];
          }
        }
      }
    }
  }

  lemma {:induction false} WalksViaGrow(edges: seq<seq<nat>>, out: nat, rank: map<nat, nat>, v: nat, m: nat, n: nat, p: seq<nat>)
    requires Ranked(edges, out, rank) && v in rank && v != out && m <= n <= |edges[v]|
    requires p in WalksVia(edges, out, rank, v, m)
    ensures p in WalksVia(edges, out, rank, v, n)
    decreases n - m
  {
    if m < n {
      WalksViaGrow(edges, out, rank, v, m, n - 1, p);
    }
  }

  /** Every walk from v to out is listed. */
  lemma {:induction false} WalksComplete(edges: seq<seq<nat>>, out: nat, rank: map<nat, nat>, v: nat, p: seq<nat>)
    requires Ranked(edges, out, rank) && v in rank
    requires IsWalk(edges, out, p, v)
    ensures p in Walks(edges, out, rank, v)
    decreases |p|
  {
    if |p| == 1 {
      assert p == [out];
    } else {
      assert p[0] != out;
      var w := p[1];
      var j :| 0 <= j < |edges[v]| && edges[v][j] == w;
      var rest := p[1..];
      assert IsWalk(edges, out, rest, w) by {
        forall k | 0 <= k < |rest| - 1 ensures rest[k] != out && rest[k] < |edges| && rest[k + 1] in edges[rest[k]] {
          assert rest[k] == p[k + 1] && rest[k + 1] == p[k + 2];
        }
      }
      WalksComplete(edges, out, rank, w, rest);
      var tails := Walks(edges, out, rank, w);
      var k :| 0 <= k < |tails| && tails[k] == rest;
      assert p == [v] + rest;
      assert Prepend(v, tails)[k] == p;
      assert p in WalksVia(edges, out, rank, v, j + 1);
      WalksViaGrow(edges, out, rank, v, j + 1, |edges[v]|, p);
    }
  }

  // Part 2: the bit mask of what a walk has passed, bit 0 for dac, bit 1 for fft.

  /** Lines 66-67: the mask after reaching v. */
  function Mark(v: nat, dac: nat, fft: nat, state: bv2): (r: bv2)
    ensures r & 1 == 1 <==> state & 1 == 1 || v == dac
    ensures r & 2 == 2 <==> state & 2 == 2 || v == fft
  {
    var s := if v == dac then state | 1 else state;
    if v == fft then s | 2 else s
  }

  /** The mask after walking through the nodes of p. */
  function Seen(p: seq<nat>, dac: nat, fft: nat, state: bv2): bv2
    decreases |p|
  {
    if p == [] then state else Seen(p[1..], dac, fft, Mark(p[0], dac, fft, state))
  }

  /** count_paths2 (lines 64-87) without the memo. */
  function Paths2(edges: seq<seq<nat>>, out: nat, dac: nat, fft: nat, rank: map<nat, nat>, v: nat, state: bv2): nat
    requires Ranked(edges, out, rank) && v in rank
    decreases rank[v], 1, 0
  {
    var s := Mark(v, dac, fft, state);
    if v == out then (if s == 3 then 1 else 0) else Total2(edges, out, dac, fft, rank, v, s, |edges[v]|)
  }

  /** The loop at lines 81-83, with the mask already updated for v. */
  function Total2(edges: seq<seq<nat>>, out: nat, dac: nat, fft: nat, rank: map<nat, nat>, v: nat, state: bv2, n: nat): nat
    requires Ranked(edges, out, rank) && v in rank && v != out && n <= |edges[v]|
    decreases rank[v], 0, n
  {
    if n == 0 then 0
    else Total2(edges, out, dac, fft, rank, v, state, n - 1) + Paths2(edges, out, dac, fft, rank, edges[v][n - 1], state)
  }

  /** How many of the walks pass both dac and fft, counting `state`'s bits as passed. */
  function Covering(ps: seq<seq<nat>>, dac: nat, fft: nat, state: bv2): (c: nat)
    ensures c <= |ps|
    decreases |ps|
  {
    if ps == [] then 0
    else Covering(ps[..|ps| - 1], dac, fft, state) + (if Seen(ps[|ps| - 1], dac, fft, state) == 3 then 1 else 0)
  }

  lemma {:induction false} CoveringAppend(a: seq<seq<nat>>, b: seq<seq<nat>>, dac: nat, fft: nat, state: bv2)
    ensures Covering(a + b, dac, fft, state) == Covering(a, dac, fft, state) + Covering(b, dac, fft, state)
    decreases |b|
  {
    if b == [] {
      assert a + b == a;
    } else {
      assert (a + b)[..|a + b| - 1] == a + b[..|b| - 1];
      CoveringAppend(a, b[..|b| - 1], dac, fft, state);
    }
  }

  lemma {:induction false} CoveringPrepend(v: nat, ps: seq<seq<nat>>, dac: nat, fft: nat, state: bv2)
    ensures Covering(Prepend(v, ps), dac, fft, state) == Covering(ps, dac, fft, Mark(v, dac, fft, state))
    decreases |ps|
  {
    if ps != [] {
      var last := ps[|ps| - 1];
      assert Prepend(v, ps)[..|ps| - 1] == Prepend(v, ps[..|ps| - 1]);
      assert ([v] + last)[1..] == last;
      CoveringPrepend(v, ps[..|ps| - 1], dac, fft, state);
    }
  }

  /** count_paths2 counts the walks to out that pass both dac and fft. */
  lemma {:induction false} Paths2CountsWalks(edges: seq<seq<nat>>, out: nat, dac: nat, fft: nat, rank: map<nat, nat>, v: nat, state: bv2)
    requires Ranked(edges, out, rank) && v in rank
    ensures Paths2(edges, out, dac, fft, rank, v, state) == Covering(Walks(edges, out, rank, v), dac, fft, state)
    decreases rank[v], 1, 0
  {
    var s := Mark(v, dac, fft, state);
    if v == out {
      assert Seen([out], dac, fft, state) == Seen([], dac, fft, s);
      assert [[out]][..0] == [];
    } else {
      Total2CountsWalks(edges, out, dac, fft, rank, v, state, |edges[v]|);
    }
  }

  lemma {:induction false} Total2CountsWalks(edges: seq<seq<nat>>, out: nat, dac: nat, fft: nat, rank: map<nat, nat>, v: nat, state: bv2, n: nat)
    requires Ranked(edges, out, rank) && v in rank && v != out && n <= |edges[v]|
    ensures Total2(edges, out, dac, fft, rank, v, Mark(v, dac, fft, state), n) ==
              Covering(WalksVia(edges, out, rank, v, n), dac, fft, state)
    decreases rank[v], 0, n
  {
    if n > 0 {
      var w := edges[v][n - 1];
      var s := Mark(v, dac, fft, state);
      Total2CountsWalks(edges, out, dac, fft, rank, v, state, n - 1);
      Paths2CountsWalks(edges, out, dac, fft, rank, w, s);
      CoveringAppend(WalksVia(edges, out, rank, v, n - 1), Prepend(v, Walks(edges, out, rank, w)), dac, fft, state);
      CoveringPrepend(v, Walks(edges, out, rank, w), dac, fft, state);
    }
  }

  lemma {:induction false} SeenFull(p: seq<nat>, dac: nat, fft: nat)
    ensures Seen(p, dac, fft, 3) == 3
    decreases |p|
  {
    if p != [] {
      SeenFull(p[1..], dac, fft);
    }
  }

  lemma {:induction false} CoveringFull(ps: seq<seq<nat>>, dac: nat, fft: nat)
    ensures Covering(ps, dac, fft, 3) == |ps|
    decreases |ps|
  {
    if ps != [] {
      SeenFull(ps[|ps| - 1], dac, fft);
      CoveringFull(ps[..|ps| - 1], dac, fft);
    }
  }

  /** Once both bits are set every walk counts: part 2 agrees with part 1. */
  lemma Paths2Full(edges: seq<seq<nat>>, out: nat, dac: nat, fft: nat, rank: map<nat, nat>, v: nat)
    requires Ranked(edges, out, rank) && v in rank
    ensures Paths2(edges, out, dac, fft, rank, v, 3) == Paths(edges, out, rank, v)
  {
    Paths2CountsWalks(edges, out, dac, fft, rank, v, 3);
    CoveringFull(Walks(edges, out, rank, v), dac, fft);
    PathsCountsWalks(edges, out, rank, v);
  }

  /** Part 2 never counts more than part 1 from the same node. */
  lemma Paths2Bound(edges: seq<seq<nat>>, out: nat, dac: nat, fft: nat, rank: map<nat, nat>, v: nat, state: bv2)
    requires Ranked(edges, out, rank) && v in rank
    ensures Paths2(edges, out, dac, fft, rank, v, state) <= Paths(edges, out, rank, v)
  {
    Paths2CountsWalks(edges, out, dac, fft, rank, v, state);
    PathsCountsWalks(edges, out, rank, v);
  }
}
