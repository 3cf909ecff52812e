// Day 7, part 2 (day7/solution_part2.kts): the same beams, but each column now
// carries the number of timelines that reach it. A splitter hands its count to
// both neighbouring columns inside the grid, '.' and 'S' pass it straight down,
// and counts arriving in one column add up. The answer is the total count left
// after the last row.
module Day7Timelines {
  import opened Day7Beams

  /** Timelines per column (the keys are the active columns). */
  type Timelines = map<int, nat>

  /**
   * What column d receives from the columns in P: only its own column and its
   * two neighbours can send a beam into it.
   */
  function Inflow(grid: Grid, row: nat, t: Timelines, P: set<int>, d: int): nat
    requires WellShaped(grid) && row < |grid| && P <= t.Keys && InWidth(P, Width(grid))
  {
    (if d - 1 in P && d in Successors(grid, row, d - 1) then t[d - 1] else 0)
    + (if d in P && d in Successors(grid, row, d) then t[d] else 0)
    + (if d + 1 in P && d in Successors(grid, row, d + 1) then t[d + 1] else 0)
  }

  /** The counts below row `row` produced by the columns in P. */
  function Spread(grid: Grid, row: nat, t: Timelines, P: set<int>): (next: Timelines)
    requires WellShaped(grid) && row < |grid| && P <= t.Keys && InWidth(P, Width(grid))
    ensures next.Keys == NextBeams(grid, row, P)
  {
    map d | d in NextBeams(grid, row, P) :: Inflow(grid, row, t, P, d)
  }

  /** The counts below row `row`. */
  function NextTimelines(grid: Grid, row: nat, t: Timelines): (next: Timelines)
    requires WellShaped(grid) && row < |grid| && InWidth(t.Keys, Width(grid))
    ensures next.Keys == NextBeams(grid, row, t.Keys)
  {
    Spread(grid, row, t, t.Keys)
  }

  /** m after adding v to every column of S (`getOrDefault(d, 0L) + count`). */
  function Credit(m: Timelines, S: set<int>, v: nat): Timelines {
    map d | d in m.Keys + S :: (if d in m then m[d] else 0) + (if d in S then v else 0)
  }

  /** A column is reached from P exactly when its own column or a neighbour in P sends a beam into it. */
  lemma NextBeamsMember(grid: Grid, row: nat, P: set<int>, d: int)
    requires WellShaped(grid) && row < |grid| && InWidth(P, Width(grid))
    ensures d in NextBeams(grid, row, P) <==>
              || (d - 1 in P && d in Successors(grid, row, d - 1))
              || (d in P && d in Successors(grid, row, d))
              || (d + 1 in P && d in Successors(grid, row, d + 1))
  {
  }

  lemma InflowAdd(grid: Grid, row: nat, t: Timelines, P: set<int>, c: int, d: int)
    requires WellShaped(grid) && row < |grid| && P <= t.Keys && InWidth(P, Width(grid))
    requires c in t.Keys && c !in P && 0 <= c < Width(grid)
    ensures Inflow(grid, row, t, P + {c}, d)
            == Inflow(grid, row, t, P, d) + (if d in Successors(grid, row, c) then t[c] else 0)
  {
  }

  lemma SpreadAdd(grid: Grid, row: nat, t: Timelines, P: set<int>, c: int)
    requires WellShaped(grid) && row < |grid| && P <= t.Keys && InWidth(P, Width(grid))
    requires c in t.Keys && c !in P && 0 <= c < Width(grid)
    ensures Spread(grid, row, t, P + {c}) == Credit(Spread(grid, row, t, P), Successors(grid, row, c), t[c])
  {
    var succ := Successors(grid, row, c);
    var before := Spread(grid, row, t, P);
    NextBeamsAdd(grid, row, P, c);
    var lhs, rhs := Spread(grid, row, t, P + {c}), Credit(before, succ, t[c]);
    assert lhs.Keys == rhs.Keys;
    forall d | d in lhs.Keys
      ensures lhs[d] == rhs[d]
    {
      InflowAdd(grid, row, t, P, c, d);
      NextBeamsMember(grid, row, P, d);
    }
    assert lhs == rhs;
  }

  /** A Kotlin `LinkedHashMap`: the counts, and their columns in insertion order. */
  predicate Ordered(order: seq<int>, counts: Timelines) {
    Distinct(order) && Elems(order) == counts.Keys
  }

  /** `newTimelines[d] = newTimelines.getOrDefault(d, 0L) + count`. */
  method Bump(order: seq<int>, counts: Timelines, d: int, v: nat) returns (order': seq<int>, counts': Timelines)
    requires Ordered(order, counts)
    ensures Ordered(order', counts')
    ensures counts' == Credit(counts, {d}, v)
  {
    order' := Add(order, d);
    counts' := counts[d := (if d in counts then counts[d] else 0) + v];
  }

  lemma CreditNone(m: Timelines, v: nat)
    ensures Credit(m, {}, v) == m
  {
  }

  /** A splitter's two updates: the neighbouring columns that lie in [0, width). */
  method Split(order: seq<int>, counts: Timelines, col: int, width: nat, count: nat)
    returns (order': seq<int>, counts': Timelines)
    requires Ordered(order, counts)
    ensures Ordered(order', counts')
    ensures counts' == Credit(counts, (if col - 1 >= 0 then {col - 1} else {}) + (if col + 1 < width then {col + 1} else {}), count)
  {
    ghost var left: set<int> := if col - 1 >= 0 then {col - 1} else {};
    ghost var right: set<int> := if col + 1 < width then {col + 1} else {};
    order', counts' := order, counts;
    CreditNone(counts, count);
    if col - 1 >= 0 {
      order', counts' := Bump(order', counts', col - 1, count);
    }
    assert counts' == Credit(counts, left, count);
    ghost var mid := counts';
    if col + 1 < width {
      order', counts' := Bump(order', counts', col + 1, count);
    }
    CreditNone(mid, count);
    assert counts' == Credit(mid, right, count);
    CreditUnion(counts, left, right, count);
  }

  /** Crediting two disjoint sets one after the other credits their union. */
  lemma CreditUnion(m: Timelines, A: set<int>, B: set<int>, v: nat)
    requires A !! B
    ensures Credit(Credit(m, A, v), B, v) == Credit(m, A + B, v)
  {
  }

  /** The `when` on one column: hand its count on to where its beam goes. */
  method Visit(grid: Grid, row: nat, order: seq<int>, counts: Timelines, col: int, count: nat)
    returns (order': seq<int>, counts': Timelines)
    requires WellShaped(grid) && row < |grid| && 0 <= col < Width(grid) && Ordered(order, counts)
    ensures Ordered(order', counts')
    ensures counts' == Credit(counts, Successors(grid, row, col), count)
  {
    SuccessorsCases(grid, row, col);
    var ch := grid[row][col];
    if ch == '^' {
      order', counts' := Split(order, counts, col, |grid[0]|, count);
    } else if ch == '.' || ch == 'S' {
      order', counts' := Bump(order, counts, col, count);
    } else {
      CreditNone(counts, count);
      order', counts' := order, counts;
    }
  }

  /** One row of `solve`: each column of the map, in insertion order. */
  method RowStep(grid: Grid, row: nat, order: seq<int>, t: Timelines)
    returns (newOrder: seq<int>, newTimelines: Timelines)
    requires WellShaped(grid) && row < |grid| && InWidth(t.Keys, Width(grid)) && Ordered(order, t)
    ensures Ordered(newOrder, newTimelines)
    ensures newTimelines == NextTimelines(grid, row, t)
  {
    newOrder, newTimelines := [], map[];
    assert Spread(grid, row, t, {}) == map[];
    for i := 0 to |order|
      invariant Elems(order[..i]) <= Elems(order)
      invariant Ordered(newOrder, newTimelines)
      invariant newTimelines == Spread(grid, row, t, Elems(order[..i]))
    {
      var col := order[i];
      ElemsSnoc(order, i);
      assert col in Elems(order);
      assert col !in Elems(order[..i]);
      SpreadAdd(grid, row, t, Elems(order[..i]), col);
      newOrder, newTimelines := Visit(grid, row, newOrder, newTimelines, col, t[col]);
    }
    assert order[..|order|] == order;
  }

  /** The counts entering row k (1 <= k <= height): one timeline in the start column. */
  function TimelinesBefore(grid: Grid, start: int, k: nat): (t: Timelines)
    requires WellShaped(grid) && 0 <= start < Width(grid) && 1 <= k <= |grid|
    ensures InWidth(t.Keys, Width(grid))
  {
    if k == 1 then map[start := 1]
    else
      var prev := TimelinesBefore(grid, start, k - 1);
      NextTimelines(grid, k - 1, prev)
  }

  /** The sum of the counts of columns 0 .. n-1. */
  function Total(t: Timelines, n: nat): nat {
    if n == 0 then 0 else Total(t, n - 1) + (if n - 1 in t then t[n - 1] else 0)
  }

  /** The columns the map holds evolve exactly like part 1's beams. */
  lemma {:induction false} ColumnsAreBeams(grid: Grid, start: int, k: nat)
    requires WellShaped(grid) && 0 <= start < Width(grid) && 1 <= k <= |grid|
    ensures TimelinesBefore(grid, start, k).Keys == BeamsBefore(grid, start, k)
  {
    if k > 1 {
      ColumnsAreBeams(grid, start, k - 1);
    }
  }

  /** Every column in the map is reached by at least one timeline. */
  lemma {:induction false} CountsPositive(grid: Grid, start: int, k: nat)
    requires WellShaped(grid) && 0 <= start < Width(grid) && 1 <= k <= |grid|
    ensures Positive(TimelinesBefore(grid, start, k))
  {
    if k > 1 {
      CountsPositive(grid, start, k - 1);
      var prev := TimelinesBefore(grid, start, k - 1);
      var next := NextTimelines(grid, k - 1, prev);
      forall d | d in next
        ensures next[d] >= 1
      {
        InflowPositive(grid, k - 1, prev, d);
      }
    }
  }

  predicate Positive(t: Timelines) {
    forall d :: d in t ==> t[d] >= 1
  }

  lemma InflowPositive(grid: Grid, row: nat, t: Timelines, d: int)
    requires WellShaped(grid) && row < |grid| && InWidth(t.Keys, Width(grid))
    requires Positive(t)
    requires d in NextBeams(grid, row, t.Keys)
    ensures Inflow(grid, row, t, t.Keys, d) >= 1
  {
    NextBeamsMember(grid, row, t.Keys, d);
  }

  /** With positive counts, the total is at least the number of columns held. */
  lemma {:induction false} TotalAtLeastColumns(t: Timelines, n: nat)
    requires Positive(t)
    ensures Total(t, n) >= |set c | c in t && 0 <= c < n|
  {
    if n > 0 {
      TotalAtLeastColumns(t, n - 1);
      var below := set c | c in t && 0 <= c < n - 1;
      if n - 1 in t {
        assert (set c | c in t && 0 <= c < n) == below + {n - 1};
      } else {
        assert (set c | c in t && 0 <= c < n) == below;
      }
    }
  }

  /** `solve`: the total count after the last row. */
  method Solve(grid: Grid) returns (total: nat)
    requires WellShaped(grid) && 'S' in grid[0]
    ensures total == Total(TimelinesBefore(grid, StartCol(grid[0]), |grid|), Width(grid))
  {
    var height, width := |grid|, |grid[0]|;
    var startCol := FindStart(grid[0]);
    var order, timelines := [startCol], map[startCol := 1];
    for row := 1 to height
      invariant Ordered(order, timelines)
      invariant timelines == TimelinesBefore(grid, startCol, row)
    {
      if timelines == map[] {
        EmptyStays(grid, startCol, row, height);
        break;
      }
      order, timelines := RowStep(grid, row, order, timelines);
    }
    total := Total(timelines, width);
  }

  /** Once no column is left nothing changes, so stopping early is the same as going on. */
  lemma EmptyStays(grid: Grid, start: int, k: nat, m: nat)
    requires WellShaped(grid) && 0 <= start < Width(grid) && 1 <= k <= m <= |grid|
    requires TimelinesBefore(grid, start, k) == map[]
    ensures TimelinesBefore(grid, start, m) == map[]
  {
    ColumnsAreBeams(grid, start, k);
    NoBeamsStay(grid, start, k, m);
    ColumnsAreBeams(grid, start, m);
    var t := TimelinesBefore(grid, start, m);
    assert t.Keys == {};
    assert forall d :: d !in t;
  }

  /** The answer counts at least one timeline per beam that leaves the bottom row. */
  lemma AnswerAtLeastBeams(grid: Grid, start: int)
    requires WellShaped(grid) && 0 <= start < Width(grid)
    ensures Total(TimelinesBefore(grid, start, |grid|), Width(grid)) >= |BeamsBefore(grid, start, |grid|)|
  {
    var t := TimelinesBefore(grid, start, |grid|);
    ColumnsAreBeams(grid, start, |grid|);
    CountsPositive(grid, start, |grid|);
    TotalAtLeastColumns(t, Width(grid));
    assert (set c | c in t && 0 <= c < Width(grid)) == t.Keys;
  }
}
