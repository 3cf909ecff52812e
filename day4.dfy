// Day 4 (day4/solution.rb): paper rolls '@' on a character grid. A roll is
// accessible when fewer than 4 of its 8 neighbours hold rolls. Part 1 counts
// the accessible rolls; part 2 removes all accessible rolls at once, round
// after round, until none is accessible, and counts the removed rolls.
// Rows are the lines of the file, so they may differ in length: a column past
// the end of a shorter row reads Ruby's nil, which is not a roll.
module Day4Rolls {
  import opened Sums

  type Grid = seq<seq<char>>
  type Cell = (int, int)

  /** The eight directions, row-major. */
  const Dirs: seq<Cell> := [(-1, -1), (-1, 0), (-1, 1), (0, -1), (0, 1), (1, -1), (1, 0), (1, 1)]

  /** `grid[r][c] == '@'`. */
  predicate IsRoll(grid: Grid, r: int, c: int) {
    0 <= r < |grid| && 0 <= c < |grid[r]| && grid[r][c] == '@'
  }

  /** `r.between?(0, rows - 1) && c.between?(0, cols - 1)`. */
  predicate InBounds(r: int, c: int, rows: int, cols: int) {
    0 <= r < rows && 0 <= c < cols
  }

  /** Whether direction i from (r, c) reaches an in-bounds roll. */
  predicate Hit(grid: Grid, r: int, c: int, rows: int, cols: int, i: nat)
    requires i < |Dirs|
  {
    var nr, nc := r + Dirs[i].0, c + Dirs[i].1;
    InBounds(nr, nc, rows, cols) && IsRoll(grid, nr, nc)
  }

  /** The count over the first k directions. */
  function CountDirs(grid: Grid, r: int, c: int, rows: int, cols: int, k: nat): (n: nat)
    requires k <= |Dirs|
    ensures n <= k
  {
    if k == 0 then 0
    else CountDirs(grid, r, c, rows, cols, k - 1) + (if Hit(grid, r, c, rows, cols, k - 1) then 1 else 0)
  }

  /** `count_adjacent_rolls`. */
  function CountAdjacentRolls(grid: Grid, r: int, c: int, rows: int, cols: int): (n: nat)
    ensures n <= 8
  {
    CountDirs(grid, r, c, rows, cols, |Dirs|)
  }

  /** The in-bounds neighbouring cells holding rolls, described without the direction table. */
  function NeighbourRolls(grid: Grid, r: int, c: int, rows: int, cols: int): set<Cell> {
    set nr, nc | r - 1 <= nr <= r + 1 && c - 1 <= nc <= c + 1 && (nr != r || nc != c)
                 && InBounds(nr, nc, rows, cols) && IsRoll(grid, nr, nc) :: (nr, nc)
  }

  /** The cells reached by the first k directions that hit. */
  function HitCells(grid: Grid, r: int, c: int, rows: int, cols: int, k: nat): set<Cell>
    requires k <= |Dirs|
  {
    set i | 0 <= i < k && Hit(grid, r, c, rows, cols, i) :: (r + Dirs[i].0, c + Dirs[i].1)
  }

  lemma {:induction false} HitCellsCount(grid: Grid, r: int, c: int, rows: int, cols: int, k: nat)
    requires k <= |Dirs|
    ensures |HitCells(grid, r, c, rows, cols, k)| == CountDirs(grid, r, c, rows, cols, k)
  {
    if k > 0 {
      HitCellsCount(grid, r, c, rows, cols, k - 1);
      HitCellsStep(grid, r, c, rows, cols, k);
    }
  }

  lemma HitCellsStep(grid: Grid, r: int, c: int, rows: int, cols: int, k: nat)
    requires 1 <= k <= |Dirs|
    ensures var p := (r + Dirs[k - 1].0, c + Dirs[k - 1].1);
            && p !in HitCells(grid, r, c, rows, cols, k - 1)
            && HitCells(grid, r, c, rows, cols, k)
               == HitCells(grid, r, c, rows, cols, k - 1) + (if Hit(grid, r, c, rows, cols, k - 1) then {p} else {})
  {
    var p := (r + Dirs[k - 1].0, c + Dirs[k - 1].1);
    forall i | 0 <= i < k - 1 ensures (r + Dirs[i].0, c + Dirs[i].1) != p {
      DirsDistinct(i, k - 1);
    }
  }

  lemma DirsDistinct(i: nat, j: nat)
    requires i < j < |Dirs|
    ensures Dirs[i] != Dirs[j]
  {
  }

  /** The index of the direction (dr, dc). */
  lemma DirIndex(dr: int, dc: int) returns (i: nat)
    requires -1 <= dr <= 1 && -1 <= dc <= 1 && (dr != 0 || dc != 0)
    ensures i < |Dirs| && Dirs[i] == (dr, dc)
  {
    var t := (dr + 1) * 3 + (dc + 1);
    i := if t < 4 then t else t - 1;
  }

  /** `count_adjacent_rolls` counts exactly the in-bounds neighbouring rolls. */
  lemma CountIsNeighbourRolls(grid: Grid, r: int, c: int, rows: int, cols: int)
    ensures CountAdjacentRolls(grid, r, c, rows, cols) == |NeighbourRolls(grid, r, c, rows, cols)|
  {
    HitCellsCount(grid, r, c, rows, cols, |Dirs|);
    var hits := HitCells(grid, r, c, rows, cols, |Dirs|);
    var ns := NeighbourRolls(grid, r, c, rows, cols);
    forall p | p in ns ensures p in hits {
      var i := DirIndex(p.0 - r, p.1 - c);
      assert Hit(grid, r, c, rows, cols, i);
    }
    assert hits == ns;
  }

  /** A roll in bounds with fewer than 4 neighbouring rolls. */
  predicate Accessible(grid: Grid, r: int, c: int, rows: int, cols: int) {
    InBounds(r, c, rows, cols) && IsRoll(grid, r, c) && CountAdjacentRolls(grid, r, c, rows, cols) < 4
  }

  /** Row-major order. */
  predicate Before(p: Cell, q: Cell) {
    p.0 < q.0 || (p.0 == q.0 && p.1 < q.1)
  }

  predicate RowMajor(cells: seq<Cell>) {
    forall i, j :: 0 <= i < j < |cells| ==> Before(cells[i], cells[j])
  }

  /** The loop state of `find_accessible` before cell `next`. */
  ghost predicate Collected(acc: seq<Cell>, grid: Grid, rows: int, cols: int, next: Cell) {
    && RowMajor(acc)
    && (forall k :: 0 <= k < |acc| ==> Before(acc[k], next))
    && (forall p :: p in acc <==> Accessible(grid, p.0, p.1, rows, cols) && Before(p, next))
  }

  /** `find_accessible`: the accessible rolls, each once, in row-major order. */
  method FindAccessible(grid: Grid, rows: nat, cols: nat) returns (accessible: seq<Cell>)
    requires rows <= |grid|
    ensures forall p :: p in accessible <==> Accessible(grid, p.0, p.1, rows, cols)
    ensures RowMajor(accessible)
  {
    accessible := [];
    for r := 0 to rows
      invariant Collected(accessible, grid, rows, cols, (r, 0))
    {
      for c := 0 to cols
        invariant Collected(accessible, grid, rows, cols, (r, c))
      {
        if c < |grid[r]| && grid[r][c] == '@' && CountAdjacentRolls(grid, r, c, rows, cols) < 4 {
          accessible := accessible + [(r, c)];
        }
      }
      NextRow(accessible, grid, rows, cols, r);
    }
  }

  lemma NextRow(acc: seq<Cell>, grid: Grid, rows: int, cols: int, r: int)
    requires Collected(acc, grid, rows, cols, (r, cols))
    ensures Collected(acc, grid, rows, cols, (r + 1, 0))
  {
    forall k | 0 <= k < |acc| ensures Before(acc[k], (r + 1, 0)) {
      assert acc[k] in acc;
    }
  }

  /** The accessible cells as a set. */
  function AccessibleSet(grid: Grid, rows: nat, cols: nat): set<Cell> {
    set r, c | 0 <= r < rows && 0 <= c < cols && Accessible(grid, r, c, rows, cols) :: (r, c)
  }

  /** A sequence in row-major order has as many elements as its set. */
  lemma {:induction false} RowMajorCard(cells: seq<Cell>)
    requires RowMajor(cells)
    ensures |set p | p in cells| == |cells|
  {
    if cells != [] {
      var init, last := cells[..|cells| - 1], cells[|cells| - 1];
      RowMajorCard(init);
      assert (set p | p in cells) == (set p | p in init) + {last};
      forall k | 0 <= k < |init| ensures init[k] != last {
        assert Before(cells[k], cells[|cells| - 1]);
      }
    }
  }

  /** Part 1: the number of accessible rolls. */
  method Part1(grid: Grid) returns (count: nat)
    requires |grid| >= 1
    ensures count == |AccessibleSet(grid, |grid|, |grid[0]|)|
  {
    var rows, cols := |grid|, |grid[0]|;
    var accessible := FindAccessible(grid, rows, cols);
    RowMajorCard(accessible);
    assert (set p | p in accessible) == AccessibleSet(grid, rows, cols);
    count := |accessible|;
  }

  /** The number of '@' in a row. */
  function RowRolls(row: seq<char>): nat {
    if row == [] then 0 else RowRolls(row[..|row| - 1]) + (if row[|row| - 1] == '@' then 1 else 0)
  }

  /** The number of '@' in the grid. */
  function RollCount(grid: Grid): nat {
    if grid == [] then 0 else RollCount(grid[..|grid| - 1]) + RowRolls(grid[|grid| - 1])
  }

  lemma {:induction false} RowRollsClear(row: seq<char>, c: nat)
    requires c < |row| && row[c] == '@'
    ensures RowRolls(row[c := '.']) + 1 == RowRolls(row)
  {
    var row' := row[c := '.'];
    if c < |row| - 1 {
      assert row'[..|row'| - 1] == row[..|row| - 1][c := '.'];
      RowRollsClear(row[..|row| - 1], c);
    } else {
      assert row'[..|row'| - 1] == row[..|row| - 1];
    }
  }

  lemma {:induction false} RollCountReplace(grid: Grid, r: nat, row: seq<char>)
    requires r < |grid|
    ensures RollCount(grid[r := row]) + RowRolls(grid[r]) == RollCount(grid) + RowRolls(row)
  {
    var grid' := grid[r := row];
    if r < |grid| - 1 {
      assert grid'[..|grid'| - 1] == grid[..|grid| - 1][r := row];
      RollCountReplace(grid[..|grid| - 1], r, row);
    } else {
      assert grid'[..|grid'| - 1] == grid[..|grid| - 1];
    }
  }

  /** Same number of rows and same row lengths. */
  predicate SameShape(a: Grid, b: Grid) {
    |a| == |b| && forall r :: 0 <= r < |a| ==> |a[r]| == |b[r]|
  }

  /** `accessible.each { |r, c| grid2[r][c] = '.' }`. */
  method ClearCells(grid0: Grid, cells: seq<Cell>) returns (grid: Grid)
    requires RowMajor(cells)
    requires forall k :: 0 <= k < |cells| ==> IsRoll(grid0, cells[k].0, cells[k].1)
    ensures SameShape(grid, grid0)
    ensures forall r, c :: 0 <= r < |grid| && 0 <= c < |grid[r]| ==>
              grid[r][c] == if (r, c) in cells then '.' else grid0[r][c]
    ensures RollCount(grid) + |cells| == RollCount(grid0)
  {
    grid := grid0;
    for k := 0 to |cells|
      invariant SameShape(grid, grid0)
      invariant forall r, c :: 0 <= r < |grid| && 0 <= c < |grid[r]| ==>
                  grid[r][c] == if (r, c) in cells[..k] then '.' else grid0[r][c]
      invariant RollCount(grid) + k == RollCount(grid0)
    {
      var r, c := cells[k].0, cells[k].1;
      assert (r, c) !in cells[..k] by {
        forall j | 0 <= j < k ensures cells[j] != (r, c) {
          assert Before(cells[j], cells[k]);
        }
      }
      RowRollsClear(grid[r], c);
      RollCountReplace(grid, r, grid[r][c := '.']);
      assert cells[..k + 1] == cells[..k] + [(r, c)];
      grid := grid[r := grid[r][c := '.']];
    }
    assert cells[..|cells|] == cells;
  }

  /** Every roll of `h` is a roll of `g`. */
  ghost predicate RollsWithin(h: Grid, g: Grid) {
    forall r, c :: IsRoll(h, r, c) ==> IsRoll(g, r, c)
  }

  /** No roll is accessible. */
  ghost predicate Stable(g: Grid, rows: nat, cols: nat) {
    forall r, c :: !Accessible(g, r, c, rows, cols)
  }

  /** One round of part 2: every accessible roll of `g` becomes '.', all at once. */
  function Cleared(g: Grid, rows: nat, cols: nat): Grid {
    seq(|g|, r requires 0 <= r < |g| =>
      seq(|g[r]|, c requires 0 <= c < |g[r]| => if Accessible(g, r, c, rows, cols) then '.' else g[r][c]))
  }

  lemma {:induction false} RowRollsWithin(a: seq<char>, b: seq<char>)
    requires |a| == |b|
    requires forall c :: 0 <= c < |b| && b[c] == '@' ==> a[c] == '@'
    ensures RowRolls(b) <= RowRolls(a)
    ensures (exists c :: 0 <= c < |a| && a[c] == '@' && b[c] != '@') ==> RowRolls(b) < RowRolls(a)
  {
    if a != [] {
      var n := |a| - 1;
      RowRollsWithin(a[..n], b[..n]);
      if exists c :: 0 <= c < |a| && a[c] == '@' && b[c] != '@' {
        var c :| 0 <= c < |a| && a[c] == '@' && b[c] != '@';
        if c < n {
          assert a[..n][c] == '@' && b[..n][c] != '@';
        }
      }
    }
  }

  /** A grid whose rolls lie within another's has no more of them, and fewer when one is missing. */
  lemma {:induction false} RollCountWithin(a: Grid, b: Grid)
    requires SameShape(a, b) && RollsWithin(b, a)
    ensures RollCount(b) <= RollCount(a)
    ensures (exists r, c :: IsRoll(a, r, c) && !IsRoll(b, r, c)) ==> RollCount(b) < RollCount(a)
  {
    if a != [] {
      var n := |a| - 1;
      assert RollsWithin(b[..n], a[..n]) by {
        forall r, c | IsRoll(b[..n], r, c) ensures IsRoll(a[..n], r, c) {
          assert IsRoll(b, r, c);
        }
      }
      RollCountWithin(a[..n], b[..n]);
      forall c | 0 <= c < |b[n]| && b[n][c] == '@' ensures a[n][c] == '@' {
        assert IsRoll(b, n, c);
      }
      RowRollsWithin(a[n], b[n]);
      if exists r, c :: IsRoll(a, r, c) && !IsRoll(b, r, c) {
        var r, c :| IsRoll(a, r, c) && !IsRoll(b, r, c);
        if r < n {
          assert IsRoll(a[..n], r, c) && !IsRoll(b[..n], r, c);
        } else {
          assert a[n][c] == '@' && b[n][c] != '@';
        }
      }
    }
  }

  /** A round keeps the shape, only removes rolls, and removes one at least when one is accessible. */
  lemma ClearedFewer(g: Grid, rows: nat, cols: nat)
    ensures SameShape(Cleared(g, rows, cols), g) && RollsWithin(Cleared(g, rows, cols), g)
    ensures AccessibleSet(g, rows, cols) != {} ==> RollCount(Cleared(g, rows, cols)) < RollCount(g)
  {
    var h := Cleared(g, rows, cols);
    RollCountWithin(g, h);
    if AccessibleSet(g, rows, cols) != {} {
      var p :| p in AccessibleSet(g, rows, cols);
      assert IsRoll(g, p.0, p.1) && !IsRoll(h, p.0, p.1);
    }
  }

  /** Rounds of part 2 until no roll is accessible. */
  function Settle(g: Grid, rows: nat, cols: nat): Grid
    decreases RollCount(g)
  {
    if AccessibleSet(g, rows, cols) == {} then g
    else
      ClearedFewer(g, rows, cols);
      Settle(Cleared(g, rows, cols), rows, cols)
  }

  /** The settled grid keeps the shape, only loses rolls, and has no accessible roll. */
  lemma {:induction false} SettleStable(g: Grid, rows: nat, cols: nat)
    ensures SameShape(Settle(g, rows, cols), g) && RollsWithin(Settle(g, rows, cols), g)
    ensures Stable(Settle(g, rows, cols), rows, cols)
    decreases RollCount(g)
  {
    if AccessibleSet(g, rows, cols) == {} {
      forall r, c ensures !Accessible(g, r, c, rows, cols) {
        assert (r, c) !in AccessibleSet(g, rows, cols);
      }
    } else {
      ClearedFewer(g, rows, cols);
      SettleStable(Cleared(g, rows, cols), rows, cols);
    }
  }

  /** A roll has no more neighbouring rolls in a grid with fewer rolls. */
  lemma CountWithin(h: Grid, g: Grid, r: int, c: int, rows: int, cols: int)
    requires RollsWithin(h, g)
    ensures CountAdjacentRolls(h, r, c, rows, cols) <= CountAdjacentRolls(g, r, c, rows, cols)
  {
    CountIsNeighbourRolls(h, r, c, rows, cols);
    CountIsNeighbourRolls(g, r, c, rows, cols);
    SubsetCard(NeighbourRolls(h, r, c, rows, cols), NeighbourRolls(g, r, c, rows, cols));
  }

  /** A round never removes a roll of a stable grid that lies within `g`. */
  lemma StableWithinCleared(h: Grid, g: Grid, rows: nat, cols: nat)
    requires RollsWithin(h, g) && Stable(h, rows, cols)
    ensures RollsWithin(h, Cleared(g, rows, cols))
  {
    forall r, c | IsRoll(h, r, c) ensures IsRoll(Cleared(g, rows, cols), r, c) {
      CountWithin(h, g, r, c, rows, cols);
      assert !Accessible(h, r, c, rows, cols);
    }
  }

  /**
   * The settled grid is the largest stable grid within `g`: every grid whose
   * rolls lie within `g` and none of which is accessible keeps its rolls there.
   */
  lemma {:induction false} SettleGreatest(h: Grid, g: Grid, rows: nat, cols: nat)
    requires RollsWithin(h, g) && Stable(h, rows, cols)
    ensures RollsWithin(h, Settle(g, rows, cols))
    decreases RollCount(g)
  {
    if AccessibleSet(g, rows, cols) != {} {
      StableWithinCleared(h, g, rows, cols);
      ClearedFewer(g, rows, cols);
      SettleGreatest(h, Cleared(g, rows, cols), rows, cols);
    }
  }

  /** A grid that agrees cell by cell with a round of `g` is that round. */
  lemma ClearedEq(g: Grid, h: Grid, rows: nat, cols: nat)
    requires SameShape(h, g)
    requires forall r, c :: 0 <= r < |h| && 0 <= c < |h[r]| ==>
               h[r][c] == if Accessible(g, r, c, rows, cols) then '.' else g[r][c]
    ensures h == Cleared(g, rows, cols)
  {
    var k := Cleared(g, rows, cols);
    forall r | 0 <= r < |h| ensures h[r] == k[r] {
    }
  }

  /**
   * Part 2: remove every accessible roll at once, round after round, until a
   * round finds none. The final grid is the settled grid, and the number
   * removed is the initial roll count minus the settled one.
   */
  method Part2(grid0: Grid) returns (totalRemoved: nat, grid: Grid)
    requires |grid0| >= 1
    ensures grid == Settle(grid0, |grid0|, |grid0[0]|)
    ensures totalRemoved + RollCount(grid) == RollCount(grid0)
    ensures Stable(grid, |grid0|, |grid0[0]|) && RollsWithin(grid, grid0)
  {
    var rows, cols := |grid0|, |grid0[0]|;
    grid := grid0;
    totalRemoved := 0;
    while true
      invariant |grid| == rows
      invariant Settle(grid, rows, cols) == Settle(grid0, rows, cols)
      invariant totalRemoved + RollCount(grid) == RollCount(grid0)
      decreases RollCount(grid)
    {
      var accessible := FindAccessible(grid, rows, cols);
      if accessible == [] {
        assert AccessibleSet(grid, rows, cols) == {} by {
          forall p ensures p !in AccessibleSet(grid, rows, cols) {
            assert p !in accessible;
          }
        }
        SettleStable(grid0, rows, cols);
        return;
      }
      assert accessible[0] in AccessibleSet(grid, rows, cols) by {
        assert accessible[0] in accessible;
      }
      forall k | 0 <= k < |accessible| ensures IsRoll(grid, accessible[k].0, accessible[k].1) {
        assert accessible[k] in accessible;
      }
      totalRemoved := totalRemoved + |accessible|;
      var next := ClearCells(grid, accessible);
      ClearedEq(grid, next, rows, cols);
      grid := next;
    }
  }
}
