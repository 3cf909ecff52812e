// Day 7, part 1 (day7/solution.kts): a beam enters below the 'S' of the top
// row and moves down one row at a time. On '.' or 'S' it goes straight on; on
// a splitter '^' it is counted and continues in the columns left and right
// (those inside the grid); any other character absorbs it. Beams in the same
// column merge. The answer is the number of splits.
module Day7Beams {
  import opened Sums

  type Grid = seq<string>

  /** At least one row, and no row shorter than the first, whose length is the width. */
  predicate WellShaped(grid: Grid) {
    |grid| >= 1 && forall r :: 0 <= r < |grid| ==> |grid[r]| >= |grid[0]|
  }

  function Width(grid: Grid): nat
    requires |grid| >= 1
  {
    |grid[0]|
  }

  predicate InWidth(cols: set<int>, width: nat) {
    forall c :: c in cols ==> 0 <= c < width
  }

  /** The first column holding 'S', or -1. */
  function StartCol(row: string): (c: int)
    ensures -1 <= c
    ensures c == -1 <==> 'S' !in row
    ensures c >= 0 ==> c < |row| && row[c] == 'S' && 'S' !in row[..c]
  {
    if row == [] then -1
    else if row[0] == 'S' then 0
    else
      var c := StartCol(row[1..]);
      assert row == [row[0]] + row[1..];
      if c == -1 then -1
      else
        assert row[..c + 1] == [row[0]] + row[1..][..c];
        c + 1
  }

  /** The search loop for 'S' in the top row. */
  method FindStart(row: string) returns (startCol: int)
    ensures startCol == StartCol(row)
  {
    startCol := -1;
    for col := 0 to |row|
      invariant startCol == -1
      invariant 'S' !in row[..col]
    {
      if row[col] == 'S' {
        startCol := col;
        break;
      }
      assert row[..col + 1] == row[..col] + [row[col]];
    }
    if startCol == -1 {
      assert row[..|row|] == row;
    }
  }

  /** The columns a beam in column c continues into after row `row`. */
  function Successors(grid: Grid, row: nat, c: int): (next: set<int>)
    requires WellShaped(grid) && row < |grid| && 0 <= c < Width(grid)
    ensures InWidth(next, Width(grid))
    ensures forall d :: d in next ==> c - 1 <= d <= c + 1
  {
    var width := Width(grid);
    if grid[row][c] == '^' then
      (if c - 1 >= 0 then {c - 1} else {}) + (if c + 1 < width then {c + 1} else {})
    else if grid[row][c] == '.' || grid[row][c] == 'S' then {c}
    else {}
  }

  lemma SuccessorsCases(grid: Grid, row: nat, c: int)
    requires WellShaped(grid) && row < |grid| && 0 <= c < Width(grid)
    ensures grid[row][c] == '^' ==>
              Successors(grid, row, c) == (if c - 1 >= 0 then {c - 1} else {}) + (if c + 1 < Width(grid) then {c + 1} else {})
    ensures (grid[row][c] == '.' || grid[row][c] == 'S') ==> Successors(grid, row, c) == {c}
    ensures grid[row][c] !in "^.S" ==> Successors(grid, row, c) == {}
  {
  }

  /** The beams below row `row`: every successor of every beam, each column once. */
  function NextBeams(grid: Grid, row: nat, beams: set<int>): (next: set<int>)
    requires WellShaped(grid) && row < |grid| && InWidth(beams, Width(grid))
    ensures InWidth(next, Width(grid))
  {
    set c, d | c in beams && d in Successors(grid, row, c) :: d
  }

  /** The beams that hit a splitter in row `row`. */
  function SplitColumns(grid: Grid, row: nat, beams: set<int>): set<int>
    requires WellShaped(grid) && row < |grid| && InWidth(beams, Width(grid))
  {
    set c | c in beams && grid[row][c] == '^'
  }

  lemma NextBeamsAdd(grid: Grid, row: nat, done: set<int>, c: int)
    requires WellShaped(grid) && row < |grid| && InWidth(done, Width(grid)) && 0 <= c < Width(grid)
    ensures NextBeams(grid, row, done + {c}) == NextBeams(grid, row, done) + Successors(grid, row, c)
  {
  }

  lemma SplitColumnsAdd(grid: Grid, row: nat, done: set<int>, c: int)
    requires WellShaped(grid) && row < |grid| && InWidth(done, Width(grid)) && 0 <= c < Width(grid) && c !in done
    ensures |SplitColumns(grid, row, done + {c})| == |SplitColumns(grid, row, done)| + (if grid[row][c] == '^' then 1 else 0)
  {
    if grid[row][c] == '^' {
      assert SplitColumns(grid, row, done + {c}) == SplitColumns(grid, row, done) + {c};
    } else {
      assert SplitColumns(grid, row, done + {c}) == SplitColumns(grid, row, done);
    }
  }

  /** A Kotlin `LinkedHashSet` is a sequence without repeats, in insertion order. */
  predicate Distinct(s: seq<int>) {
    forall i, j :: 0 <= i < j < |s| ==> s[i] != s[j]
  }

  function Elems(s: seq<int>): set<int> {
    set x | x in s
  }

  lemma ElemsSnoc(s: seq<int>, i: nat)
    requires i < |s|
    ensures Elems(s[..i + 1]) == Elems(s[..i]) + {s[i]}
    ensures Elems(s[..i]) <= Elems(s)
  {
    assert s[..i + 1] == s[..i] + [s[i]];
  }

  /** `add` on the set: a column already present is not added again. */
  function Add(s: seq<int>, x: int): (r: seq<int>)
    ensures Distinct(s) ==> Distinct(r)
    ensures Elems(r) == Elems(s) + {x}
  {
    if x in s then s else s + [x]
  }

  /** Taking one more active column into account. */
  lemma PrefixStep(grid: Grid, row: nat, beams: seq<int>, i: nat)
    requires WellShaped(grid) && row < |grid| && InWidth(Elems(beams), Width(grid)) && Distinct(beams)
    requires i < |beams|
    ensures Elems(beams[..i]) <= Elems(beams[..i + 1]) <= Elems(beams)
    ensures 0 <= beams[i] < Width(grid)
    ensures NextBeams(grid, row, Elems(beams[..i + 1])) == NextBeams(grid, row, Elems(beams[..i])) + Successors(grid, row, beams[i])
    ensures |SplitColumns(grid, row, Elems(beams[..i + 1]))|
            == |SplitColumns(grid, row, Elems(beams[..i]))| + (if grid[row][beams[i]] == '^' then 1 else 0)
  {
    ElemsSnoc(beams, i);
    ElemsSnoc(beams, i + 1 - 1);
    assert beams[i] in Elems(beams);
    assert beams[i] !in Elems(beams[..i]);
    assert beams[..i + 1] == beams[..i] + [beams[i]];
    NextBeamsAdd(grid, row, Elems(beams[..i]), beams[i]);
    SplitColumnsAdd(grid, row, Elems(beams[..i]), beams[i]);
  }

  /** A splitter's two `add` calls: the neighbouring columns that lie in [0, width). */
  method AddNeighbours(beams: seq<int>, col: int, width: nat) returns (r: seq<int>)
    requires Distinct(beams)
    ensures Distinct(r)
    ensures Elems(r) == Elems(beams) + (if col - 1 >= 0 then {col - 1} else {}) + (if col + 1 < width then {col + 1} else {})
  {
    r := beams;
    if col - 1 >= 0 {
      r := Add(r, col - 1);
    }
    if col + 1 < width {
      r := Add(r, col + 1);
    }
  }

  /** The `when` on one active column: where its beam goes, and whether it was split. */
  method Visit(grid: Grid, row: nat, newBeams: seq<int>, col: int) returns (r: seq<int>, split: bool)
    requires WellShaped(grid) && row < |grid| && 0 <= col < Width(grid) && Distinct(newBeams)
    ensures Distinct(r)
    ensures Elems(r) == Elems(newBeams) + Successors(grid, row, col)
    ensures split <==> grid[row][col] == '^'
  {
    SuccessorsCases(grid, row, col);
    r, split := newBeams, false;
    var ch := grid[row][col];
    if ch == '^' {
      split := true;
      r := AddNeighbours(newBeams, col, |grid[0]|);
    } else if ch == '.' || ch == 'S' {
      r := Add(newBeams, col);
    }
  }

  /** One row of `solve`: each active column once, in insertion order. */
  method RowStep(grid: Grid, row: nat, beams: seq<int>) returns (newBeams: seq<int>, splits: nat)
    requires WellShaped(grid) && row < |grid| && InWidth(Elems(beams), Width(grid)) && Distinct(beams)
    ensures Distinct(newBeams)
    ensures Elems(newBeams) == NextBeams(grid, row, Elems(beams))
    ensures splits == |SplitColumns(grid, row, Elems(beams))|
  {
    var width := |grid[0]|;
    newBeams, splits := [], 0;
    for i := 0 to |beams|
      invariant Elems(beams[..i]) <= Elems(beams)
      invariant Distinct(newBeams)
      invariant Elems(newBeams) == NextBeams(grid, row, Elems(beams[..i]))
      invariant splits == |SplitColumns(grid, row, Elems(beams[..i]))|
    {
      var col := beams[i];
      PrefixStep(grid, row, beams, i);
      var split: bool;
      newBeams, split := Visit(grid, row, newBeams, col);
      if split {
        splits := splits + 1;
      }
    }
    assert beams[..|beams|] == beams;
  }

  /** The beams entering row k (1 <= k <= height), starting from the start column alone. */
  function BeamsBefore(grid: Grid, start: int, k: nat): (beams: set<int>)
    requires WellShaped(grid) && 0 <= start < Width(grid) && 1 <= k <= |grid|
    ensures InWidth(beams, Width(grid))
  {
    if k == 1 then {start} else NextBeams(grid, k - 1, BeamsBefore(grid, start, k - 1))
  }

  /** The splits counted in rows 1 .. k-1. */
  function SplitsBefore(grid: Grid, start: int, k: nat): nat
    requires WellShaped(grid) && 0 <= start < Width(grid) && 1 <= k <= |grid|
  {
    if k == 1 then 0
    else SplitsBefore(grid, start, k - 1) + |SplitColumns(grid, k - 1, BeamsBefore(grid, start, k - 1))|
  }

  /** Once no beam is left nothing changes, so stopping early is the same as going on. */
  lemma {:induction false} NoBeamsStay(grid: Grid, start: int, k: nat, m: nat)
    requires WellShaped(grid) && 0 <= start < Width(grid) && 1 <= k <= m <= |grid|
    requires BeamsBefore(grid, start, k) == {}
    ensures BeamsBefore(grid, start, m) == {}
    ensures SplitsBefore(grid, start, m) == SplitsBefore(grid, start, k)
    decreases m - k
  {
    if k < m {
      assert NextBeams(grid, k, {}) == {};
      assert SplitColumns(grid, k, {}) == {};
      NoBeamsStay(grid, start, k + 1, m);
    }
  }

  /** `solve`: the total number of splits over all rows. */
  method Solve(grid: Grid) returns (totalSplits: nat)
    requires WellShaped(grid) && 'S' in grid[0]
    ensures totalSplits == SplitsBefore(grid, StartCol(grid[0]), |grid|)
  {
    var height := |grid|;
    var startCol := FindStart(grid[0]);
    var activeBeams := [startCol];
    totalSplits := 0;
    for row := 1 to height
      invariant Distinct(activeBeams)
      invariant Elems(activeBeams) == BeamsBefore(grid, startCol, row)
      invariant totalSplits == SplitsBefore(grid, startCol, row)
    {
      if activeBeams == [] {
        NoBeamsStay(grid, startCol, row, height);
        return;
      }
      var newBeams, splits := RowStep(grid, row, activeBeams);
      totalSplits := totalSplits + splits;
      activeBeams := newBeams;
    }
  }

  /** A splitter sends a beam into both neighbouring columns that lie in the grid, and no further. */
  lemma SplitterSuccessors(grid: Grid, row: nat, c: int)
    requires WellShaped(grid) && row < |grid| && 0 <= c < Width(grid) && grid[row][c] == '^'
    ensures forall d :: d in Successors(grid, row, c) <==> (d == c - 1 || d == c + 1) && 0 <= d < Width(grid)
  {
  }

  /** At most one more beam per splitter hit: the beam count grows by no more than the splits. */
  lemma {:induction false} BeamGrowth(grid: Grid, row: nat, beams: seq<int>)
    requires WellShaped(grid) && row < |grid| && InWidth(Elems(beams), Width(grid)) && Distinct(beams)
    ensures |NextBeams(grid, row, Elems(beams))| <= |beams| + |SplitColumns(grid, row, Elems(beams))|
    decreases |beams|
  {
    if beams != [] {
      var n := |beams| - 1;
      var c, rest := beams[n], beams[..n];
      ElemsSnoc(beams, n);
      assert beams[..n + 1] == beams;
      BeamGrowth(grid, row, rest);
      NextBeamsAdd(grid, row, Elems(rest), c);
      SplitColumnsAdd(grid, row, Elems(rest), c);
      var succ := Successors(grid, row, c);
      SuccessorsCount(grid, row, c);
      UnionCard(NextBeams(grid, row, Elems(rest)), succ);
    }
  }

  /** A splitter yields at most two beams, any other cell at most one. */
  lemma SuccessorsCount(grid: Grid, row: nat, c: int)
    requires WellShaped(grid) && row < |grid| && 0 <= c < Width(grid)
    ensures |Successors(grid, row, c)| <= if grid[row][c] == '^' then 2 else 1
  {
    var succ := Successors(grid, row, c);
    if grid[row][c] == '^' {
      SubsetCard(succ, {c - 1, c + 1});
    } else {
      SubsetCard(succ, {c});
    }
  }

  lemma UnionCard(a: set<int>, b: set<int>)
    ensures |a + b| <= |a| + |b|
  {
    assert a + b == a + (b - a);
    SubsetCard(b - a, b);
  }
}
