// Day 10, part 1 (day10/src/main.rs, solve_part1): a machine has indicator
// lights that start off and buttons that each toggle a list of lights; find the
// fewest presses that light exactly the target pattern. Pressing a button twice
// undoes it, so a press count is a bit per button and the puzzle is the linear
// system A x = b over GF(2): one row per light, one column per button.
module Day10Toggle {
  import opened Optional
  import opened GF2

  /** u64::MAX, the answer for a machine that cannot reach its target. */
  const NoSolution: nat := 0xFFFF_FFFF_FFFF_FFFF

  /** Light l after pressing, once each, the buttons b < k that x marks. */
  function Toggled(buttons: seq<seq<nat>>, x: seq<bool>, l: nat, k: nat): bool
    requires k <= |buttons| && k <= |x|
  {
    if k == 0 then false else Toggled(buttons, x, l, k - 1) != (x[k - 1] && l in buttons[k - 1])
  }

  /** Pressing the buttons marked in x turns the all-off panel into `target`. */
  predicate Works(target: seq<bool>, buttons: seq<seq<nat>>, x: seq<bool>) {
    |x| == |buttons| && forall l :: 0 <= l < |target| ==> Toggled(buttons, x, l, |buttons|) == target[l]
  }

  ghost predicate Solvable(target: seq<bool>, buttons: seq<seq<nat>>) {
    exists x :: Works(target, buttons, x)
  }

  /** The number of presses: the ones in x. */
  function Weight(x: seq<bool>): (w: nat)
    ensures w <= |x|
  {
    if x == [] then 0 else Weight(x[..|x| - 1]) + (if x[|x| - 1] then 1 else 0)
  }

  // ---------------------------------------------------------------------------
  // The augmented matrix [A | b]

  /** The loops at lines 107-120: A[l][b] is set when button b lists light l
      (indices past the last light are skipped), and b[l] is the target. */
  method BuildMatrix(target: seq<bool>, buttons: seq<seq<nat>>) returns (M: seq<seq<bool>>)
    ensures |M| == |target| && Rect(M, |buttons| + 1)
    ensures forall l, b :: 0 <= l < |target| && 0 <= b < |buttons| ==> M[l][b] == (l in buttons[b])
    ensures forall l :: 0 <= l < |target| ==> M[l][|buttons|] == target[l]
  {
    var nl, nb := |target|, |buttons|;
    M := seq(nl, _ => seq(nb + 1, _ => false));
    for b := 0 to nb
      invariant |M| == nl && Rect(M, nb + 1)
      invariant forall l, b' :: 0 <= l < nl && 0 <= b' < b ==> M[l][b'] == (l in buttons[b'])
      invariant forall l, b' :: 0 <= l < nl && b <= b' <= nb ==> !M[l][b']
    {
      var btn := buttons[b];
      for j := 0 to |btn|
        invariant |M| == nl && Rect(M, nb + 1)
        invariant forall l, b' :: 0 <= l < nl && 0 <= b' < b ==> M[l][b'] == (l in buttons[b'])
        invariant forall l :: 0 <= l < nl ==> M[l][b] == (l in btn[..j])
        invariant forall l, b' :: 0 <= l < nl && b < b' <= nb ==> !M[l][b']
      {
        var l := btn[j];
        assert btn[..j + 1] == btn[..j] + [l];
        if l < nl {
          M := M[l := M[l][b := true]];
        }
      }
      assert btn[..|btn|] == btn;
    }
    for i := 0 to nl
      invariant |M| == nl && Rect(M, nb + 1)
      invariant forall l, b :: 0 <= l < nl && 0 <= b < nb ==> M[l][b] == (l in buttons[b])
      invariant forall l :: 0 <= l < i ==> M[l][nb] == target[l]
    {
      M := M[i := M[i][nb := target[i]]];
    }
  }

  /** Row l of the matrix computes light l. */
  lemma {:induction false} RowToggles(row: seq<bool>, buttons: seq<seq<nat>>, x: seq<bool>, l: nat, k: nat)
    requires k <= |buttons| && |row| == |buttons| + 1 && |x| == |buttons|
    requires forall b :: 0 <= b < |buttons| ==> row[b] == (l in buttons[b])
    ensures DotRange(row, x, 0, k) == Toggled(buttons, x, l, k)
  {
    if k > 0 {
      RowToggles(row, buttons, x, l, k - 1);
    }
  }

  /** The matrix's solutions are exactly the press patterns that reach the target. */
  lemma MatrixSolutions(M: seq<seq<bool>>, target: seq<bool>, buttons: seq<seq<nat>>)
    requires |M| == |target| && Rect(M, |buttons| + 1)
    requires forall l, b :: 0 <= l < |target| && 0 <= b < |buttons| ==> M[l][b] == (l in buttons[b])
    requires forall l :: 0 <= l < |target| ==> M[l][|buttons|] == target[l]
    ensures forall x :: |x| == |buttons| ==> (Solves(M, x, |buttons|) <==> Works(target, buttons, x))
  {
    forall x, l | |x| == |buttons| && 0 <= l < |target|
      ensures Satisfies(M[l], x, |buttons|) <==> Toggled(buttons, x, l, |buttons|) == target[l]
    {
      RowToggles(M[l], buttons, x, l, |buttons|);
    }
  }

  // ---------------------------------------------------------------------------
  // Gaussian elimination

  /** Reduced row echelon form over the columns before `col`. Pivot k sits in
      row k; the rows below the pivots are zero before `col`; a pivot row is
      zero before its pivot; and a pivot column is zero except at its pivot. */
  ghost predicate Echelon(M: seq<seq<bool>>, n: nat, col: nat, pivots: seq<nat>)
    requires Rect(M, n + 1)
  {
    && col <= n && |pivots| <= |M|
    && (forall k :: 0 <= k < |pivots| ==> pivots[k] < col)
    && (forall r, c :: |pivots| <= r < |M| && 0 <= c < col ==> !M[r][c])
    && (forall k, c :: 0 <= k < |pivots| && 0 <= c < pivots[k] ==> !M[k][c])
    && (forall k, r :: 0 <= k < |pivots| && 0 <= r < |M| ==> M[r][pivots[k]] == (r == k))
  }

  /** The search at lines 128-134: the first row from `row` on with a one in `col`. */
  method FindPivot(M: seq<seq<bool>>, n: nat, row: nat, col: nat) returns (pivot: Option<nat>)
    requires Rect(M, n + 1) && row <= |M| && col < n
    ensures pivot.None? ==> forall r :: row <= r < |M| ==> !M[r][col]
    ensures pivot.Some? ==> row <= pivot.value < |M| && M[pivot.value][col]
    ensures pivot.Some? ==> forall r :: row <= r < pivot.value ==> !M[r][col]
  {
    for r := row to |M|
      invariant forall r' :: row <= r' < r ==> !M[r'][col]
    {
      if M[r][col] {
        return Some(r);
      }
    }
    return None;
  }

  /** Swapping two rows below the pivots keeps the echelon form. */
  lemma SwapEchelon(M: seq<seq<bool>>, n: nat, col: nat, pivots: seq<nat>, pr: nat)
    requires Rect(M, n + 1) && Echelon(M, n, col, pivots)
    requires |pivots| <= pr < |M| && |pivots| < |M|
    ensures Rect(Swap(M, |pivots|, pr), n + 1) && Echelon(Swap(M, |pivots|, pr), n, col, pivots)
  {
  }

  /** The loop at lines 143-145: row r ^= the pivot row, entry by entry. */
  method XorInto(target: seq<bool>, pivot: seq<bool>) returns (r: seq<bool>)
    requires |target| == |pivot|
    ensures r == XorRows(target, pivot)
  {
    r := target;
    for c := 0 to |target|
      invariant |r| == |target|
      invariant forall c' :: 0 <= c' < c ==> r[c'] == (target[c'] != pivot[c'])
      invariant forall c' :: c <= c' < |target| ==> r[c'] == target[c']
    {
      r := r[c := r[c] != pivot[c]];
    }
  }

  /** Lines 141-147: clear column `col` in every row but the pivot row. */
  method EliminateColumn(M0: seq<seq<bool>>, n: nat, col: nat, pivots: seq<nat>) returns (M: seq<seq<bool>>)
    requires Rect(M0, n + 1) && col < n && Echelon(M0, n, col, pivots)
    requires |pivots| < |M0| && M0[|pivots|][col]
    ensures Rect(M, n + 1) && |M| == |M0|
    ensures forall x :: |x| == n ==> (Solves(M, x, n) <==> Solves(M0, x, n))
    ensures Echelon(M, n, col + 1, pivots + [col])
  {
    var row := |pivots|;
    M := M0;
    for r := 0 to |M0|
      invariant Rect(M, n + 1) && |M| == |M0|
      invariant forall x :: |x| == n ==> (Solves(M, x, n) <==> Solves(M0, x, n))
      invariant M[row] == M0[row]
      invariant forall r', c :: 0 <= r' < |M| && 0 <= c < col ==> M[r'][c] == M0[r'][c]
      invariant forall r' :: 0 <= r' < r ==> M[r'][col] == (r' == row)
    {
      if r != row && M[r][col] {
        XorSame(M, r, row, n);
        var cleared := XorInto(M[r], M[row]);
        M := M[r := cleared];
      }
    }
    var P := pivots + [col];
    assert forall k :: 0 <= k < |pivots| ==> P[k] == pivots[k];
  }

  /** The elimination loop at lines 123-150. */
  method Eliminate(M0: seq<seq<bool>>, n: nat) returns (M: seq<seq<bool>>, pivots: seq<nat>)
    requires Rect(M0, n + 1)
    ensures Rect(M, n + 1) && |M| == |M0|
    ensures SameSolutions(M, M0, n)
    ensures Echelon(M, n, n, pivots)
  {
    M, pivots := M0, [];
    var row := 0;
    for col := 0 to n
      invariant Rect(M, n + 1) && |M| == |M0| && row == |pivots|
      invariant SameSolutions(M, M0, n)
      invariant Echelon(M, n, col, pivots)
    {
      var pivotRow := FindPivot(M, n, row, col);
      if pivotRow.Some? {
        var pr := pivotRow.value;
        SwapSame(M, row, pr, n);
        SwapEchelon(M, n, col, pivots, pr);
        var S := Swap(M, row, pr);
        var E := EliminateColumn(S, n, col, pivots);
        M, pivots := E, pivots + [col];
        row := row + 1;
      }
    }
  }

  /** With the matrix in echelon form, pivot row k fixes its pivot variable
      from the variables after it. */
  lemma PivotEquation(M: seq<seq<bool>>, n: nat, pivots: seq<nat>, k: nat, x: seq<bool>)
    requires Rect(M, n + 1) && Echelon(M, n, n, pivots) && k < |pivots| && |x| == n
    ensures Satisfies(M[k], x, n) <==> x[pivots[k]] == (M[k][n] != DotRange(M[k], x, pivots[k] + 1, n))
  {
    var p := pivots[k];
    DotRangeSplit(M[k], x, 0, p, n);
    DotRangeSplit(M[k], x, p, p + 1, n);
    DotRangeZero(M[k], x, 0, p);
  }

  /** A row below the pivots has no coefficients left. */
  lemma ZeroRow(M: seq<seq<bool>>, n: nat, pivots: seq<nat>, r: nat, x: seq<bool>)
    requires Rect(M, n + 1) && Echelon(M, n, n, pivots) && |pivots| <= r < |M| && |x| == n
    ensures Satisfies(M[r], x, n) <==> !M[r][n]
  {
    DotRangeZero(M[r], x, 0, n);
  }

  /** No row below the pivots asks for a one. */
  predicate Consistent(M: seq<seq<bool>>, n: nat, rank: nat)
    requires Rect(M, n + 1)
  {
    forall r :: rank <= r < |M| ==> !M[r][n]
  }

  /** Lines 153-157: an inconsistent row rules out every solution. */
  lemma InconsistentUnsolvable(M: seq<seq<bool>>, n: nat, pivots: seq<nat>, r: nat)
    requires Rect(M, n + 1) && Echelon(M, n, n, pivots) && |pivots| <= r < |M| && M[r][n]
    ensures forall x :: |x| == n ==> !Solves(M, x, n)
  {
    ContradictoryRow(M, r, n);
  }

  // ---------------------------------------------------------------------------
  // Free variables and their enumeration

  /** Lines 160-162: the columns that carry no pivot, in increasing order. */
  function FreeColumns(pivots: seq<nat>, n: nat): (free: seq<nat>)
    ensures forall c :: c in free <==> 0 <= c < n && c !in pivots
    ensures forall i :: 0 <= i < |free| ==> free[i] < n
    ensures forall i, j :: 0 <= i < j < |free| ==> free[i] < free[j]
  {
    if n == 0 then []
    else
      var earlier := FreeColumns(pivots, n - 1);
      if n - 1 in pivots then earlier else earlier + [n - 1]
  }

  function Pow2(k: nat): (p: nat)
    ensures p >= 1
  {
    if k == 0 then 1 else 2 * Pow2(k - 1)
  }

  /** mask >> i */
  function Shr(mask: nat, i: nat): nat {
    if i == 0 then mask else Shr(mask / 2, i - 1)
  }

  /** (mask >> i) & 1, as a bit. */
  function Bit(mask: nat, i: nat): bool {
    Shr(mask, i) % 2 == 1
  }

  /** The mask whose bit i is x's value at the i-th free column. */
  function Encode(x: seq<bool>, free: seq<nat>): nat
    requires forall i :: 0 <= i < |free| ==> free[i] < |x|
  {
    if free == [] then 0 else (if x[free[0]] then 1 else 0) + 2 * Encode(x, free[1..])
  }

  /** Every assignment of the free columns is one of the masks 0 .. 2^|free| - 1. */
  lemma {:induction false} EncodeBound(x: seq<bool>, free: seq<nat>)
    requires forall i :: 0 <= i < |free| ==> free[i] < |x|
    ensures Encode(x, free) < Pow2(|free|)
  {
    if free != [] {
      EncodeBound(x, free[1..]);
    }
  }

  /** ... and that mask's bits read the assignment back. */
  lemma {:induction false} EncodeBits(x: seq<bool>, free: seq<nat>, i: nat)
    requires forall j :: 0 <= j < |free| ==> free[j] < |x|
    requires i < |free|
    ensures Bit(Encode(x, free), i) == x[free[i]]
  {
    var e := Encode(x, free);
    if i > 0 {
      assert e / 2 == Encode(x, free[1..]);
      EncodeBits(x, free[1..], i - 1);
    }
  }

  /** Two solutions of a consistent echelon system that agree on the free
      columns are equal: the pivot variables are determined. */
  lemma FreeDetermines(M: seq<seq<bool>>, n: nat, pivots: seq<nat>, x: seq<bool>, y: seq<bool>)
    requires Rect(M, n + 1) && Echelon(M, n, n, pivots) && |x| == n && |y| == n
    requires Solves(M, x, n) && Solves(M, y, n)
    requires forall c :: c in FreeColumns(pivots, n) ==> x[c] == y[c]
    ensures x == y
  {
    var free := FreeColumns(pivots, n);
    forall c | 0 <= c < n ensures x[c] == y[c] {
      if c !in free {
        var k :| 0 <= k < |pivots| && pivots[k] == c;
        forall c' | c + 1 <= c' < n && M[k][c'] ensures x[c'] == y[c'] {
          assert c' !in pivots;
        }
        DotRangeAgree(M[k], x, y, c + 1, n);
        PivotEquation(M, n, pivots, k, x);
        PivotEquation(M, n, pivots, k, y);
      }
    }
  }

  /** The inner loop at lines 179-182: val ^= A[r][c] * x[c] over lo <= c < n. */
  method RowValue(row: seq<bool>, x: seq<bool>, lo: nat, n: nat) returns (val: bool)
    requires |row| == n + 1 && |x| == n && lo <= n
    ensures val == (row[n] != DotRange(row, x, lo, n))
  {
    val := row[n];
    for c := lo to n
      invariant val == (row[n] != DotRange(row, x, lo, c))
    {
      val := val != (row[c] && x[c]);
    }
  }

  /** One candidate of lines 170-184: the free columns take the bits of
      `mask`, then back-substitution fills in the pivot columns, last first. */
  method BackSubstitute(M: seq<seq<bool>>, n: nat, pivots: seq<nat>, free: seq<nat>, mask: nat)
    returns (sol: seq<bool>)
    requires Rect(M, n + 1) && Echelon(M, n, n, pivots) && Consistent(M, n, |pivots|)
    requires free == FreeColumns(pivots, n)
    ensures |sol| == n && Solves(M, sol, n)
    ensures forall i :: 0 <= i < |free| ==> sol[free[i]] == Bit(mask, i)
  {
    sol := seq(n, _ => false);
    for i := 0 to |free|
      invariant |sol| == n
      invariant forall j :: 0 <= j < i ==> sol[free[j]] == Bit(mask, j)
    {
      sol := sol[free[i] := Bit(mask, i)];
    }
    var k := |pivots|;
    while k > 0
      invariant 0 <= k <= |pivots| && |sol| == n
      invariant forall j :: 0 <= j < |free| ==> sol[free[j]] == Bit(mask, j)
      invariant forall j :: k <= j < |pivots| ==> Satisfies(M[j], sol, n)
    {
      k := k - 1;
      var pc := pivots[k];
      assert pc !in free;
      var val := RowValue(M[k], sol, pc + 1, n);
      var next := sol[pc := val];
      forall j | k < j < |pivots| ensures Satisfies(M[j], next, n) {
        DotRangeAgree(M[j], sol, next, 0, n);
      }
      DotRangeAgree(M[k], sol, next, pc + 1, n);
      PivotEquation(M, n, pivots, k, next);
      sol := next;
    }
    forall r | 0 <= r < |M| ensures Satisfies(M[r], sol, n) {
      if r >= |pivots| {
        ZeroRow(M, n, pivots, r, sol);
      }
    }
  }

  /** The loop at lines 167-188: the least weight over all candidates. */
  method MinPresses(M: seq<seq<bool>>, n: nat, pivots: seq<nat>) returns (least: nat)
    requires Rect(M, n + 1) && Echelon(M, n, n, pivots) && Consistent(M, n, |pivots|)
    ensures forall x :: |x| == n && Solves(M, x, n) ==> least <= Weight(x)
    ensures exists x :: |x| == n && Solves(M, x, n)
    ensures n < NoSolution ==> exists x :: |x| == n && Solves(M, x, n) && Weight(x) == least
  {
    var free := FreeColumns(pivots, n);
    least := NoSolution;
    var top := Pow2(|free|);
    var mask := 0;
    while mask < top
      invariant mask <= top
      invariant forall x :: |x| == n && Solves(M, x, n) && Encode(x, free) < mask ==> least <= Weight(x)
      invariant least == NoSolution || exists x :: |x| == n && Solves(M, x, n) && Weight(x) == least
      invariant mask > 0 && n < NoSolution ==> least < NoSolution
      invariant mask > 0 ==> exists x :: |x| == n && Solves(M, x, n)
    {
      var sol := BackSubstitute(M, n, pivots, free, mask);
      var presses := Weight(sol);
      forall x | |x| == n && Solves(M, x, n) && Encode(x, free) == mask ensures x == sol {
        forall c | c in free ensures x[c] == sol[c] {
          var i :| 0 <= i < |free| && free[i] == c;
          EncodeBits(x, free, i);
        }
        FreeDetermines(M, n, pivots, x, sol);
      }
      if presses < least {
        least := presses;
      }
      mask := mask + 1;
    }
    forall x | |x| == n && Solves(M, x, n) ensures least <= Weight(x) {
      EncodeBound(x, free);
    }
  }

  /** solve_part1 (lines 97-191): the fewest presses that light exactly the
      target, or u64::MAX when no combination of presses does. */
  method SolvePart1(target: seq<bool>, buttons: seq<seq<nat>>) returns (presses: nat)
    ensures !Solvable(target, buttons) ==> presses == NoSolution
    ensures forall x :: Works(target, buttons, x) ==> presses <= Weight(x)
    ensures Solvable(target, buttons) && |buttons| < NoSolution ==>
              exists x :: Works(target, buttons, x) && Weight(x) == presses
  {
    var nl, nb := |target|, |buttons|;
    if nb == 0 {
      assert forall x :: Works(target, buttons, x) ==> x == [];
      if forall l :: 0 <= l < nl ==> !target[l] {
        assert Works(target, buttons, []);
        return 0;
      }
      return NoSolution;
    }
    var M0 := BuildMatrix(target, buttons);
    MatrixSolutions(M0, target, buttons);
    var M, pivots := Eliminate(M0, nb);
    for r := |pivots| to nl
      invariant forall r' :: |pivots| <= r' < r ==> !M[r'][nb]
    {
      if M[r][nb] {
        InconsistentUnsolvable(M, nb, pivots, r);
        return NoSolution;
      }
    }
    presses := MinPresses(M, nb, pivots);
    ghost var x :| |x| == nb && Solves(M, x, nb);
    assert Works(target, buttons, x);
  }
}
