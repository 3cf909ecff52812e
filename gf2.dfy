// Linear algebra over GF(2) for day10/src/main.rs: an augmented matrix
// [A | b] is a list of rows of n + 1 bits, a candidate solution x is a list of
// n bits, and row r holds when the XOR over c of A[r][c] AND x[c] equals b[r].
// The row operations of Gaussian elimination keep the solution set.
module GF2 {

  /** XOR over lo <= c < hi of row[c] AND x[c]. */
  function DotRange(row: seq<bool>, x: seq<bool>, lo: nat, hi: nat): bool
    requires lo <= hi <= |row| && hi <= |x|
    decreases hi - lo
  {
    if lo == hi then false else DotRange(row, x, lo, hi - 1) != (row[hi - 1] && x[hi - 1])
  }

  lemma {:induction false} DotRangeSplit(row: seq<bool>, x: seq<bool>, lo: nat, mid: nat, hi: nat)
    requires lo <= mid <= hi <= |row| && hi <= |x|
    ensures DotRange(row, x, lo, hi) == (DotRange(row, x, lo, mid) != DotRange(row, x, mid, hi))
    decreases hi - mid
  {
    if mid < hi {
      DotRangeSplit(row, x, lo, mid, hi - 1);
    }
  }

  /** A stretch of zero coefficients contributes nothing. */
  lemma {:induction false} DotRangeZero(row: seq<bool>, x: seq<bool>, lo: nat, hi: nat)
    requires lo <= hi <= |row| && hi <= |x|
    requires forall c :: lo <= c < hi ==> !row[c]
    ensures !DotRange(row, x, lo, hi)
    decreases hi - lo
  {
    if lo < hi {
      DotRangeZero(row, x, lo, hi - 1);
    }
  }

  /** Only the entries of x where the row has a one matter. */
  lemma {:induction false} DotRangeAgree(row: seq<bool>, x: seq<bool>, y: seq<bool>, lo: nat, hi: nat)
    requires lo <= hi <= |row| && hi <= |x| && hi <= |y|
    requires forall c :: lo <= c < hi && row[c] ==> x[c] == y[c]
    ensures DotRange(row, x, lo, hi) == DotRange(row, y, lo, hi)
    decreases hi - lo
  {
    if lo < hi {
      DotRangeAgree(row, x, y, lo, hi - 1);
    }
  }

  /** Row r ^= row p, entry by entry. */
  function XorRows(a: seq<bool>, b: seq<bool>): (r: seq<bool>)
    requires |a| == |b|
    ensures |r| == |a|
  {
    seq(|a|, c requires 0 <= c < |a| => a[c] != b[c])
  }

  /** The dot product is linear: XOR-ing two rows XORs their products. */
  lemma {:induction false} DotRangeXor(a: seq<bool>, b: seq<bool>, x: seq<bool>, lo: nat, hi: nat)
    requires |a| == |b| && lo <= hi <= |a| && hi <= |x|
    ensures DotRange(XorRows(a, b), x, lo, hi) == (DotRange(a, x, lo, hi) != DotRange(b, x, lo, hi))
    decreases hi - lo
  {
    if lo < hi {
      DotRangeXor(a, b, x, lo, hi - 1);
    }
  }

  /** Every row has `width` entries. */
  predicate Rect(M: seq<seq<bool>>, width: nat) {
    forall r :: 0 <= r < |M| ==> |M[r]| == width
  }

  /** The equation of one augmented row, n unknowns and the right-hand side in column n. */
  predicate Satisfies(row: seq<bool>, x: seq<bool>, n: nat)
    requires |row| == n + 1 && |x| == n
  {
    DotRange(row, x, 0, n) == row[n]
  }

  predicate Solves(M: seq<seq<bool>>, x: seq<bool>, n: nat)
    requires Rect(M, n + 1) && |x| == n
  {
    forall r :: 0 <= r < |M| ==> Satisfies(M[r], x, n)
  }

  ghost predicate SameSolutions(M: seq<seq<bool>>, M0: seq<seq<bool>>, n: nat)
    requires Rect(M, n + 1) && Rect(M0, n + 1)
  {
    forall x :: |x| == n ==> (Solves(M, x, n) <==> Solves(M0, x, n))
  }

  function Swap(M: seq<seq<bool>>, a: nat, b: nat): (S: seq<seq<bool>>)
    requires a < |M| && b < |M|
    ensures |S| == |M|
  {
    M[a := M[b]][b := M[a]]
  }

  /** Exchanging two rows keeps the solution set. */
  lemma SwapSame(M: seq<seq<bool>>, a: nat, b: nat, n: nat)
    requires Rect(M, n + 1) && a < |M| && b < |M|
    ensures Rect(Swap(M, a, b), n + 1)
    ensures forall x :: |x| == n ==> (Solves(Swap(M, a, b), x, n) <==> Solves(M, x, n))
  {
    var S := Swap(M, a, b);
    forall x | |x| == n ensures Solves(S, x, n) <==> Solves(M, x, n) {
      if Solves(M, x, n) {
        forall r | 0 <= r < |S| ensures Satisfies(S[r], x, n) {
          assert S[r] == M[if r == a then b else if r == b then a else r];
        }
      }
      if Solves(S, x, n) {
        forall r | 0 <= r < |M| ensures Satisfies(M[r], x, n) {
          assert M[r] == S[if r == a then b else if r == b then a else r];
        }
      }
    }
  }

  /** Adding another row to row r keeps the solution set. */
  lemma XorSame(M: seq<seq<bool>>, r: nat, p: nat, n: nat)
    requires Rect(M, n + 1) && r < |M| && p < |M| && r != p
    ensures Rect(M[r := XorRows(M[r], M[p])], n + 1)
    ensures forall x :: |x| == n ==> (Solves(M[r := XorRows(M[r], M[p])], x, n) <==> Solves(M, x, n))
  {
    var S := M[r := XorRows(M[r], M[p])];
    forall x | |x| == n ensures Solves(S, x, n) <==> Solves(M, x, n) {
      DotRangeXor(M[r], M[p], x, 0, n);
      if Solves(M, x, n) {
        assert Satisfies(M[r], x, n) && Satisfies(M[p], x, n);
        assert Satisfies(S[r], x, n);
        forall k | 0 <= k < |S| ensures Satisfies(S[k], x, n) {
          if k != r {
            assert S[k] == M[k];
          }
        }
      }
      if Solves(S, x, n) {
        assert Satisfies(S[r], x, n) && Satisfies(S[p], x, n);
        assert S[p] == M[p];
        forall k | 0 <= k < |M| ensures Satisfies(M[k], x, n) {
          if k != r {
            assert S[k] == M[k];
          }
        }
      }
    }
  }

  /** A row with no coefficients but a one on the right has no solution. */
  lemma ContradictoryRow(M: seq<seq<bool>>, r: nat, n: nat)
    requires Rect(M, n + 1) && r < |M|
    requires (forall c :: 0 <= c < n ==> !M[r][c]) && M[r][n]
    ensures forall x :: |x| == n ==> !Solves(M, x, n)
  {
    forall x | |x| == n ensures !Solves(M, x, n) {
      DotRangeZero(M[r], x, 0, n);
      assert !Satisfies(M[r], x, n);
    }
  }
}
