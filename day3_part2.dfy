// Day 3, part 2 (day3/solution_part2.go): the joltage of a bank is now the
// largest number formed by k = 12 of its digits kept in order. The solver is
// greedy: the i-th digit is the leftmost largest digit of the window that still
// leaves k - i - 1 digits after it. The model proves that this choice is the
// largest k-digit subsequence.
module Day3Greedy {
  import opened Decimal

  /**
   * The position the inner loop settles on for the window [lo, hi]: it moves
   * only on a strictly larger digit, so it is the leftmost maximum.
   */
  function LeftmostMax(s: string, lo: nat, hi: nat): (m: nat)
    requires lo <= hi < |s|
    ensures lo <= m <= hi
    ensures forall j :: lo <= j <= hi ==> s[j] <= s[m]
    ensures forall j :: lo <= j < m ==> s[j] < s[m]
    decreases hi - lo
  {
    if hi == lo then lo
    else
      var m := LeftmostMax(s, lo, hi - 1);
      if s[hi] > s[m] then hi else m
  }

  /** The digits the greedy choice picks when r digits remain to be taken from s[pos..]. */
  function Greedy(s: string, pos: nat, r: nat): (g: string)
    requires pos + r <= |s|
    ensures |g| == r
    ensures AllDigits(s) ==> AllDigits(g)
    decreases r
  {
    if r == 0 then []
    else
      var m := LeftmostMax(s, pos, |s| - r);
      [s[m]] + Greedy(s, m + 1, r - 1)
  }

  /** The positions of those digits. */
  function GreedyIndices(s: string, pos: nat, r: nat): (idx: seq<nat>)
    requires pos + r <= |s|
    ensures |idx| == r
    ensures forall i :: 0 <= i < r ==> pos <= idx[i] <= |s| - r + i
    ensures forall i, j :: 0 <= i < j < r ==> idx[i] < idx[j]
    decreases r
  {
    if r == 0 then []
    else
      var m := LeftmostMax(s, pos, |s| - r);
      [m] + GreedyIndices(s, m + 1, r - 1)
  }

  /** Strictly increasing positions in [lo, n): a way of keeping |idx| digits in order. */
  predicate IsSelection(idx: seq<nat>, lo: nat, n: nat) {
    && (forall i :: 0 <= i < |idx| ==> lo <= idx[i] < n)
    && (forall i, j :: 0 <= i < j < |idx| ==> idx[i] < idx[j])
  }

  /** The digits at the selected positions. */
  function Pick(s: string, idx: seq<nat>): (t: string)
    requires forall i :: 0 <= i < |idx| ==> idx[i] < |s|
    ensures |t| == |idx|
  {
    if idx == [] then [] else [s[idx[0]]] + Pick(s, idx[1..])
  }

  lemma {:induction false} PickDigits(s: string, idx: seq<nat>)
    requires AllDigits(s) && forall i :: 0 <= i < |idx| ==> idx[i] < |s|
    ensures AllDigits(Pick(s, idx))
    decreases |idx|
  {
    if idx != [] {
      PickDigits(s, idx[1..]);
    }
  }

  /** Lexicographic order on strings of one length. */
  predicate LexAtMost(a: string, b: string)
    requires |a| == |b|
    decreases |a|
  {
    a == [] || a[0] < b[0] || (a[0] == b[0] && LexAtMost(a[1..], b[1..]))
  }

  /** The greedy digits are the digits at the greedy positions. */
  lemma {:induction false} GreedyPicks(s: string, pos: nat, r: nat)
    requires pos + r <= |s|
    ensures Pick(s, GreedyIndices(s, pos, r)) == Greedy(s, pos, r)
    decreases r
  {
    if r > 0 {
      var m := LeftmostMax(s, pos, |s| - r);
      var rest := GreedyIndices(s, m + 1, r - 1);
      assert ([m] + rest)[1..] == rest;
      GreedyPicks(s, m + 1, r - 1);
    }
  }

  /** A selection of r positions in [lo, n) leaves room for the rest: its i-th position is at most n - r + i. */
  lemma {:induction false} SelectionRoom(idx: seq<nat>, lo: nat, n: nat, i: nat)
    requires IsSelection(idx, lo, n) && i < |idx|
    ensures idx[i] <= n - |idx| + i
    decreases |idx| - i
  {
    if i < |idx| - 1 {
      SelectionRoom(idx, lo, n, i + 1);
    }
  }

  /** The tail of a selection starting after its first position. */
  lemma SelectionTail(idx: seq<nat>, lo: nat, n: nat)
    requires IsSelection(idx, lo, n) && idx != []
    ensures IsSelection(idx[1..], idx[0] + 1, n)
  {
    forall i | 0 <= i < |idx| - 1 ensures idx[0] + 1 <= idx[1..][i] {
      assert idx[0] < idx[i + 1];
    }
  }

  /**
   * Exchange argument: the greedy digits are lexicographically at least the
   * digits of any other selection of the same size from s[pos..].
   */
  lemma {:induction false} GreedyOptimal(s: string, pos: nat, r: nat, idx: seq<nat>)
    requires pos + r <= |s|
    requires IsSelection(idx, pos, |s|) && |idx| == r
    ensures LexAtMost(Pick(s, idx), Greedy(s, pos, r))
    decreases r
  {
    if r > 0 {
      var m := LeftmostMax(s, pos, |s| - r);
      var t', g' := Pick(s, idx[1..]), Greedy(s, m + 1, r - 1);
      assert Pick(s, idx) == [s[idx[0]]] + t';
      GreedyStep(s, pos, r, m);
      SelectionRoom(idx, pos, |s|, 0);
      if s[idx[0]] == s[m] {
        assert m <= idx[0];
        SelectionTail(idx, pos, |s|);
        assert IsSelection(idx[1..], m + 1, |s|);
        GreedyOptimal(s, m + 1, r - 1, idx[1..]);
      }
      LexCons(s[idx[0]], s[m], t', g');
    }
  }

  /** Strings that start with a smaller character, or with the same one and smaller tails, are in order. */
  lemma LexCons(a: char, b: char, x: string, y: string)
    requires |x| == |y| && a <= b
    requires a == b ==> LexAtMost(x, y)
    ensures LexAtMost([a] + x, [b] + y)
  {
    ConsTail(a, x);
    ConsTail(b, y);
  }

  lemma ConsTail<T>(a: T, x: seq<T>)
    ensures ([a] + x)[1..] == x && [] + x == x && x + [] == x
  {
  }

  lemma ValueFirst(a: string)
    requires AllDigits(a) && a != []
    ensures Value(a) == DigitValue(a[0]) * Pow10(|a| - 1) + Value(a[1..])
  {
    var h, t := [a[0]], a[1..];
    assert h + t == a;
    ValueAppend(h, t);
    ValueSingle(a[0]);
  }

  lemma ValueSingle(c: char)
    requires IsDigit(c)
    ensures Value([c]) == DigitValue(c)
  {
    assert [c][..0] == [];
  }

  /** A smaller leading digit decides, whatever follows it. */
  lemma LeadingDigitLess(da: nat, db: nat, p: nat, va: nat, vb: nat)
    requires da < db && va < p
    ensures da * p + va < db * p + vb
  {
    assert (da + 1) * p == da * p + p;
    assert (da + 1) * p <= db * p by {
      MulLe(da + 1, db, p);
    }
  }

  lemma MulLe(a: nat, b: nat, p: nat)
    requires a <= b
    ensures a * p <= b * p
  {
  }

  /** For digit strings of one length the lexicographic order is the numeric order. */
  lemma {:induction false} LexValue(a: string, b: string)
    requires AllDigits(a) && AllDigits(b) && |a| == |b|
    requires LexAtMost(a, b)
    ensures Value(a) <= Value(b)
    decreases |a|
  {
    if a != [] {
      ValueFirst(a);
      ValueFirst(b);
      var p := Pow10(|a| - 1);
      if a[0] < b[0] {
        ValueBounds(a[1..]);
        LeadingDigitLess(DigitValue(a[0]), DigitValue(b[0]), p, Value(a[1..]), Value(b[1..]));
      } else {
        assert LexAtMost(a[1..], b[1..]);
        LexValue(a[1..], b[1..]);
      }
    }
  }

  /** The greedy number is the largest number formed by k digits of the line kept in order. */
  lemma GreedyIsLargest(line: string, k: nat, idx: seq<nat>)
    requires AllDigits(line) && k <= |line|
    requires IsSelection(idx, 0, |line|) && |idx| == k
    ensures AllDigits(Pick(line, idx))
    ensures Value(Pick(line, idx)) <= Value(Greedy(line, 0, k))
  {
    GreedyOptimal(line, 0, k, idx);
    PickDigits(line, idx);
    LexValue(Pick(line, idx), Greedy(line, 0, k));
  }

  /** ... and it is itself formed by k digits of the line kept in order. */
  lemma GreedyIsSelection(line: string, k: nat)
    requires k <= |line|
    ensures IsSelection(GreedyIndices(line, 0, k), 0, |line|)
    ensures Pick(line, GreedyIndices(line, 0, k)) == Greedy(line, 0, k)
  {
    GreedyPicks(line, 0, k);
  }

  /**
   * `maxJoltage12`: 0 when the line is shorter than k; otherwise the k greedy
   * digits, read as a decimal number.
   */
  method MaxJoltage12(line: string, k: nat) returns (r: nat)
    requires AllDigits(line) && k >= 1
    ensures |line| < k ==> r == 0
    ensures |line| >= k ==> r == Value(Greedy(line, 0, k))
  {
    var n := |line|;
    if n < k {
      return 0;
    }
    var result: string := [];
    var pos: nat := 0;
    ConsTail('0', Greedy(line, 0, k));
    for i := 0 to k
      invariant |result| == i
      invariant pos + (k - i) <= n
      invariant result + Greedy(line, pos, k - i) == Greedy(line, 0, k)
    {
      result, pos := TakeDigit(line, result, pos, k - i);
    }
    ConsTail('0', result);
    assert result == Greedy(line, 0, k);
    r := Value(result);
  }

  /** The outer loop's body: append the leftmost largest digit of the window that leaves r - 1 digits after it. */
  method TakeDigit(line: string, result: string, pos: nat, r: nat) returns (result': string, pos': nat)
    requires AllDigits(line) && 1 <= r && pos + r <= |line|
    ensures |result'| == |result| + 1 && pos' + (r - 1) <= |line|
    ensures result' + Greedy(line, pos', r - 1) == result + Greedy(line, pos, r)
  {
    var maxPos := WindowMax(line, pos, |line| - r);
    GreedyStep(line, pos, r, maxPos);
    result' := result + [line[maxPos]];
    pos' := maxPos + 1;
    Assoc(result, [line[maxPos]], Greedy(line, pos', r - 1));
  }

  /** One iteration of the outer loop takes the first greedy digit of what remains. */
  lemma GreedyStep(s: string, pos: nat, r: nat, m: nat)
    requires 1 <= r && pos + r <= |s| && m == LeftmostMax(s, pos, |s| - r)
    ensures Greedy(s, pos, r) == [s[m]] + Greedy(s, m + 1, r - 1)
  {
  }

  lemma Assoc<T>(a: seq<T>, b: seq<T>, c: seq<T>)
    ensures (a + b) + c == a + (b + c)
  {
  }

  /** The inner loop: scan the window [lo, hi] from '0' upwards, moving on a strictly larger digit. */
  method WindowMax(line: string, lo: nat, hi: nat) returns (maxPos: nat)
    requires AllDigits(line) && lo <= hi < |line|
    ensures maxPos == LeftmostMax(line, lo, hi)
  {
    var maxDigit := '0';
    maxPos := lo;
    for j := lo to hi + 1
      invariant j == lo ==> maxPos == lo && maxDigit == '0'
      invariant j > lo ==> maxPos == LeftmostMax(line, lo, j - 1) && maxDigit == line[maxPos]
    {
      if line[j] > maxDigit {
        maxDigit := line[j];
        maxPos := j;
      }
    }
  }

  /** The lines `maxJoltage12` is applied to are digit strings. */
  predicate LongLinesAreDigits(lines: seq<string>) {
    forall i :: 0 <= i < |lines| && |lines[i]| >= 12 ==> AllDigits(lines[i])
  }

  /** The answer: the joltages of the lines with at least 12 characters. */
  function TotalSpec(lines: seq<string>): nat
    requires LongLinesAreDigits(lines)
  {
    if lines == [] then 0
    else
      var line := lines[|lines| - 1];
      assert LongLinesAreDigits(lines[..|lines| - 1]);
      TotalSpec(lines[..|lines| - 1]) + (if |line| < 12 then 0 else Value(Greedy(line, 0, 12)))
  }

  /** `main`'s loop: skip lines shorter than 12 and add up the joltages of the rest. */
  method TotalJoltage(lines: seq<string>) returns (total: nat)
    requires LongLinesAreDigits(lines)
    ensures total == TotalSpec(lines)
  {
    total := 0;
    for k := 0 to |lines|
      invariant LongLinesAreDigits(lines[..k])
      invariant total == TotalSpec(lines[..k])
    {
      var line := lines[k];
      assert lines[..k + 1][..k] == lines[..k];
      assert LongLinesAreDigits(lines[..k + 1]);
      if |line| < 12 {
        continue;
      }
      var joltage := MaxJoltage12(line, 12);
      total := total + joltage;
    }
    assert lines[..|lines|] == lines;
  }
}
