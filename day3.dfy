// Day 3, part 1 (day3/solution_part1.go): the joltage of a bank of batteries
// is the largest two-digit number formed by two of its digits in order; the
// answer sums it over the banks. Lines are Go strings, so characters stand for
// bytes and `line[i] - '0'` wraps modulo 256.
module Day3Pairs {

  /** `int(line[i] - '0')`, a byte subtraction. */
  function DigitAt(line: string, i: nat): (d: nat)
    requires i < |line|
    ensures d < 256
    ensures '0' <= line[i] <= '9' ==> d == (line[i] as int) - ('0' as int)
  {
    ((line[i] as int) - ('0' as int)) % 256
  }

  /** `d1*10 + d2` for the digits at positions i < j. */
  function PairValue(line: string, i: nat, j: nat): nat
    requires i < j < |line|
  {
    DigitAt(line, i) * 10 + DigitAt(line, j)
  }

  function Max(a: nat, b: nat): nat {
    if a >= b then a else b
  }

  /** The best pair whose second digit is at j and whose first digit is before i. */
  function BestInto(line: string, i: nat, j: nat): nat
    requires i <= j < |line|
  {
    if i == 0 then 0 else Max(BestInto(line, i - 1, j), PairValue(line, i - 1, j))
  }

  /** The best pair value among the first m characters, or 0 when there is no pair. */
  function BestUpTo(line: string, m: nat): nat
    requires m <= |line|
  {
    if m < 2 then 0 else Max(BestUpTo(line, m - 1), BestInto(line, m - 1, m - 1))
  }

  /** The reference answer for one bank. */
  function BestPair(line: string): nat {
    BestUpTo(line, |line|)
  }

  lemma {:induction false} BestIntoBound(line: string, i: nat, j: nat, i': nat)
    requires i <= j < |line| && i' < i
    ensures PairValue(line, i', j) <= BestInto(line, i, j)
  {
    if i' < i - 1 {
      BestIntoBound(line, i - 1, j, i');
    }
  }

  lemma {:induction false} BestUpToBound(line: string, m: nat, i: nat, j: nat)
    requires m <= |line| && i < j < m
    ensures PairValue(line, i, j) <= BestUpTo(line, m)
  {
    if j < m - 1 {
      BestUpToBound(line, m - 1, i, j);
    } else {
      BestIntoBound(line, m - 1, m - 1, i);
    }
  }

  lemma {:induction false} BestIntoWitness(line: string, i: nat, j: nat) returns (w: nat)
    requires 1 <= i <= j < |line|
    ensures w < i && BestInto(line, i, j) == PairValue(line, w, j)
  {
    if i == 1 {
      w := 0;
    } else {
      w := BestIntoWitness(line, i - 1, j);
      if BestInto(line, i - 1, j) < PairValue(line, i - 1, j) {
        w := i - 1;
      }
    }
  }

  lemma {:induction false} BestUpToWitness(line: string, m: nat) returns (i: nat, j: nat)
    requires 2 <= m <= |line|
    ensures i < j < m && BestUpTo(line, m) == PairValue(line, i, j)
  {
    var wi := BestIntoWitness(line, m - 1, m - 1);
    if m == 2 {
      i, j := wi, m - 1;
    } else {
      i, j := BestUpToWitness(line, m - 1);
      if BestUpTo(line, m - 1) < BestInto(line, m - 1, m - 1) {
        i, j := wi, m - 1;
      }
    }
  }

  /** `BestPair` is the maximum over all pairs, and some pair attains it. */
  lemma BestPairIsMax(line: string)
    ensures forall i, j :: 0 <= i < j < |line| ==> PairValue(line, i, j) <= BestPair(line)
    ensures |line| < 2 ==> BestPair(line) == 0
    ensures |line| >= 2 ==> exists i, j :: 0 <= i < j < |line| && BestPair(line) == PairValue(line, i, j)
  {
    forall i, j | 0 <= i < j < |line| ensures PairValue(line, i, j) <= BestPair(line) {
      BestUpToBound(line, |line|, i, j);
    }
    if |line| >= 2 {
      var i, j := BestUpToWitness(line, |line|);
    }
  }

  /** For a line of decimal digits the joltage is at most 99. */
  lemma DigitsBound(line: string)
    requires forall i :: 0 <= i < |line| ==> '0' <= line[i] <= '9'
    ensures BestPair(line) <= 99
  {
    BestPairIsMax(line);
    if |line| >= 2 {
      var i, j :| 0 <= i < j < |line| && BestPair(line) == PairValue(line, i, j);
    }
  }

  /** `maxJoltage`: every pair (i, j) with i < j, keeping the largest value, from 0. */
  method MaxJoltage(line: string) returns (maxVal: nat)
    ensures forall i, j :: 0 <= i < j < |line| ==> PairValue(line, i, j) <= maxVal
    ensures |line| < 2 ==> maxVal == 0
    ensures |line| >= 2 ==> exists i, j :: 0 <= i < j < |line| && maxVal == PairValue(line, i, j)
  {
    maxVal := 0;
    var n := |line|;
    ghost var wi, wj := 0, 0;
    var i := 0;
    while i < n - 1
      invariant 0 <= i <= if n >= 1 then n - 1 else 0
      invariant forall i', j' :: 0 <= i' < i && i' < j' < n ==> PairValue(line, i', j') <= maxVal
      invariant maxVal == 0 || (wi < wj < n && maxVal == PairValue(line, wi, wj))
    {
      var j := i + 1;
      while j < n
        invariant i + 1 <= j <= n
        invariant forall i', j' :: 0 <= i' < i && i' < j' < n ==> PairValue(line, i', j') <= maxVal
        invariant forall j' :: i < j' < j ==> PairValue(line, i, j') <= maxVal
        invariant maxVal == 0 || (wi < wj < n && maxVal == PairValue(line, wi, wj))
      {
        var d1 := ((line[i] as int) - ('0' as int)) % 256;
        var d2 := ((line[j] as int) - ('0' as int)) % 256;
        var val := d1 * 10 + d2;
        if val > maxVal {
          maxVal := val;
          wi, wj := i, j;
        }
        j := j + 1;
      }
      i := i + 1;
    }
    if n >= 2 && maxVal == 0 {
      assert PairValue(line, 0, 1) <= maxVal;
      wi, wj := 0, 1;
    }
  }

  /** Any value that bounds every pair and is attained (or is 0 without pairs) is `BestPair`. */
  lemma MaxUnique(line: string, v: nat)
    requires forall i, j :: 0 <= i < j < |line| ==> PairValue(line, i, j) <= v
    requires |line| < 2 ==> v == 0
    requires |line| >= 2 ==> exists i, j :: 0 <= i < j < |line| && v == PairValue(line, i, j)
    ensures v == BestPair(line)
  {
    BestPairIsMax(line);
    if |line| >= 2 {
      var i, j :| 0 <= i < j < |line| && v == PairValue(line, i, j);
      var i', j' :| 0 <= i' < j' < |line| && BestPair(line) == PairValue(line, i', j');
    }
  }

  /** The answer: the joltages of the lines with at least two characters. */
  function TotalSpec(lines: seq<string>): nat {
    if lines == [] then 0
    else
      var line := lines[|lines| - 1];
      TotalSpec(lines[..|lines| - 1]) + (if |line| < 2 then 0 else BestPair(line))
  }

  /** `main`'s loop: skip lines shorter than 2 and add up the joltages of the rest. */
  method TotalJoltage(lines: seq<string>) returns (total: nat)
    ensures total == TotalSpec(lines)
  {
    total := 0;
    for k := 0 to |lines|
      invariant total == TotalSpec(lines[..k])
    {
      assert lines[..k + 1][..k] == lines[..k];
      var line := lines[k];
      if |line| < 2 {
        continue;
      }
      var joltage := MaxJoltage(line);
      MaxUnique(line, joltage);
      total := total + joltage;
    }
    assert lines[..|lines|] == lines;
  }
}
