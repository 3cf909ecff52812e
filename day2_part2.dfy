// Day 2, part 2 (day2/solution_part2.js): an ID is invalid when its decimal
// digits are some pattern repeated at least twice (111, 1212, 123123123).
// For each range the solver generates, for every length between those of the
// range's ends and every pattern length dividing it, all patterns without a
// leading zero repeated to that length, and keeps the ones inside the range
// in a Set; the answer counts and sums them over all ranges.
module Day2Repeated {
  import opened Decimal
  import opened Sums

  /** `pattern.repeat(n)`. */
  function Repeat(pattern: string, n: nat): (r: string)
    ensures |r| == n * |pattern|
  {
    if n == 0 then [] else pattern + Repeat(pattern, n - 1)
  }

  lemma {:induction false} RepeatDigits(pattern: string, n: nat)
    requires AllDigits(pattern)
    ensures AllDigits(Repeat(pattern, n))
  {
    if n > 0 {
      RepeatDigits(pattern, n - 1);
    }
  }

  /** The string is its first p characters repeated |s|/p >= 2 times. */
  predicate RepeatsWith(s: string, p: int) {
    1 <= p && 2 * p <= |s| && |s| % p == 0 && Repeat(s[..p], |s| / p) == s
  }

  /** The puzzle's notion of an invalid ID: some pattern length works. */
  predicate IsRepeated(n: nat) {
    var s := Show(n);
    exists p | 1 <= p <= |s| :: RepeatsWith(s, p)
  }

  /**
   * `isInvalidId`: tries each pattern length up to half the length that
   * divides it and stops at the first one that rebuilds the string.
   */
  method IsInvalidId(num: nat) returns (r: bool)
    ensures r <==> IsRepeated(num)
  {
    var str := Show(num);
    var len := |str|;
    var patternLen := 1;
    while 2 * patternLen <= len
      invariant 1 <= patternLen
      invariant forall q :: 1 <= q < patternLen ==> !RepeatsWith(str, q)
    {
      if len % patternLen != 0 {
        patternLen := patternLen + 1;
        continue;
      }
      var pattern := str[..patternLen];
      var repetitions := len / patternLen;
      if Repeat(pattern, repetitions) == str {
        assert RepeatsWith(str, patternLen);
        return true;
      }
      patternLen := patternLen + 1;
    }
    return false;
  }

  /** `BigInt(pattern.toString().repeat(repetitions))`. */
  function Candidate(pattern: nat, repetitions: nat): nat {
    var s := Repeat(Show(pattern), repetitions);
    RepeatDigits(Show(pattern), repetitions);
    Value(s)
  }

  /**
   * A pattern without a leading zero, repeated at least twice, gives a number
   * whose digits are exactly the repetition, so it is invalid.
   */
  lemma CandidateDigits(pattern: nat, p: nat, repetitions: nat)
    requires p >= 1 && Pow10(p - 1) <= pattern < Pow10(p) && repetitions >= 2
    ensures Show(Candidate(pattern, repetitions)) == Repeat(Show(pattern), repetitions)
    ensures RepeatsWith(Show(Candidate(pattern, repetitions)), p)
    ensures IsRepeated(Candidate(pattern, repetitions))
    ensures |Show(Candidate(pattern, repetitions))| == p * repetitions
  {
    CandidateShow(pattern, p, repetitions);
    var ps := Show(pattern);
    var s := Repeat(ps, repetitions);
    RepeatPrefix(ps, repetitions);
    DivExact(repetitions, p);
    MulMono(2, repetitions, p);
    assert |s| == repetitions * p;
    assert RepeatsWith(s, p);
    assert 1 <= p <= |s|;
  }

  lemma RepeatPrefix(ps: string, n: nat)
    requires n >= 1
    ensures Repeat(ps, n)[..|ps|] == ps
  {
    assert Repeat(ps, n) == ps + Repeat(ps, n - 1);
  }

  lemma CandidateShow(pattern: nat, p: nat, repetitions: nat)
    requires p >= 1 && Pow10(p - 1) <= pattern < Pow10(p) && repetitions >= 1
    ensures |Show(pattern)| == p
    ensures Show(Candidate(pattern, repetitions)) == Repeat(Show(pattern), repetitions)
  {
    ShowLength(pattern, p);
    var ps := Show(pattern);
    var s := Repeat(ps, repetitions);
    RepeatDigits(ps, repetitions);
    assert s[0] == ps[0];
    assert Canonical(s);
    ShowValue(s);
  }

  lemma DivExact(n: nat, p: nat)
    requires p >= 1
    ensures (n * p) / p == n && (n * p) % p == 0
  {
    var q, r := (n * p) / p, (n * p) % p;
    assert n * p == q * p + r;
    assert (n - q) * p == r;
    MulBetween(n - q, p);
  }

  lemma MulBetween(d: int, p: nat)
    requires p >= 1 && 0 <= d * p < p
    ensures d == 0
  {
    if d >= 1 {
      MulMono(1, d, p);
    } else if d <= -1 {
      MulMono(d, -1, p);
    }
  }

  lemma MulMono(a: int, b: int, p: nat)
    requires a <= b
    ensures a * p <= b * p
  {
  }

  /** An invalid number with a given pattern length is the candidate built from its own leading pattern. */
  lemma RepeatedIsCandidate(x: nat, p: nat)
    requires RepeatsWith(Show(x), p)
    ensures var s := Show(x);
            var pattern := Value(s[..p]);
            Pow10(p - 1) <= pattern < Pow10(p) && x == Candidate(pattern, |s| / p)
  {
    var s := Show(x);
    var t := s[..p];
    assert Canonical(t) by {
      assert t[0] == s[0];
    }
    ShowValue(t);
    ValueBounds(t);
    ValueShow(x);
  }

  /** The IDs kept so far lie in the range, are invalid and are pairwise distinct. */
  predicate Sound(ids: seq<nat>, start: nat, end: nat) {
    && (forall k :: 0 <= k < |ids| ==> start <= ids[k] <= end && IsRepeated(ids[k]))
    && Distinct(ids)
  }

  predicate Distinct(ids: seq<nat>) {
    forall i, j :: 0 <= i < j < |ids| ==> ids[i] != ids[j]
  }

  /**
   * `findInvalidIds`. The Set becomes a duplicate-free sequence in insertion
   * order, which is the order of `Array.from`.
   */
  method FindInvalidIds(start: nat, end: nat) returns (ids: seq<nat>)
    ensures forall k :: 0 <= k < |ids| ==> start <= ids[k] <= end && IsRepeated(ids[k])
    ensures Distinct(ids)
    ensures forall x :: start <= x <= end && IsRepeated(x) ==> x in ids
  {
    ids := [];
    var startLen, endLen := |Show(start)|, |Show(end)|;
    forall x | start <= x ensures startLen <= |Show(x)| {
      if |Show(x)| < startLen {
        ShorterIsSmaller(x, start);
      }
    }
    var totalLen := startLen;
    while totalLen <= endLen
      invariant Sound(ids, start, end)
      invariant forall x :: start <= x <= end && IsRepeated(x) && |Show(x)| < totalLen ==> x in ids
    {
      ids := AddLength(ids, totalLen, start, end);
      totalLen := totalLen + 1;
    }
    forall x | start <= x <= end && IsRepeated(x) ensures |Show(x)| <= endLen {
      if |Show(x)| > endLen {
        ShorterIsSmaller(end, x);
      }
    }
  }

  /** The middle loop: every pattern length that divides `totalLen`, up to half of it. */
  method AddLength(ids0: seq<nat>, totalLen: nat, start: nat, end: nat) returns (ids: seq<nat>)
    requires Sound(ids0, start, end)
    requires forall x :: start <= x <= end && IsRepeated(x) && |Show(x)| < totalLen ==> x in ids0
    ensures Sound(ids, start, end)
    ensures forall x :: start <= x <= end && IsRepeated(x) && |Show(x)| < totalLen + 1 ==> x in ids
  {
    ids := ids0;
    var patternLen := 1;
    while 2 * patternLen <= totalLen
      invariant 1 <= patternLen
      invariant Sound(ids, start, end)
      invariant forall x :: start <= x <= end && IsRepeated(x) && |Show(x)| < totalLen ==> x in ids
      invariant LengthsDone(ids, totalLen, patternLen, start, end)
    {
      if totalLen % patternLen != 0 {
        patternLen := patternLen + 1;
        continue;
      }
      ids := AddPatterns(ids, totalLen, patternLen, start, end);
      patternLen := patternLen + 1;
    }
    forall x | start <= x <= end && IsRepeated(x) && |Show(x)| == totalLen
      ensures x in ids
    {
      var q :| 1 <= q <= |Show(x)| && RepeatsWith(Show(x), q);
    }
  }

  /** Every invalid number of length `totalLen` in range with a pattern length below `patternLen` is kept. */
  predicate LengthsDone(ids: seq<nat>, totalLen: nat, patternLen: nat, start: nat, end: nat) {
    forall x, q :: start <= x <= end && |Show(x)| == totalLen && 1 <= q < patternLen && RepeatsWith(Show(x), q)
      ==> x in ids
  }

  /**
   * The innermost loop: every pattern of `patternLen` digits, repeated to
   * `totalLen` digits, is added when in range and not yet present.
   */
  method AddPatterns(ids0: seq<nat>, totalLen: nat, patternLen: nat, start: nat, end: nat) returns (ids: seq<nat>)
    requires 1 <= patternLen && 2 * patternLen <= totalLen && totalLen % patternLen == 0
    requires Sound(ids0, start, end)
    requires LengthsDone(ids0, totalLen, patternLen, start, end)
    ensures Sound(ids, start, end)
    ensures LengthsDone(ids, totalLen, patternLen + 1, start, end)
    ensures forall y :: y in ids0 ==> y in ids
  {
    ids := ids0;
    var repetitions := totalLen / patternLen;
    var minPattern := if patternLen == 1 then 1 else Pow10(patternLen - 1);
    var maxPattern := Pow10(patternLen) - 1;
    PatternsNoneBelow(ids, totalLen, patternLen, start, end);
    var pattern := minPattern;
    while pattern <= maxPattern
      invariant minPattern <= pattern <= maxPattern + 1
      invariant Sound(ids, start, end)
      invariant LengthsDone(ids, totalLen, patternLen, start, end)
      invariant PatternsDone(ids, totalLen, patternLen, pattern, start, end)
      invariant forall y :: y in ids0 ==> y in ids
    {
      ghost var before := ids;
      var repeated := Candidate(pattern, repetitions);
      if start <= repeated <= end && repeated !in ids {
        ids := ids + [repeated];
      }
      PatternStep(before, ids, totalLen, patternLen, pattern, start, end);
      pattern := pattern + 1;
    }
    PatternsExhausted(ids, totalLen, patternLen, start, end);
  }

  /** Every in-range number of `totalLen` digits repeating a pattern below `pattern` is kept. */
  predicate PatternsDone(ids: seq<nat>, totalLen: nat, patternLen: nat, pattern: nat, start: nat, end: nat)
    requires 1 <= patternLen
  {
    forall x ::
      (start <= x <= end && |Show(x)| == totalLen && RepeatsWith(Show(x), patternLen)
       && Value(Show(x)[..patternLen]) < pattern) ==> x in ids
  }

  lemma PatternStep(ids: seq<nat>, ids': seq<nat>, totalLen: nat, patternLen: nat, pattern: nat, start: nat, end: nat)
    requires 1 <= patternLen && 2 * patternLen <= totalLen && totalLen % patternLen == 0
    requires Pow10(patternLen - 1) <= pattern < Pow10(patternLen)
    requires Sound(ids, start, end)
    requires PatternsDone(ids, totalLen, patternLen, pattern, start, end)
    requires var c := Candidate(pattern, totalLen / patternLen);
             ids' == if start <= c <= end && c !in ids then ids + [c] else ids
    ensures Sound(ids', start, end)
    ensures PatternsDone(ids', totalLen, patternLen, pattern + 1, start, end)
    ensures forall y :: y in ids ==> y in ids'
  {
    var reps := totalLen / patternLen;
    var c := Candidate(pattern, reps);
    Quotient(totalLen, patternLen);
    CandidateDigits(pattern, patternLen, reps);
    if ids' != ids {
      AddKeepsSound(ids, c, start, end);
    }
    PatternsDoneStep(ids, ids', totalLen, patternLen, pattern, start, end);
  }

  lemma Quotient(n: nat, p: nat)
    requires 1 <= p && 2 * p <= n && n % p == 0
    ensures n / p >= 2 && (n / p) * p == n
  {
    var q := n / p;
    assert q * p == n;
    if q < 2 {
      MulMono(q, 1, p);
    }
  }

  lemma AddKeepsSound(ids: seq<nat>, c: nat, start: nat, end: nat)
    requires Sound(ids, start, end) && start <= c <= end && IsRepeated(c) && c !in ids
    ensures Sound(ids + [c], start, end)
  {
    assert forall k :: 0 <= k < |ids| ==> ids[k] != c;
  }

  lemma PatternsDoneStep(ids: seq<nat>, ids': seq<nat>, totalLen: nat, patternLen: nat, pattern: nat, start: nat, end: nat)
    requires 1 <= patternLen && 2 * patternLen <= totalLen && totalLen % patternLen == 0
    requires PatternsDone(ids, totalLen, patternLen, pattern, start, end)
    requires var c := Candidate(pattern, totalLen / patternLen);
             ids' == if start <= c <= end && c !in ids then ids + [c] else ids
    ensures PatternsDone(ids', totalLen, patternLen, pattern + 1, start, end)
    ensures forall y :: y in ids ==> y in ids'
  {
    forall x | start <= x <= end && |Show(x)| == totalLen && RepeatsWith(Show(x), patternLen)
                && Value(Show(x)[..patternLen]) < pattern + 1
      ensures x in ids'
    {
      RepeatedIsCandidate(x, patternLen);
    }
  }

  /** Once every pattern of `patternLen` digits has been tried, that pattern length is done. */
  lemma PatternsExhausted(ids: seq<nat>, totalLen: nat, patternLen: nat, start: nat, end: nat)
    requires 1 <= patternLen
    requires LengthsDone(ids, totalLen, patternLen, start, end)
    requires PatternsDone(ids, totalLen, patternLen, Pow10(patternLen), start, end)
    ensures LengthsDone(ids, totalLen, patternLen + 1, start, end)
  {
    forall x | start <= x <= end && |Show(x)| == totalLen && RepeatsWith(Show(x), patternLen)
      ensures x in ids
    {
      var s := Show(x);
      ValueBounds(s[..patternLen]);
    }
  }

  /** No number repeats a pattern below 10^(patternLen-1), which has fewer digits. */
  lemma PatternsNoneBelow(ids: seq<nat>, totalLen: nat, patternLen: nat, start: nat, end: nat)
    requires 1 <= patternLen
    ensures PatternsDone(ids, totalLen, patternLen, Pow10(patternLen - 1), start, end)
  {
    forall x | start <= x <= end && |Show(x)| == totalLen && RepeatsWith(Show(x), patternLen)
      ensures Value(Show(x)[..patternLen]) >= Pow10(patternLen - 1)
    {
      RepeatedIsCandidate(x, patternLen);
    }
  }

  /** The invalid IDs in [start, end], in increasing order: the reference the sums are stated against. */
  function RepeatedIn(start: nat, end: int): (r: seq<nat>)
    ensures forall x :: x in r <==> start <= x <= end && IsRepeated(x)
    ensures Distinct(r)
    decreases end - start
  {
    if end < start then []
    else
      var rest := RepeatedIn(start, end - 1);
      rest + (if IsRepeated(end) then [end] else [])
  }

  /** A duplicate-free sequence holds each of its elements exactly once. */
  lemma {:induction false} DistinctCount(s: seq<nat>, x: nat)
    requires Distinct(s)
    ensures multiset(s)[x] == if x in s then 1 else 0
  {
    if s != [] {
      var init := s[..|s| - 1];
      assert s == init + [s[|s| - 1]];
      DistinctCount(init, x);
      if x == s[|s| - 1] {
        assert x !in init;
      }
    }
  }

  /** Two duplicate-free sequences with the same elements are permutations of each other. */
  lemma SameElements(a: seq<nat>, b: seq<nat>)
    requires Distinct(a) && Distinct(b)
    requires forall x :: x in a <==> x in b
    ensures multiset(a) == multiset(b)
    ensures |a| == |b| && Sum(a) == Sum(b)
  {
    forall x ensures multiset(a)[x] == multiset(b)[x] {
      DistinctCount(a, x);
      DistinctCount(b, x);
    }
    assert multiset(a) == multiset(b);
    assert |multiset(a)| == |a| && |multiset(b)| == |b|;
    SumPermutation(a, b);
  }

  /** All IDs counted, range after range: an ID in two overlapping ranges is counted twice. */
  function AllRepeatedIds(ranges: seq<(nat, nat)>): seq<nat> {
    if ranges == [] then []
    else
      var last := ranges[|ranges| - 1];
      AllRepeatedIds(ranges[..|ranges| - 1]) + RepeatedIn(last.0, last.1)
  }

  lemma AllRepeatedIdsSnoc(ranges: seq<(nat, nat)>, r: nat)
    requires r < |ranges|
    ensures AllRepeatedIds(ranges[..r + 1]) == AllRepeatedIds(ranges[..r]) + RepeatedIn(ranges[r].0, ranges[r].1)
  {
    assert ranges[..r + 1][..r] == ranges[..r];
  }

  /** The final loop: `totalCount` and `totalSum` over the IDs each range returns. */
  method Totals(ranges: seq<(nat, nat)>) returns (totalCount: nat, totalSum: int)
    ensures totalCount == |AllRepeatedIds(ranges)|
    ensures totalSum == Sum(AllRepeatedIds(ranges))
  {
    totalCount, totalSum := 0, 0;
    for r := 0 to |ranges|
      invariant totalCount == |AllRepeatedIds(ranges[..r])|
      invariant totalSum == Sum(AllRepeatedIds(ranges[..r]))
    {
      var ids := FindInvalidIds(ranges[r].0, ranges[r].1);
      ghost var done := AllRepeatedIds(ranges[..r]);
      totalCount, totalSum := AddUp(totalCount, totalSum, ids);
      ghost var spec := RepeatedIn(ranges[r].0, ranges[r].1);
      SameElements(ids, spec);
      SumAppend(done, spec);
      AllRepeatedIdsSnoc(ranges, r);
    }
    assert ranges[..|ranges|] == ranges;
  }

  /** The inner loop of `main`: count each id of a range and add it to the sum. */
  method AddUp(count0: nat, sum0: int, ids: seq<nat>) returns (count: nat, sum: int)
    ensures count == count0 + |ids| && sum == sum0 + Sum(ids)
  {
    count, sum := count0, sum0;
    for k := 0 to |ids|
      invariant count == count0 + k
      invariant sum == sum0 + Sum(ids[..k])
    {
      assert ids[..k + 1] == ids[..k] + [ids[k]];
      SumAppend(ids[..k], [ids[k]]);
      assert Sum([ids[k]]) == ids[k] by {
        assert [ids[k]][..0] == [];
      }
      count := count + 1;
      sum := sum + ids[k];
    }
    assert ids[..|ids|] == ids;
  }

  /** 1111 is generated both from "1" and from "11", and is counted once. */
  lemma Example1111()
    ensures Candidate(1, 4) == 1111 && Candidate(11, 2) == 1111
    ensures IsRepeated(1111)
  {
    assert Show(1) == "1";
    assert Show(11) == "11";
    assert Repeat("1", 4) == "1111";
    assert Repeat("11", 2) == "1111";
    assert Value("1111") == 1111 by {
      assert "1111"[..3] == "111";
      assert "111"[..2] == "11";
      assert "11"[..1] == "1";
      assert "1"[..0] == "";
    }
    CandidateDigits(1, 1, 4);
  }
}
