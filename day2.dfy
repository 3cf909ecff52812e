// Day 2, part 1 (day2/solution.js): an ID is invalid when its decimal digits
// are some half written twice (55, 6464, 123123). For each ID range the
// solver generates the doubled numbers of each half length from 1 to 10 and
// keeps those inside the range; the answer sums them over all ranges.
module Day2Doubled {
  import opened Decimal
  import opened Sums

  /** `isInvalidId`: the decimal string has even length and its two halves are equal. */
  predicate IsInvalidId(n: nat) {
    var s := Show(n);
    |s| % 2 == 0 && s[..|s| / 2] == s[|s| / 2..]
  }

  /** `BigInt(half.toString() + half.toString())`. */
  function Doubled(half: nat): nat {
    Value(Show(half) + Show(half))
  }

  /** The digits of a doubled half are the half's digits twice; numerically half * 10^len + half. */
  lemma DoubledDigits(half: nat)
    requires half > 0
    ensures Show(Doubled(half)) == Show(half) + Show(half)
    ensures Doubled(half) == half * Pow10(|Show(half)|) + half
  {
    var s := Show(half);
    assert Canonical(s + s) by {
      assert (s + s)[0] == s[0];
    }
    ShowValue(s + s);
    ValueAppend(s, s);
    ValueShow(half);
  }

  /** Every doubled half (without a leading zero) is an invalid ID. */
  lemma DoubledIsInvalid(half: nat)
    requires half > 0
    ensures IsInvalidId(Doubled(half))
    ensures |Show(Doubled(half))| == 2 * |Show(half)|
  {
    DoubledDigits(half);
    var s := Show(half);
    var t := s + s;
    assert |t| == 2 * |s| && |t| / 2 == |s|;
    assert t[..|s|] == s && t[|s|..] == s;
  }

  /** Every invalid ID is the doubling of its first half, which has no leading zero. */
  lemma InvalidIsDoubled(n: nat)
    requires IsInvalidId(n)
    ensures var s := Show(n);
            var h := Value(s[..|s| / 2]);
            h > 0 && Show(h) == s[..|s| / 2] && n == Doubled(h)
  {
    var s := Show(n);
    var t := s[..|s| / 2];
    assert s == t + t;
    assert |s| >= 2;
    assert Canonical(t) && t[0] == s[0];
    ShowValue(t);
    ValueBounds(t);
    ValueShow(n);
  }

  /** A doubled half of k digits has 2k digits, so it lies in [10^(2k-1), 10^(2k)). */
  lemma DoubledBounds(half: nat)
    requires half > 0
    ensures Pow10(2 * |Show(half)| - 1) <= Doubled(half) < Pow10(2 * |Show(half)|)
  {
    DoubledIsInvalid(half);
    ShowBounds(Doubled(half));
  }

  /** Among halves of one length, doubling keeps the order. */
  lemma {:induction false} DoubledMonotone(a: nat, b: nat)
    requires 0 < a < b && |Show(a)| == |Show(b)|
    ensures Doubled(a) < Doubled(b)
  {
    DoubledDigits(a);
    DoubledDigits(b);
    var p := Pow10(|Show(a)|);
    assert a * p <= b * p by {
      MulLe(a, b, p);
    }
  }

  lemma MulLe(a: nat, b: nat, p: nat)
    requires a <= b
    ensures a * p <= b * p
  {
  }

  /** `minRepeated(halfLen)`: 10^(halfLen-1) written twice, the smallest doubled number of that length. */
  function MinRepeated(halfLen: nat): (r: nat)
    requires halfLen >= 1
    ensures r == Pow10(halfLen - 1) * Pow10(halfLen) + Pow10(halfLen - 1)
  {
    var minHalf := Pow10(halfLen - 1);
    HalfLength(minHalf, halfLen);
    DoubledDigits(minHalf);
    Doubled(minHalf)
  }

  /** `maxRepeated(halfLen)`: 10^halfLen - 1 written twice, the largest doubled number of that length. */
  function MaxRepeated(halfLen: nat): (r: nat)
    requires halfLen >= 1
    ensures r == (Pow10(halfLen) - 1) * Pow10(halfLen) + (Pow10(halfLen) - 1)
  {
    var maxHalf := Pow10(halfLen) - 1;
    HalfLength(maxHalf, halfLen);
    DoubledDigits(maxHalf);
    Doubled(maxHalf)
  }

  /** Every doubled half of `halfLen` digits lies between `minRepeated` and `maxRepeated`. */
  lemma RepeatedBounds(half: nat, halfLen: nat)
    requires halfLen >= 1 && half > 0 && |Show(half)| == halfLen
    ensures MinRepeated(halfLen) <= Doubled(half) <= MaxRepeated(halfLen)
  {
    var lo, hi := Pow10(halfLen - 1), Pow10(halfLen) - 1;
    DoubledBetween(half, halfLen);
    assert MinRepeated(halfLen) == Doubled(lo);
    assert MaxRepeated(halfLen) == Doubled(hi);
  }

  lemma DoubledBetween(half: nat, halfLen: nat)
    requires halfLen >= 1 && half > 0 && |Show(half)| == halfLen
    ensures Doubled(Pow10(halfLen - 1)) <= Doubled(half) <= Doubled(Pow10(halfLen) - 1)
  {
    var lo, hi := Pow10(halfLen - 1), Pow10(halfLen) - 1;
    ShowBounds(half);
    HalfLength(lo, halfLen);
    HalfLength(hi, halfLen);
    if lo < half {
      DoubledMonotone(lo, half);
    }
    if half < hi {
      DoubledMonotone(half, hi);
    }
  }

  /** The halves of `halfLen` digits are exactly 10^(halfLen-1) .. 10^halfLen - 1. */
  lemma HalfLength(half: nat, halfLen: nat)
    requires halfLen >= 1 && Pow10(halfLen - 1) <= half < Pow10(halfLen)
    ensures |Show(half)| == halfLen && half > 0
  {
    ShowLength(half, halfLen);
  }

  /** The invalid IDs in [start, end] with at most 20 digits, in increasing order. */
  function InvalidIdsIn(start: nat, end: int): (r: seq<nat>)
    ensures forall k :: 0 <= k < |r| ==> start <= r[k] <= end && IsInvalidId(r[k]) && |Show(r[k])| <= 20
    ensures Increasing(r)
    decreases end - start
  {
    if end < start then []
    else InvalidIdsIn(start, end - 1) + (if IsInvalidId(end) && |Show(end)| <= 20 then [end] else [])
  }

  lemma {:induction false} InvalidIdsInComplete(start: nat, end: int, x: nat)
    requires start <= x <= end && IsInvalidId(x) && |Show(x)| <= 20
    ensures x in InvalidIdsIn(start, end)
    decreases end - start
  {
    if x < end {
      InvalidIdsInComplete(start, end - 1, x);
    }
  }

  predicate Increasing(s: seq<nat>) {
    forall i, j :: 0 <= i < j < |s| ==> s[i] < s[j]
  }

  predicate Within(a: seq<nat>, b: seq<nat>) {
    forall k :: 0 <= k < |a| ==> a[k] in b
  }

  /** Two increasing sequences with the same elements are equal. */
  lemma {:induction false} IncreasingUnique(a: seq<nat>, b: seq<nat>)
    requires Increasing(a) && Increasing(b) && Within(a, b) && Within(b, a)
    ensures a == b
  {
    if a != [] {
      NonEmptyWithin(a, b);
      HeadsEqual(a, b);
      TailWithin(a, b);
      TailWithin(b, a);
      TailIncreasing(a);
      TailIncreasing(b);
      IncreasingUnique(a[1..], b[1..]);
      ConsTail(a, b);
    } else if b != [] {
      NonEmptyWithin(b, a);
    }
  }

  lemma TailIncreasing(a: seq<nat>)
    requires a != [] && Increasing(a)
    ensures Increasing(a[1..])
  {
  }

  lemma ConsTail(a: seq<nat>, b: seq<nat>)
    requires a != [] && b != [] && a[0] == b[0] && a[1..] == b[1..]
    ensures a == b
  {
    assert a == [a[0]] + a[1..] && b == [b[0]] + b[1..];
  }

  lemma NonEmptyWithin(a: seq<nat>, b: seq<nat>)
    requires a != [] && Within(a, b)
    ensures b != []
  {
    assert a[0] in b;
  }

  lemma HeadsEqual(a: seq<nat>, b: seq<nat>)
    requires a != [] && b != []
    requires Increasing(a) && Increasing(b) && Within(a, b) && Within(b, a)
    ensures a[0] == b[0]
  {
    assert a[0] in b && b[0] in a;
    var i :| 0 <= i < |b| && b[i] == a[0];
    var j :| 0 <= j < |a| && a[j] == b[0];
    assert a[0] <= a[j] && b[0] <= b[i];
  }

  lemma TailWithin(a: seq<nat>, b: seq<nat>)
    requires a != [] && b != [] && a[0] == b[0]
    requires Increasing(a) && Increasing(b) && Within(a, b)
    ensures Within(a[1..], b[1..])
  {
    forall k | 0 <= k < |a| - 1 ensures a[1..][k] in b[1..] {
      assert a[k + 1] in b;
      var m :| 0 <= m < |b| && b[m] == a[k + 1];
      assert a[0] < a[k + 1];
      assert m != 0;
      assert b[1..][m - 1] == b[m];
    }
  }

  /**
   * `findInvalidIds`: for each half length 1..10 whose doubled length is not
   * below start's length nor above end's length + 1, every half of that
   * length is doubled and kept when it lies in [start, end].
   */
  method FindInvalidIds(start: nat, end: nat) returns (ids: seq<nat>)
    ensures forall k :: 0 <= k < |ids| ==> start <= ids[k] <= end && IsInvalidId(ids[k])
    ensures Increasing(ids)
    ensures forall half :: 0 < half && |Show(half)| <= 10 && start <= Doubled(half) <= end ==> Doubled(half) in ids
    ensures ids == InvalidIdsIn(start, end)
  {
    ids := [];
    var startLen, endLen := |Show(start)|, |Show(end)|;
    for halfLen := 1 to 11
      invariant LengthsDone(ids, halfLen, start, end)
    {
      var fullLen := halfLen * 2;
      if fullLen < startLen || fullLen > endLen + 1 {
        SkipLength(ids, halfLen, start, end);
        continue;
      }
      ids := AddHalves(ids, halfLen, start, end);
    }
    CollectedAll(ids, start, end);
  }

  /** The outer loop's state before half length `halfLen`: every doubled number of fewer digits in the range is collected. */
  predicate LengthsDone(ids: seq<nat>, halfLen: nat, start: nat, end: nat)
    requires halfLen >= 1
  {
    && Sound(ids, start, end)
    && Increasing(ids)
    && (forall k :: 0 <= k < |ids| ==> ids[k] < Pow10(2 * (halfLen - 1)))
    && (forall h :: 0 < h < Pow10(halfLen - 1) && start <= Doubled(h) <= end ==> Doubled(h) in ids)
  }

  /** A half length whose doubled numbers are all shorter than start or longer than end adds nothing. */
  lemma SkipLength(ids: seq<nat>, halfLen: nat, start: nat, end: nat)
    requires 1 <= halfLen <= 10 && LengthsDone(ids, halfLen, start, end)
    requires 2 * halfLen < |Show(start)| || 2 * halfLen > |Show(end)| + 1
    ensures LengthsDone(ids, halfLen + 1, start, end)
  {
    Pow10Monotone(2 * (halfLen - 1), 2 * halfLen);
    forall h | Pow10(halfLen - 1) <= h < Pow10(halfLen)
      ensures Doubled(h) < start || end < Doubled(h)
    {
      SkippedLength(h, halfLen, start, end);
    }
  }

  /** The inner loop of `findInvalidIds`: doubles every half of `halfLen` digits, in increasing order. */
  method AddHalves(ids0: seq<nat>, halfLen: nat, start: nat, end: nat) returns (ids: seq<nat>)
    requires 1 <= halfLen <= 10 && LengthsDone(ids0, halfLen, start, end)
    ensures LengthsDone(ids, halfLen + 1, start, end)
  {
    ids := ids0;
    Pow10Monotone(2 * (halfLen - 1), 2 * halfLen - 1);
    Pow10Monotone(2 * halfLen - 1, 2 * halfLen);
    var minHalf := Pow10(halfLen - 1);
    var maxHalf := Pow10(halfLen) - 1;
    HalfLength(minHalf, halfLen);
    DoubledBounds(minHalf);
    assert HalvesDone(ids, minHalf, halfLen, start, end);
    var half := minHalf;
    while half <= maxHalf
      invariant minHalf <= half <= maxHalf + 1
      invariant HalvesDone(ids, half, halfLen, start, end)
    {
      var repeated := Doubled(half);
      ghost var before := ids;
      if start <= repeated <= end {
        ids := ids + [repeated];
      }
      HalfStep(before, ids, half, halfLen, start, end);
      half := half + 1;
    }
  }

  /** The state of the inner loop before trying `half`. */
  predicate HalvesDone(ids: seq<nat>, half: nat, halfLen: nat, start: nat, end: nat)
    requires halfLen >= 1
  {
    && Sound(ids, start, end)
    && Increasing(ids)
    && (forall k :: 0 <= k < |ids| ==> ids[k] < Pow10(2 * halfLen))
    && (half < Pow10(halfLen) && ids != [] ==> ids[|ids| - 1] < Doubled(half))
    && (forall h :: 0 < h < half && start <= Doubled(h) <= end ==> Doubled(h) in ids)
  }

  lemma HalfStep(ids: seq<nat>, ids': seq<nat>, half: nat, halfLen: nat, start: nat, end: nat)
    requires 1 <= halfLen <= 10 && Pow10(halfLen - 1) <= half < Pow10(halfLen)
    requires HalvesDone(ids, half, halfLen, start, end)
    requires ids' == if start <= Doubled(half) <= end then ids + [Doubled(half)] else ids
    ensures HalvesDone(ids', half + 1, halfLen, start, end)
  {
    HalfFacts(half, halfLen);
    if start <= Doubled(half) <= end {
      HalfStepIn(ids, half, halfLen, start, end);
    } else {
      HalfStepOut(ids, half, halfLen, start, end);
    }
  }

  lemma HalfStepOut(ids: seq<nat>, half: nat, halfLen: nat, start: nat, end: nat)
    requires halfLen >= 1 && HalvesDone(ids, half, halfLen, start, end) && half < Pow10(halfLen)
    requires !(start <= Doubled(half) <= end)
    requires half + 1 < Pow10(halfLen) ==> Doubled(half) < Doubled(half + 1)
    ensures HalvesDone(ids, half + 1, halfLen, start, end)
  {
    assert forall h :: 0 < h < half + 1 && start <= Doubled(h) <= end ==> Doubled(h) in ids;
  }

  /** What the inner loop needs to know of one doubled half. */
  lemma HalfFacts(half: nat, halfLen: nat)
    requires 1 <= halfLen <= 10 && Pow10(halfLen - 1) <= half < Pow10(halfLen)
    ensures half > 0 && IsInvalidId(Doubled(half)) && |Show(Doubled(half))| <= 20
    ensures Doubled(half) < Pow10(2 * halfLen)
    ensures half + 1 < Pow10(halfLen) ==> Doubled(half) < Doubled(half + 1)
  {
    HalfLength(half, halfLen);
    DoubledIsInvalid(half);
    DoubledBounds(half);
    if half + 1 < Pow10(halfLen) {
      HalfLength(half + 1, halfLen);
      DoubledMonotone(half, half + 1);
    }
  }

  lemma HalfStepIn(ids: seq<nat>, half: nat, halfLen: nat, start: nat, end: nat)
    requires 1 <= halfLen <= 10 && half > 0
    requires HalvesDone(ids, half, halfLen, start, end) && half < Pow10(halfLen)
    requires start <= Doubled(half) <= end && IsInvalidId(Doubled(half)) && |Show(Doubled(half))| <= 20
    requires Doubled(half) < Pow10(2 * halfLen)
    requires half + 1 < Pow10(halfLen) ==> Doubled(half) < Doubled(half + 1)
    ensures HalvesDone(ids + [Doubled(half)], half + 1, halfLen, start, end)
  {
    var x := Doubled(half);
    AppendIncreasing(ids, x);
    AppendSound(ids, x, start, end);
    AppendComplete(ids, half, start, end);
  }

  lemma AppendSound(ids: seq<nat>, x: nat, start: nat, end: nat)
    requires Sound(ids, start, end)
    requires start <= x <= end && IsInvalidId(x) && |Show(x)| <= 20
    ensures Sound(ids + [x], start, end)
  {
  }

  lemma AppendComplete(ids: seq<nat>, half: nat, start: nat, end: nat)
    requires forall h :: 0 < h < half && start <= Doubled(h) <= end ==> Doubled(h) in ids
    ensures forall h :: 0 < h < half + 1 && start <= Doubled(h) <= end ==> Doubled(h) in ids + [Doubled(half)]
  {
  }

  lemma AppendIncreasing(ids: seq<nat>, x: nat)
    requires Increasing(ids) && (ids != [] ==> ids[|ids| - 1] < x)
    ensures Increasing(ids + [x])
  {
    forall k | 0 <= k < |ids| ensures ids[k] < x {
      assert ids[k] <= ids[|ids| - 1];
    }
  }

  /** Once every half below 10^10 has been tried, the collected IDs are exactly the specified ones. */
  lemma CollectedAll(ids: seq<nat>, start: nat, end: nat)
    requires Sound(ids, start, end) && Increasing(ids)
    requires forall h :: 0 < h < Pow10(10) && start <= Doubled(h) <= end ==> Doubled(h) in ids
    ensures forall half :: 0 < half && |Show(half)| <= 10 && start <= Doubled(half) <= end ==> Doubled(half) in ids
    ensures ids == InvalidIdsIn(start, end)
  {
    forall x | start <= x <= end && IsInvalidId(x) && |Show(x)| <= 20
      ensures x in ids && x in InvalidIdsIn(start, end)
    {
      InvalidIsDoubled(x);
      var s := Show(x);
      var h := Value(s[..|s| / 2]);
      ShowBounds(h);
      Pow10Monotone(|Show(h)|, 10);
      InvalidIdsInComplete(start, end, x);
    }
    forall h | 0 < h && |Show(h)| <= 10 && start <= Doubled(h) <= end
      ensures Doubled(h) in ids
    {
      ShowBounds(h);
      Pow10Monotone(|Show(h)|, 10);
    }
    var spec := InvalidIdsIn(start, end);
    assert Within(ids, spec);
    assert Within(spec, ids);
    IncreasingUnique(ids, spec);
  }

  /** The IDs already collected lie in the range, are invalid and have at most 20 digits. */
  predicate Sound(ids: seq<nat>, start: nat, end: nat) {
    forall k :: 0 <= k < |ids| ==> start <= ids[k] <= end && IsInvalidId(ids[k]) && |Show(ids[k])| <= 20
  }

  /** A doubled length below start's length or above end's length + 1 holds nothing in [start, end]. */
  lemma SkippedLength(h: nat, halfLen: nat, start: nat, end: nat)
    requires halfLen >= 1 && Pow10(halfLen - 1) <= h < Pow10(halfLen)
    requires 2 * halfLen < |Show(start)| || 2 * halfLen > |Show(end)| + 1
    ensures Doubled(h) < start || end < Doubled(h)
  {
    HalfLength(h, halfLen);
    DoubledIsInvalid(h);
    if 2 * halfLen < |Show(start)| {
      ShorterIsSmaller(Doubled(h), start);
    } else {
      ShorterIsSmaller(end, Doubled(h));
    }
  }

  /** All IDs returned, range after range: an ID in two overlapping ranges appears twice. */
  function AllInvalidIds(ranges: seq<(nat, nat)>): seq<nat> {
    if ranges == [] then []
    else
      var last := ranges[|ranges| - 1];
      AllInvalidIds(ranges[..|ranges| - 1]) + InvalidIdsIn(last.0, last.1)
  }

  /** The final loop: collect every returned ID and add it to `totalSum`. */
  method TotalSum(ranges: seq<(nat, nat)>) returns (allIds: seq<nat>, totalSum: int)
    ensures allIds == AllInvalidIds(ranges)
    ensures totalSum == Sum(allIds)
  {
    allIds := [];
    totalSum := 0;
    for r := 0 to |ranges|
      invariant allIds == AllInvalidIds(ranges[..r])
      invariant totalSum == Sum(allIds)
    {
      var ids := FindInvalidIds(ranges[r].0, ranges[r].1);
      AllInvalidIdsSnoc(ranges, r);
      allIds, totalSum := PushAll(allIds, totalSum, ids);
    }
    assert ranges[..|ranges|] == ranges;
  }

  /** The inner loop over one range's IDs: each is pushed and added to the total. */
  method PushAll(allIds0: seq<nat>, totalSum0: int, ids: seq<nat>) returns (allIds: seq<nat>, totalSum: int)
    requires totalSum0 == Sum(allIds0)
    ensures allIds == allIds0 + ids && totalSum == Sum(allIds)
  {
    allIds, totalSum := allIds0, totalSum0;
    for k := 0 to |ids|
      invariant allIds == allIds0 + ids[..k]
      invariant totalSum == Sum(allIds)
    {
      assert ids[..k + 1] == ids[..k] + [ids[k]];
      SumAppend(allIds, [ids[k]]);
      assert Sum([ids[k]]) == ids[k] by {
        assert [ids[k]][..0] == [];
      }
      allIds := allIds + [ids[k]];
      totalSum := totalSum + ids[k];
    }
    assert ids[..|ids|] == ids;
  }

  lemma AllInvalidIdsSnoc(ranges: seq<(nat, nat)>, r: nat)
    requires r < |ranges|
    ensures AllInvalidIds(ranges[..r + 1]) == AllInvalidIds(ranges[..r]) + InvalidIdsIn(ranges[r].0, ranges[r].1)
  {
    assert ranges[..r + 1][..r] == ranges[..r];
  }

  /** An ID occurs in the collected list exactly when some range holds it and it is invalid. */
  lemma {:induction false} AllInvalidIdsMembers(ranges: seq<(nat, nat)>, x: nat)
    requires |Show(x)| <= 20
    ensures x in AllInvalidIds(ranges) <==>
              IsInvalidId(x) && exists k :: 0 <= k < |ranges| && ranges[k].0 <= x <= ranges[k].1
  {
    if ranges != [] {
      var init, last := ranges[..|ranges| - 1], ranges[|ranges| - 1];
      AllInvalidIdsMembers(init, x);
      if last.0 <= x <= last.1 && IsInvalidId(x) {
        InvalidIdsInComplete(last.0, last.1, x);
      }
      if exists k :: 0 <= k < |ranges| - 1 && ranges[k].0 <= x <= ranges[k].1 {
        var k :| 0 <= k < |ranges| - 1 && ranges[k].0 <= x <= ranges[k].1;
        assert init[k] == ranges[k];
      }
      if exists k :: 0 <= k < |init| && init[k].0 <= x <= init[k].1 {
        var k :| 0 <= k < |init| && init[k].0 <= x <= init[k].1;
        assert ranges[k] == init[k];
      }
    }
  }
}
