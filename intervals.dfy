// Inclusive integer ranges and the one-pass merge of a start-sorted list of
// them, as written (with a join distance of 1) in day5/solution_part2.rs and
// (with join distances 0 and 1) in day9/solution2.swift.
module Intervals {

  /** An inclusive range [lo, hi] as the pair (lo, hi). */
  type Range = (int, int)

  predicate WellFormed(r: Range) {
    r.0 <= r.1
  }

  predicate AllWellFormed(rs: seq<Range>) {
    forall k :: 0 <= k < |rs| ==> WellFormed(rs[k])
  }

  predicate InRange(r: Range, x: int) {
    r.0 <= x <= r.1
  }

  /** x lies in at least one of the ranges. */
  predicate Covers(rs: seq<Range>, x: int) {
    exists k :: 0 <= k < |rs| && InRange(rs[k], x)
  }

  /** The sort key of the solvers' sort by range start. */
  function ByStart(r: Range): (int, int) {
    (r.0, 0)
  }

  predicate StartsSorted(rs: seq<Range>) {
    forall i, j :: 0 <= i < j < |rs| ==> rs[i].0 <= rs[j].0
  }

  /** Each range starts more than `gap` after the previous one ends, so no two would be joined. */
  predicate Separated(rs: seq<Range>, gap: int) {
    forall k :: 0 < k < |rs| ==> rs[k - 1].1 + gap < rs[k].0
  }

  /** One step of the merge: extend the last range by r when r starts at most `gap` past its end, else append r. */
  function Absorb(merged: seq<Range>, r: Range, gap: int): seq<Range> {
    if |merged| > 0 && r.0 <= merged[|merged| - 1].1 + gap then
      var last := merged[|merged| - 1];
      merged[..|merged| - 1] + [(last.0, if last.1 >= r.1 then last.1 else r.1)]
    else merged + [r]
  }

  /** The merge of the ranges, taken in order. */
  function Merged(rs: seq<Range>, gap: int): seq<Range> {
    if rs == [] then [] else Absorb(Merged(rs[..|rs| - 1], gap), rs[|rs| - 1], gap)
  }

  /** Some single range contains all of [lo, hi]. */
  predicate Holds(rs: seq<Range>, lo: int, hi: int) {
    exists k :: 0 <= k < |rs| && rs[k].0 <= lo && hi <= rs[k].1
  }

  /**
   * For ranges that are sorted and pairwise more than one apart, [lo, hi]
   * lies inside one of them exactly when every integer in it is covered.
   */
  lemma HoldsIffCovered(rs: seq<Range>, lo: int, hi: int)
    requires StartsSorted(rs) && Separated(rs, 1) && lo <= hi
    ensures Holds(rs, lo, hi) <==> forall x :: lo <= x <= hi ==> Covers(rs, x)
  {
    if forall x :: lo <= x <= hi ==> Covers(rs, x) {
      assert Covers(rs, lo);
      var k :| 0 <= k < |rs| && InRange(rs[k], lo);
      NotCoveredPast(rs, k);
      assert rs[k].0 <= lo && hi <= rs[k].1;
    }
  }

  /** The integer just past a range of a sorted, separated list is covered by none of them. */
  lemma NotCoveredPast(rs: seq<Range>, k: nat)
    requires StartsSorted(rs) && Separated(rs, 1)
    requires k < |rs| && rs[k].0 <= rs[k].1
    ensures !Covers(rs, rs[k].1 + 1)
  {
    var x := rs[k].1 + 1;
    forall j | 0 <= j < |rs| ensures !InRange(rs[j], x) {
      if j > k {
        assert rs[k + 1].0 <= rs[j].0;
      } else if j < k {
        assert rs[j].1 + 1 < rs[j + 1].0 <= rs[k].0;
      }
    }
  }

  /**
   * Walks the start-sorted ranges once, extending the last merged range while
   * the next one starts at most `gap` past its end, and appending otherwise.
   */
  method MergeSorted(ranges: seq<Range>, gap: nat) returns (merged: seq<Range>)
    requires gap <= 1
    requires StartsSorted(ranges)
    ensures merged == Merged(ranges, gap)
    ensures |merged| <= |ranges|
    ensures |ranges| > 0 ==> |merged| > 0
    ensures StartsSorted(merged)
    ensures Separated(merged, gap)
    ensures AllWellFormed(ranges) ==> AllWellFormed(merged)
    ensures AllWellFormed(ranges) ==> CoveredSet(merged) == CoveredSet(ranges)
  {
    merged := [];
    for idx := 0 to |ranges|
      invariant merged == Merged(ranges[..idx], gap)
    {
      var (start, end) := ranges[idx];
      ghost var next := Absorb(merged, ranges[idx], gap);
      assert ranges[..idx + 1][..idx] == ranges[..idx];
      assert Merged(ranges[..idx + 1], gap) == next;
      if |merged| > 0 && start <= merged[|merged| - 1].1 + gap {
        var last := merged[|merged| - 1];
        merged := merged[..|merged| - 1] + [(last.0, if last.1 >= end then last.1 else end)];
      } else {
        merged := merged + [(start, end)];
      }
      assert merged == next;
    }
    assert ranges[..|ranges|] == ranges;
    MergedShape(ranges, gap);
    if AllWellFormed(ranges) {
      MergedCoverage(ranges, gap);
    }
  }

  /** The merge of start-sorted ranges is start-sorted and separated by more than `gap`. */
  lemma {:induction false} MergedShape(ranges: seq<Range>, gap: nat)
    requires gap <= 1
    requires StartsSorted(ranges)
    ensures |Merged(ranges, gap)| <= |ranges|
    ensures |ranges| > 0 ==> |Merged(ranges, gap)| > 0
    ensures |ranges| > 0 ==> Merged(ranges, gap)[|Merged(ranges, gap)| - 1].0 <= ranges[|ranges| - 1].0
    ensures StartsSorted(Merged(ranges, gap))
    ensures Separated(Merged(ranges, gap), gap)
  {
    if ranges != [] {
      var init, r := ranges[..|ranges| - 1], ranges[|ranges| - 1];
      assert StartsSorted(init);
      MergedShape(init, gap);
      var m := Merged(init, gap);
      assert Merged(ranges, gap) == Absorb(m, r, gap);
      if |m| > 0 {
        assert m[|m| - 1].0 <= init[|init| - 1].0 <= r.0;
      }
      if |m| > 0 && r.0 <= m[|m| - 1].1 + gap {
        var last := m[|m| - 1];
        JoinKeepsOrder(m, (last.0, if last.1 >= r.1 then last.1 else r.1), gap);
      } else {
        PushKeepsOrder(m, r, gap);
      }
    }
  }

  /** Merging well-formed ranges keeps them well formed and covers exactly the integers the input covers. */
  lemma {:induction false} MergedCoverage(ranges: seq<Range>, gap: nat)
    requires gap <= 1
    requires StartsSorted(ranges) && AllWellFormed(ranges)
    ensures AllWellFormed(Merged(ranges, gap))
    ensures CoveredSet(Merged(ranges, gap)) == CoveredSet(ranges)
  {
    if ranges != [] {
      var init, r := ranges[..|ranges| - 1], ranges[|ranges| - 1];
      assert StartsSorted(init) && AllWellFormed(init) && WellFormed(r);
      MergedShape(init, gap);
      MergedCoverage(init, gap);
      var m := Merged(init, gap);
      assert Merged(ranges, gap) == Absorb(m, r, gap);
      if |m| > 0 {
        assert m[|m| - 1].0 <= init[|init| - 1].0 <= r.0;
      }
      assert ranges == init + [r];
      MergedCovers(m, init, r, gap);
    }
  }

  /** One merge step keeps the ranges well formed and the covered integers equal to those of the input so far. */
  lemma MergedCovers(m: seq<Range>, done: seq<Range>, r: Range, gap: nat)
    requires gap <= 1 && WellFormed(r) && AllWellFormed(m)
    requires CoveredSet(m) == CoveredSet(done)
    requires |m| > 0 ==> m[|m| - 1].0 <= r.0
    ensures AllWellFormed(Absorb(m, r, gap))
    ensures CoveredSet(Absorb(m, r, gap)) == CoveredSet(done + [r])
  {
    if |m| > 0 && r.0 <= m[|m| - 1].1 + gap {
      JoinCovered(m, done, r, gap);
    } else {
      CoveredSnoc(m, r);
      CoveredSnoc(done, r);
    }
  }

  lemma JoinCovered(merged: seq<Range>, done: seq<Range>, r: Range, gap: nat)
    requires gap <= 1 && |merged| > 0 && WellFormed(r)
    requires merged[|merged| - 1].0 <= r.0 <= merged[|merged| - 1].1 + gap
    requires CoveredSet(merged) == CoveredSet(done)
    ensures var last := merged[|merged| - 1];
            CoveredSet(merged[..|merged| - 1] + [(last.0, if last.1 >= r.1 then last.1 else r.1)])
              == CoveredSet(done + [r])
  {
    var last := merged[|merged| - 1];
    var joined := (last.0, if last.1 >= r.1 then last.1 else r.1);
    var init := merged[..|merged| - 1];
    assert merged == init + [last];
    CoveredSnoc(init, last);
    CoveredSnoc(init, joined);
    CoveredSnoc(done, r);
    JoinInterval(last, r, gap);
  }

  lemma JoinKeepsOrder(merged: seq<Range>, joined: Range, gap: nat)
    requires |merged| > 0 && StartsSorted(merged) && Separated(merged, gap)
    requires joined.0 == merged[|merged| - 1].0 && joined.1 >= merged[|merged| - 1].1
    ensures StartsSorted(merged[..|merged| - 1] + [joined])
    ensures Separated(merged[..|merged| - 1] + [joined], gap)
  {
  }

  lemma PushKeepsOrder(merged: seq<Range>, r: Range, gap: nat)
    requires StartsSorted(merged) && Separated(merged, gap)
    requires |merged| > 0 ==> merged[|merged| - 1].0 <= r.0 && merged[|merged| - 1].1 + gap < r.0
    ensures StartsSorted(merged + [r]) && Separated(merged + [r], gap)
  {
  }

  lemma CoveredSnoc(rs: seq<Range>, r: Range)
    ensures CoveredSet(rs + [r]) == CoveredSet(rs) + Interval(r)
  {
    assert (rs + [r])[..|rs|] == rs;
  }

  /** Extending `last` to absorb r, which starts inside it or right after it, covers the same integers. */
  lemma JoinInterval(last: Range, r: Range, gap: nat)
    requires gap <= 1 && WellFormed(r)
    requires last.0 <= r.0 <= last.1 + gap
    ensures Interval((last.0, if last.1 >= r.1 then last.1 else r.1)) == Interval(last) + Interval(r)
  {
    var joined := (last.0, if last.1 >= r.1 then last.1 else r.1);
    forall x ensures x in Interval(joined) <==> x in Interval(last) + Interval(r) {
    }
  }

  lemma CoversCons(r: Range, rs: seq<Range>, x: int)
    ensures Covers([r] + rs, x) <==> InRange(r, x) || Covers(rs, x)
  {
    if Covers(rs, x) {
      var k :| 0 <= k < |rs| && InRange(rs[k], x);
      assert ([r] + rs)[k + 1] == rs[k];
    }
    if InRange(r, x) {
      assert ([r] + rs)[0] == r;
    }
    if Covers([r] + rs, x) {
      var k :| 0 <= k < |rs| + 1 && InRange(([r] + rs)[k], x);
      if k > 0 {
        assert ([r] + rs)[k] == rs[k - 1];
      }
    }
  }

  lemma CoversSnoc(rs: seq<Range>, r: Range, x: int)
    ensures Covers(rs + [r], x) <==> Covers(rs, x) || InRange(r, x)
  {
    if Covers(rs, x) {
      var k :| 0 <= k < |rs| && InRange(rs[k], x);
      assert (rs + [r])[k] == rs[k];
    }
    if InRange(r, x) {
      assert (rs + [r])[|rs|] == r;
    }
    if Covers(rs + [r], x) {
      var k :| 0 <= k < |rs| + 1 && InRange((rs + [r])[k], x);
      if k < |rs| {
        assert (rs + [r])[k] == rs[k];
      }
    }
  }

  /** The integers covered by a list of ranges, as a finite set. */
  function CoveredSet(rs: seq<Range>): set<int> {
    if rs == [] then {} else CoveredSet(rs[..|rs| - 1]) + Interval(rs[|rs| - 1])
  }

  /** `CoveredSet` holds exactly the integers some range covers. */
  lemma {:induction false} CoveredSetCovers(rs: seq<Range>, x: int)
    ensures x in CoveredSet(rs) <==> Covers(rs, x)
  {
    if rs != [] {
      var init, last := rs[..|rs| - 1], rs[|rs| - 1];
      assert rs == init + [last];
      CoveredSetCovers(init, x);
      CoversSnoc(init, last, x);
    }
  }

  function Interval(r: Range): (s: set<int>)
    ensures forall x :: x in s <==> InRange(r, x)
    decreases r.1 - r.0
  {
    if r.1 < r.0 then {} else Interval((r.0, r.1 - 1)) + {r.1}
  }

  /** A well-formed range [lo, hi] holds hi - lo + 1 integers. */
  lemma {:induction false} IntervalSize(r: Range)
    requires WellFormed(r)
    ensures |Interval(r)| == r.1 - r.0 + 1
    decreases r.1 - r.0
  {
    if r.0 < r.1 {
      IntervalSize((r.0, r.1 - 1));
    } else {
      assert Interval((r.0, r.1 - 1)) == {};
    }
  }

  /** The sum of hi - lo + 1 over the ranges. */
  function TotalLength(rs: seq<Range>): int {
    if rs == [] then 0 else TotalLength(rs[..|rs| - 1]) + (rs[|rs| - 1].1 - rs[|rs| - 1].0 + 1)
  }

  /** Disjoint ranges in increasing order cover exactly as many integers as their lengths add up to. */
  lemma {:induction false} SeparatedSize(rs: seq<Range>)
    requires AllWellFormed(rs) && Separated(rs, 0)
    ensures |CoveredSet(rs)| == TotalLength(rs)
    ensures rs != [] ==> forall x :: x in CoveredSet(rs) ==> x <= rs[|rs| - 1].1
  {
    if rs != [] {
      var init, last := rs[..|rs| - 1], rs[|rs| - 1];
      assert AllWellFormed(init) && Separated(init, 0);
      SeparatedSize(init);
      IntervalSize(last);
      assert CoveredSet(init) !! Interval(last) by {
        if init != [] {
          assert init[|init| - 1].1 < last.0;
          forall x | x in CoveredSet(init) ensures x !in Interval(last) {
          }
        }
      }
    }
  }

  /** The covered integers depend only on which ranges are present, not on their order or repetition. */
  lemma CoveredSameElements(a: seq<Range>, b: seq<Range>)
    requires forall k :: 0 <= k < |a| ==> a[k] in b
    requires forall k :: 0 <= k < |b| ==> b[k] in a
    ensures CoveredSet(a) == CoveredSet(b)
  {
    forall x ensures x in CoveredSet(a) <==> x in CoveredSet(b) {
      CoveredSetCovers(a, x);
      CoveredSetCovers(b, x);
      if Covers(a, x) {
        var k :| 0 <= k < |a| && InRange(a[k], x);
        var j :| 0 <= j < |b| && b[j] == a[k];
      }
      if Covers(b, x) {
        var k :| 0 <= k < |b| && InRange(b[k], x);
        var j :| 0 <= j < |a| && a[j] == b[k];
      }
    }
  }
}
