// Day 5, part 1 (day5/solution.rs): which ingredient IDs are fresh, i.e. lie
// in at least one inclusive ID range. The parsing of the two input sections is
// shared with part 2.
module Day5Fresh {
  import opened Optional
  import opened Text
  import opened Intervals

  /** The largest `u64`. */
  const U64Max: nat := 0xFFFF_FFFF_FFFF_FFFF

  /**
   * `str::parse::<u64>()`: an unsigned decimal whose value fits in 64 bits;
   * a larger value is an `Err`, which the solver unwraps into a panic.
   */
  function ParseU64(s: string): (r: Option<nat>)
    ensures r.Some? ==> r.value <= U64Max && ParseUnsigned(s) == r
    ensures r.None? <==> ParseUnsigned(s).None? || ParseUnsigned(s).value > U64Max
  {
    match ParseUnsigned(s)
    case Some(v) => if v <= U64Max then Some(v) else None
    case None => None
  }

  /** One "a-b" line: split on '-', every piece must parse as a u64; the first two are the bounds. */
  function ParseRangeLine(line: string): (r: Option<Range>)
    ensures r.Some? ==> 0 <= r.value.0 <= U64Max && 0 <= r.value.1 <= U64Max
    ensures r.Some? <==> |Split(line, '-')| >= 2 && forall k :: 0 <= k < |Split(line, '-')| ==> ParseU64(Split(line, '-')[k]).Some?
    ensures r.Some? ==> r.value == (ParseU64(Split(line, '-')[0]).value, ParseU64(Split(line, '-')[1]).value)
  {
    var pieces := Split(line, '-');
    if |pieces| >= 2 && forall k :: 0 <= k < |pieces| ==> ParseU64(pieces[k]).Some? then
      Some((ParseU64(pieces[0]).value, ParseU64(pieces[1]).value))
    else
      None
  }

  /** The number of non-empty lines. */
  function NonEmptyLines(lines: seq<string>): nat {
    if lines == [] then 0 else (if lines[0] == [] then 0 else 1) + NonEmptyLines(lines[1..])
  }

  /** Some non-empty line fails to parse as a range. */
  predicate BadRangeLine(lines: seq<string>) {
    exists k :: 0 <= k < |lines| && lines[k] != [] && ParseRangeLine(lines[k]).None?
  }

  /** Some non-empty line is not a number that fits in a u64. */
  predicate BadIdLine(lines: seq<string>) {
    exists k :: 0 <= k < |lines| && lines[k] != [] && ParseU64(lines[k]).None?
  }

  /**
   * The range section: empty lines are skipped, and any malformed line aborts
   * (the source panics); otherwise one range per non-empty line.
   */
  function ParseRanges(lines: seq<string>): (r: Option<seq<Range>>)
    ensures r.None? <==> BadRangeLine(lines)
    ensures r.Some? ==> |r.value| == NonEmptyLines(lines)
  {
    if lines == [] then Some([])
    else
      var rest := ParseRanges(lines[1..]);
      BadRangeCons(lines);
      if lines[0] == [] then rest
      else match (ParseRangeLine(lines[0]), rest)
        case (Some(r), Some(rs)) => Some([r] + rs)
        case _ => None
  }

  /**
   * The ID section: empty lines are skipped, and any line that is not a
   * number, or is one above u64::MAX, aborts; otherwise one ID per non-empty line.
   */
  function ParseIds(lines: seq<string>): (r: Option<seq<nat>>)
    ensures r.None? <==> BadIdLine(lines)
    ensures r.Some? ==> |r.value| == NonEmptyLines(lines)
    ensures r.Some? ==> forall k :: 0 <= k < |r.value| ==> r.value[k] <= U64Max
  {
    if lines == [] then Some([])
    else
      var rest := ParseIds(lines[1..]);
      BadIdCons(lines);
      if lines[0] == [] then rest
      else match (ParseU64(lines[0]), rest)
        case (Some(id), Some(ids)) =>
          assert forall k :: 1 <= k < |[id] + ids| ==> ([id] + ids)[k] == ids[k - 1];
          Some([id] + ids)
        case _ => None
  }

  /** A bad range line is the first line or a bad line of the rest. */
  lemma BadRangeCons(lines: seq<string>)
    requires lines != []
    ensures BadRangeLine(lines) <==> (lines[0] != [] && ParseRangeLine(lines[0]).None?) || BadRangeLine(lines[1..])
  {
    if BadRangeLine(lines[1..]) {
      var k :| 0 <= k < |lines[1..]| && lines[1..][k] != [] && ParseRangeLine(lines[1..][k]).None?;
      assert lines[k + 1] == lines[1..][k];
    }
    if BadRangeLine(lines) {
      var k :| 0 <= k < |lines| && lines[k] != [] && ParseRangeLine(lines[k]).None?;
      if k > 0 {
        assert lines[1..][k - 1] == lines[k];
      }
    }
  }

  /** A bad ID line is the first line or a bad line of the rest. */
  lemma BadIdCons(lines: seq<string>)
    requires lines != []
    ensures BadIdLine(lines) <==> (lines[0] != [] && ParseU64(lines[0]).None?) || BadIdLine(lines[1..])
  {
    if BadIdLine(lines[1..]) {
      var k :| 0 <= k < |lines[1..]| && lines[1..][k] != [] && ParseU64(lines[1..][k]).None?;
      assert lines[k + 1] == lines[1..][k];
    }
    if BadIdLine(lines) {
      var k :| 0 <= k < |lines| && lines[k] != [] && ParseU64(lines[k]).None?;
      if k > 0 {
        assert lines[1..][k - 1] == lines[k];
      }
    }
  }

  /** Whether some range holds the ID, both bounds included: `ranges.iter().any(|&(start, end)| id >= start && id <= end)`. */
  function AnyContains(ranges: seq<Range>, id: int): (b: bool)
    ensures b <==> Covers(ranges, id)
  {
    if ranges == [] then false
    else
      CoversCons(ranges, id);
      (ranges[0].0 <= id && id <= ranges[0].1) || AnyContains(ranges[1..], id)
  }

  /** A range list covers x when its first range or the rest does. */
  lemma CoversCons(ranges: seq<Range>, x: int)
    requires ranges != []
    ensures Covers(ranges, x) <==> InRange(ranges[0], x) || Covers(ranges[1..], x)
  {
    if Covers(ranges[1..], x) {
      var k :| 0 <= k < |ranges[1..]| && InRange(ranges[1..][k], x);
      assert InRange(ranges[k + 1], x);
    }
    if Covers(ranges, x) {
      var k :| 0 <= k < |ranges| && InRange(ranges[k], x);
      if k > 0 {
        assert InRange(ranges[1..][k - 1], x);
      }
    }
  }

  /**
   * The number of IDs, repeats included, that some range contains: at most the
   * number of IDs, and all of them exactly when every ID is covered.
   */
  function FreshCount(ranges: seq<Range>, ids: seq<nat>): (n: nat)
    ensures n <= |ids|
    ensures n == |ids| <==> forall k :: 0 <= k < |ids| ==> Covers(ranges, ids[k])
  {
    if ids == [] then 0
    else
      assert forall k :: 1 <= k < |ids| ==> ids[k] == ids[1..][k - 1];
      (if AnyContains(ranges, ids[0]) then 1 else 0) + FreshCount(ranges, ids[1..])
  }

  /**
   * The whole computation: parse both sections and count; None exactly where
   * the source panics, otherwise at most one fresh ID per non-empty ID line.
   */
  function Solve(rangeLines: seq<string>, idLines: seq<string>): (r: Option<nat>)
    ensures r.None? <==> BadRangeLine(rangeLines) || BadIdLine(idLines)
    ensures r.Some? ==> r.value <= NonEmptyLines(idLines)
  {
    match (ParseRanges(rangeLines), ParseIds(idLines))
    case (Some(ranges), Some(ids)) => Some(FreshCount(ranges, ids))
    case _ => None
  }

  /** Counting is additive over the ID list, so an ID listed twice is counted twice. */
  lemma {:induction false} FreshCountAppend(ranges: seq<Range>, a: seq<nat>, b: seq<nat>)
    ensures FreshCount(ranges, a + b) == FreshCount(ranges, a) + FreshCount(ranges, b)
  {
    if a != [] {
      assert (a + b)[0] == a[0] && (a + b)[1..] == a[1..] + b;
      FreshCountAppend(ranges, a[1..], b);
    } else {
      assert a + b == b;
    }
  }

  /** The count depends only on which ranges occur: not on their order, nor on repeated ranges. */
  lemma {:induction false} FreshCountSameRanges(r1: seq<Range>, r2: seq<Range>, ids: seq<nat>)
    requires forall k :: 0 <= k < |r1| ==> r1[k] in r2
    requires forall k :: 0 <= k < |r2| ==> r2[k] in r1
    ensures FreshCount(r1, ids) == FreshCount(r2, ids)
  {
    if ids != [] {
      FreshCountSameRanges(r1, r2, ids[1..]);
      CoveredSameElements(r1, r2);
      CoveredSetCovers(r1, ids[0]);
      CoveredSetCovers(r2, ids[0]);
    }
  }

  /** The line "a-b" splits on '-' into the two numbers' digit strings. */
  lemma SplitShown(a: nat, b: nat)
    ensures Split(Decimal.Show(a) + "-" + Decimal.Show(b), '-') == [Decimal.Show(a), Decimal.Show(b)]
  {
    var line := Decimal.Show(a) + "-" + Decimal.Show(b);
    var sa, sb := Decimal.Show(a), Decimal.Show(b);
    assert '-' !in sa && '-' !in sb by {
      assert forall i :: 0 <= i < |sa| ==> Decimal.IsDigit(sa[i]);
      assert forall i :: 0 <= i < |sb| ==> Decimal.IsDigit(sb[i]);
    }
    assert line[|sa|] == '-' && line[..|sa|] == sa && line[|sa| + 1..] == sb;
    assert Find(line, '-') == Some(|sa|) by {
      assert line[..|sa|] == sa;
    }
  }

  /** A line written as "a-b" from two u64 values reads back as the range (a, b). */
  lemma ParseRangeLineShow(a: nat, b: nat)
    requires a <= U64Max && b <= U64Max
    ensures ParseRangeLine(Decimal.Show(a) + "-" + Decimal.Show(b)) == Some((a, b))
  {
    SplitShown(a, b);
    ParseShow(a);
    ParseShow(b);
  }

  /**
   * A number above u64::MAX makes `unwrap` panic: as a bound of a range line,
   * and as an ID line, where it fails the whole computation.
   */
  lemma AboveU64Panics(n: nat, b: nat, rangeLines: seq<string>)
    requires n > U64Max
    ensures ParseRangeLine(Decimal.Show(n) + "-" + Decimal.Show(b)) == None
    ensures ParseRangeLine(Decimal.Show(b) + "-" + Decimal.Show(n)) == None
    ensures Solve(rangeLines, [Decimal.Show(n)]) == None
  {
    SplitShown(n, b);
    SplitShown(b, n);
    ParseShow(n);
    assert BadIdLine([Decimal.Show(n)]) by {
      assert [Decimal.Show(n)][0] != [];
    }
  }

  /** Empty lines in the range section change nothing. */
  lemma {:induction false} ParseRangesSkipsEmpty(a: seq<string>, b: seq<string>)
    ensures ParseRanges(a + [""] + b) == ParseRanges(a + b)
  {
    if a == [] {
      assert a + [""] + b == [""] + b && a + b == b;
      assert ([""] + b)[1..] == b;
    } else {
      assert (a + [""] + b)[0] == a[0] && (a + [""] + b)[1..] == a[1..] + [""] + b;
      assert (a + b)[0] == a[0] && (a + b)[1..] == a[1..] + b;
      ParseRangesSkipsEmpty(a[1..], b);
    }
  }
}

// Day 5, part 2 (day5/solution_part2.rs): sort the ranges by start, merge
// overlapping or adjacent ones, and count the IDs they cover.
module Day5Merge {
  import opened Sorting
  import opened Intervals

  /**
   * Sorts by start (`sort_by_key`, stable), merges with join distance 1 and sums
   * `end - start + 1` over the merged ranges.
   */
  method CountCovered(ranges: seq<Range>) returns (merged: seq<Range>, total: int)
    ensures |merged| <= |ranges|
    ensures StartsSorted(merged) && Separated(merged, 1)
    ensures AllWellFormed(ranges) ==> AllWellFormed(merged)
    ensures AllWellFormed(ranges) ==> CoveredSet(merged) == CoveredSet(ranges)
    ensures AllWellFormed(ranges) ==> total == |CoveredSet(ranges)|
  {
    var sorted := SortBy(ranges, ByStart);
    assert StartsSorted(sorted) by {
      assert SortedBy(sorted, ByStart);
    }
    merged := MergeSorted(sorted, 1);
    total := TotalLength(merged);
    forall k | 0 <= k < |sorted| ensures sorted[k] in ranges {
      SortByElements(ranges, ByStart, sorted[k]);
    }
    forall k | 0 <= k < |ranges| ensures ranges[k] in sorted {
      SortByElements(ranges, ByStart, ranges[k]);
    }
    CoveredSameElements(sorted, ranges);
    if AllWellFormed(ranges) {
      assert AllWellFormed(sorted);
      SeparatedSize(merged);
    }
  }
}
