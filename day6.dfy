// Day 6 (day6/solution.rs): a worksheet of arithmetic problems laid out in
// columns. A column is a separator when every line has a space there (or is
// shorter); each maximal run of other columns is one problem, whose operator
// sits in the last line. Part 1 reads each line's slice of the run as one
// number; part 2 reads each column of the run top to bottom as one number.
// The answer is the sum over problems of their product ('*') or sum ('+').
// Lines are taken to be ASCII, so byte length and character count agree.
module Day6Worksheet {
  import opened Optional
  import opened Decimal
  import opened Text
  import opened Sums

  datatype Problem = Problem(numbers: seq<int>, operator: char)

  const I64Min: int := -0x8000_0000_0000_0000
  const I64Max: int := 0x7FFF_FFFF_FFFF_FFFF

  /** `parse::<i64>()`: an optional sign, digits, and a value that fits in 64 bits. */
  function ParseI64(s: string): (r: Option<int>)
    ensures r.Some? ==> I64Min <= r.value <= I64Max && ParseSigned(s) == r
    ensures ParseSigned(s).Some? && I64Min <= ParseSigned(s).value <= I64Max ==> r == ParseSigned(s)
  {
    match ParseSigned(s)
    case Some(v) => if I64Min <= v <= I64Max then Some(v) else None
    case None => None
  }

  /** Every line is blank at this column, or too short to reach it. */
  predicate IsSeparator(lines: seq<string>, col: nat) {
    forall i :: 0 <= i < |lines| && col < |lines[i]| ==> lines[i][col] == ' '
  }

  /** The scan over the lines for one column, stopping at the first non-blank. */
  method ColumnIsSeparator(lines: seq<string>, col: nat) returns (sep: bool)
    ensures sep == IsSeparator(lines, col)
  {
    var i := 0;
    while i < |lines|
      invariant 0 <= i <= |lines|
      invariant forall k :: 0 <= k < i && col < |lines[k]| ==> lines[k][col] == ' '
    {
      if col < |lines[i]| && lines[i][col] != ' ' {
        return false;
      }
      i := i + 1;
    }
    return true;
  }

  /** The first separator column at or after `start`, or `width`. */
  function RunEnd(lines: seq<string>, start: nat, width: nat): (e: nat)
    requires start <= width
    ensures start <= e <= width
    ensures forall c :: start <= c < e ==> !IsSeparator(lines, c)
    ensures e < width ==> IsSeparator(lines, e)
    decreases width - start
  {
    if start == width || IsSeparator(lines, start) then start else RunEnd(lines, start + 1, width)
  }

  /** The runs of non-separator columns from `col` on, as (start, end) pairs, end exclusive. */
  function RunsFrom(lines: seq<string>, col: nat, width: nat): seq<(nat, nat)>
    requires col <= width
    decreases width - col
  {
    if col == width then []
    else if IsSeparator(lines, col) then RunsFrom(lines, col + 1, width)
    else
      var e := RunEnd(lines, col, width);
      [(col, e)] + RunsFrom(lines, e, width)
  }

  /** The maximal runs of a run list: ordered, non-empty, bounded by separators, covering every other column. */
  predicate MaximalRuns(lines: seq<string>, col: nat, width: nat, runs: seq<(nat, nat)>) {
    && (forall k :: 0 <= k < |runs| ==> col <= runs[k].0 < runs[k].1 <= width)
    && (forall k :: 0 <= k < |runs| ==> forall c :: runs[k].0 <= c < runs[k].1 ==> !IsSeparator(lines, c))
    && (forall k :: 0 <= k < |runs| ==> runs[k].1 == width || IsSeparator(lines, runs[k].1))
    && (forall k :: 0 <= k < |runs| ==> runs[k].0 == col || IsSeparator(lines, runs[k].0 - 1))
    && (forall k :: 0 <= k < |runs| - 1 ==> runs[k].1 < runs[k + 1].0)
    && (forall c :: col <= c < width && !IsSeparator(lines, c) ==>
          exists k :: 0 <= k < |runs| && runs[k].0 <= c < runs[k].1)
  }

  /** The problems are exactly the maximal runs of non-separator columns, left to right and disjoint. */
  lemma {:induction false} RunsAreMaximal(lines: seq<string>, col: nat, width: nat)
    requires col <= width
    ensures MaximalRuns(lines, col, width, RunsFrom(lines, col, width))
    decreases width - col
  {
    if col < width {
      if IsSeparator(lines, col) {
        RunsAreMaximal(lines, col + 1, width);
        SkipSeparator(lines, col, width, RunsFrom(lines, col + 1, width));
      } else {
        var e := RunEnd(lines, col, width);
        RunsAreMaximal(lines, e, width);
        PrependRun(lines, col, width, RunsFrom(lines, e, width));
      }
    }
  }

  lemma SkipSeparator(lines: seq<string>, col: nat, width: nat, runs: seq<(nat, nat)>)
    requires col < width && IsSeparator(lines, col)
    requires MaximalRuns(lines, col + 1, width, runs)
    ensures MaximalRuns(lines, col, width, runs)
  {
  }

  lemma PrependRun(lines: seq<string>, col: nat, width: nat, rest: seq<(nat, nat)>)
    requires col < width && !IsSeparator(lines, col)
    requires MaximalRuns(lines, RunEnd(lines, col, width), width, rest)
    ensures MaximalRuns(lines, col, width, [(col, RunEnd(lines, col, width))] + rest)
  {
    var runs := [(col, RunEnd(lines, col, width))] + rest;
    PrependCovers(lines, col, width, rest, runs);
    PrependStarts(lines, col, width, rest);
    PrependBounds(lines, col, width, rest, runs);
  }

  lemma PrependBounds(lines: seq<string>, col: nat, width: nat, rest: seq<(nat, nat)>, runs: seq<(nat, nat)>)
    requires col < width && !IsSeparator(lines, col)
    requires MaximalRuns(lines, RunEnd(lines, col, width), width, rest)
    requires runs == [(col, RunEnd(lines, col, width))] + rest
    ensures forall k :: 0 <= k < |runs| ==> col <= runs[k].0 < runs[k].1 <= width
    ensures forall k :: 0 <= k < |runs| ==> forall c :: runs[k].0 <= c < runs[k].1 ==> !IsSeparator(lines, c)
    ensures forall k :: 0 <= k < |runs| ==> runs[k].1 == width || IsSeparator(lines, runs[k].1)
    ensures forall k :: 0 <= k < |runs| - 1 ==> runs[k].1 < runs[k + 1].0
  {
    var e := RunEnd(lines, col, width);
    forall k | 0 <= k < |runs|
      ensures col <= runs[k].0 < runs[k].1 <= width
      ensures forall c :: runs[k].0 <= c < runs[k].1 ==> !IsSeparator(lines, c)
      ensures runs[k].1 == width || IsSeparator(lines, runs[k].1)
    {
      if k > 0 {
        assert runs[k] == rest[k - 1];
      }
    }
    forall k | 0 <= k < |runs| - 1 ensures runs[k].1 < runs[k + 1].0 {
      assert runs[k + 1] == rest[k];
      if k > 0 {
        assert runs[k] == rest[k - 1];
      }
    }
  }

  lemma PrependCovers(lines: seq<string>, col: nat, width: nat, rest: seq<(nat, nat)>, runs: seq<(nat, nat)>)
    requires col < width && !IsSeparator(lines, col)
    requires MaximalRuns(lines, RunEnd(lines, col, width), width, rest)
    requires runs == [(col, RunEnd(lines, col, width))] + rest
    ensures forall c :: col <= c < width && !IsSeparator(lines, c) ==>
              exists k :: 0 <= k < |runs| && runs[k].0 <= c < runs[k].1
  {
    var e := RunEnd(lines, col, width);
    forall c | col <= c < width && !IsSeparator(lines, c)
      ensures exists k :: 0 <= k < |runs| && runs[k].0 <= c < runs[k].1
    {
      if c < e {
        assert runs[0].0 <= c < runs[0].1;
      } else {
        var k :| 0 <= k < |rest| && rest[k].0 <= c < rest[k].1;
        assert runs[k + 1] == rest[k];
      }
    }
  }

  lemma PrependStarts(lines: seq<string>, col: nat, width: nat, rest: seq<(nat, nat)>)
    requires col < width && !IsSeparator(lines, col)
    requires MaximalRuns(lines, RunEnd(lines, col, width), width, rest)
    ensures var runs := [(col, RunEnd(lines, col, width))] + rest;
            forall k :: 0 <= k < |runs| ==> runs[k].0 == col || IsSeparator(lines, runs[k].0 - 1)
  {
    var e := RunEnd(lines, col, width);
    var runs := [(col, e)] + rest;
    forall k | 0 <= k < |runs| ensures runs[k].0 == col || IsSeparator(lines, runs[k].0 - 1) {
      if k > 0 {
        assert runs[k] == rest[k - 1];
        assert rest[k - 1].0 < width && !IsSeparator(lines, rest[k - 1].0);
      }
    }
  }

  /** The inner `while`: advance from `start` to the next separator column or `width`. */
  method ScanRunEnd(lines: seq<string>, start: nat, width: nat) returns (end: nat)
    requires start <= width
    ensures end == RunEnd(lines, start, width)
  {
    end := start;
    while end < width
      invariant start <= end <= width
      invariant RunEnd(lines, start, width) == RunEnd(lines, end, width)
    {
      var allSpace := ColumnIsSeparator(lines, end);
      if allSpace {
        break;
      }
      end := end + 1;
    }
  }

  /** `chars().skip(start).take(end - start)`. */
  function Slice(line: string, start: nat, end: nat): (s: string)
    requires start <= end
    ensures |s| <= end - start
  {
    var a := if start <= |line| then start else |line|;
    var b := if end <= |line| then end else |line|;
    line[a..b]
  }

  /** Part 1 operands: the trimmed slices of the first n lines that parse as 64-bit integers, top to bottom. */
  function Operands1(lines: seq<string>, n: nat, start: nat, end: nat): (ns: seq<int>)
    requires n <= |lines| && start <= end
    ensures |ns| <= n
  {
    if n == 0 then []
    else Operands1(lines, n - 1, start, end) + Operand1(lines[n - 1], start, end)
  }

  /** The operand one line contributes: its trimmed slice, when that parses. */
  function Operand1(line: string, start: nat, end: nat): seq<int>
    requires start <= end
  {
    match ParseI64(Trim(Slice(line, start, end)))
    case Some(v) => [v]
    case None => []
  }

  /** One line of `solve_part1`'s loop over a run: the operand it may add. */
  lemma Operands1Step(lines: seq<string>, i: nat, start: nat, end: nat, trimmed: string)
    requires i < |lines| && start <= end && trimmed == Trim(Slice(lines[i], start, end))
    ensures trimmed == [] || ParseI64(trimmed).None? ==> Operands1(lines, i + 1, start, end) == Operands1(lines, i, start, end)
    ensures trimmed != [] && ParseI64(trimmed).Some? ==>
              Operands1(lines, i + 1, start, end) == Operands1(lines, i, start, end) + [ParseI64(trimmed).value]
  {
    if trimmed == [] {
      BlankIsNoNumber();
    }
    var init := Operands1(lines, i, start, end);
    assert init + [] == init;
  }

  /** A blank field is no operand: the empty string does not parse. */
  lemma BlankIsNoNumber()
    ensures ParseI64([]) == None
  {
    assert ParseUnsigned([]) == None;
  }

  /** Part 1 operator: '*' exactly when the last line's trimmed slice is "*". */
  function Operator1(last: string, start: nat, end: nat): char
    requires start <= end
  {
    if Trim(Slice(last, start, end)) == "*" then '*' else '+'
  }

  function Problem1(lines: seq<string>, start: nat, end: nat): Problem
    requires |lines| >= 1 && start <= end
  {
    Problem(Operands1(lines, |lines| - 1, start, end), Operator1(lines[|lines| - 1], start, end))
  }

  /** The body of `solve_part1`'s loop over the lines of a run: the last line sets the operator, the others may add an operand. */
  method Line1(lines: seq<string>, i: nat, start: nat, end: nat, numbers: seq<int>, operator: char)
    returns (numbers': seq<int>, operator': char)
    requires i < |lines| && start <= end
    requires numbers == Operands1(lines, i, start, end) && operator == '+'
    ensures i < |lines| - 1 ==> numbers' == Operands1(lines, i + 1, start, end) && operator' == '+'
    ensures i == |lines| - 1 ==> numbers' == numbers && operator' == Operator1(lines[i], start, end)
  {
    numbers', operator' := numbers, operator;
    var trimmed := Trim(Slice(lines[i], start, end));
    if i == |lines| - 1 {
      if trimmed == "*" {
        operator' := '*';
      } else if trimmed == "+" {
        operator' := '+';
      }
    } else {
      Operands1Step(lines, i, start, end, trimmed);
      if trimmed != [] {
        match ParseI64(trimmed)
        case Some(num) => numbers' := numbers + [num];
        case None =>
      }
    }
  }

  /** The loop over the lines for one run in `solve_part1`. */
  method Extract1(lines: seq<string>, start: nat, end: nat) returns (numbers: seq<int>, operator: char)
    requires |lines| >= 1 && start <= end
    ensures Problem(numbers, operator) == Problem1(lines, start, end)
  {
    numbers, operator := [], '+';
    var last := |lines| - 1;
    for i := 0 to |lines|
      invariant i <= last ==> numbers == Operands1(lines, i, start, end) && operator == '+'
      invariant i > last ==> numbers == Operands1(lines, last, start, end) && operator == Operator1(lines[last], start, end)
    {
      numbers, operator := Line1(lines, i, start, end, numbers, operator);
    }
  }



  /** The digits of column c in the given rows, top to bottom. */
  function ColumnDigits(rows: seq<string>, c: nat): (d: string)
    ensures AllDigits(d) && |d| <= |rows|
  {
    if rows == [] then []
    else
      var row := rows[|rows| - 1];
      ColumnDigits(rows[..|rows| - 1], c) + (if c < |row| && IsDigit(row[c]) then [row[c]] else [])
  }

  /** Part 2 operands: one number per column whose digits (all lines but the last) parse, left to right. */
  function Operands2(lines: seq<string>, start: nat, end: nat): (ns: seq<int>)
    requires |lines| >= 1 && start <= end
    ensures |ns| <= end - start
    decreases end - start
  {
    if end == start then []
    else Operands2(lines, start, end - 1) + Operand2(lines, end - 1)
  }

  /** The operand column c contributes: its digits, when they parse. */
  function Operand2(lines: seq<string>, c: nat): seq<int>
    requires |lines| >= 1
  {
    match ParseI64(ColumnDigits(lines[..|lines| - 1], c))
    case Some(v) => [v]
    case None => []
  }

  /** Part 2 operator: the rightmost '*' or '+' of the last line within the run, '+' if none. */
  function Operator2(last: string, start: nat, end: nat): (op: char)
    requires start <= end
    ensures op == '*' || op == '+'
    decreases end - start
  {
    if end == start then '+'
    else if end - 1 < |last| && (last[end - 1] == '*' || last[end - 1] == '+') then last[end - 1]
    else Operator2(last, start, end - 1)
  }

  function Problem2(lines: seq<string>, start: nat, end: nat): Problem
    requires |lines| >= 1 && start <= end
  {
    Problem(Operands2(lines, start, end), Operator2(lines[|lines| - 1], start, end))
  }

  /** The loop over the rows but the last for one column, keeping the ASCII digits. */
  method ScanColumnDigits(lines: seq<string>, c: nat) returns (digits: string)
    requires |lines| >= 1
    ensures digits == ColumnDigits(lines[..|lines| - 1], c)
  {
    digits := [];
    for r := 0 to |lines| - 1
      invariant digits == ColumnDigits(lines[..r], c)
    {
      assert lines[..r + 1][..r] == lines[..r];
      if c < |lines[r]| {
        var ch := lines[r][c];
        if '0' <= ch <= '9' {
          digits := digits + [ch];
        }
      }
    }
    assert lines[..|lines| - 1][..|lines| - 1] == lines[..|lines| - 1];
  }

  /** One column of `solve_part2`'s run loop: the operator it may set and the operand it may add. */
  lemma Extract2Step(lines: seq<string>, start: nat, c: nat, digits: string, numbers: seq<int>, operator: char)
    requires |lines| >= 1 && start <= c
    requires digits == ColumnDigits(lines[..|lines| - 1], c)
    ensures digits == [] || ParseI64(digits).None? ==> Operands2(lines, start, c + 1) == Operands2(lines, start, c)
    ensures digits != [] && ParseI64(digits).Some? ==>
              Operands2(lines, start, c + 1) == Operands2(lines, start, c) + [ParseI64(digits).value]
    ensures var last := lines[|lines| - 1];
            Operator2(last, start, c + 1) == if c < |last| && (last[c] == '*' || last[c] == '+') then last[c] else Operator2(last, start, c)
  {
    if digits == [] {
      BlankIsNoNumber();
    }
    var init := Operands2(lines, start, c);
    assert init + [] == init;
  }

  /** The body of `solve_part2`'s loop over the columns of a run: column c read top to bottom. */
  method Column2(lines: seq<string>, start: nat, c: nat, numbers: seq<int>, operator: char)
    returns (numbers': seq<int>, operator': char)
    requires |lines| >= 1 && start <= c
    requires numbers == Operands2(lines, start, c) && operator == Operator2(lines[|lines| - 1], start, c)
    ensures numbers' == Operands2(lines, start, c + 1) && operator' == Operator2(lines[|lines| - 1], start, c + 1)
  {
    var last := lines[|lines| - 1];
    var digits := ScanColumnDigits(lines, c);
    Extract2Step(lines, start, c, digits, numbers, operator);
    numbers', operator' := numbers, operator;
    if c < |last| {
      var opChar := last[c];
      if opChar == '*' {
        operator' := '*';
      } else if opChar == '+' {
        operator' := '+';
      }
    }
    if digits != [] {
      match ParseI64(digits)
      case Some(num) => numbers' := numbers + [num];
      case None =>
    }
  }

  /** The loop over the columns of one run in `solve_part2`. */
  method Extract2(lines: seq<string>, start: nat, end: nat) returns (numbers: seq<int>, operator: char)
    requires |lines| >= 1 && start <= end
    ensures Problem(numbers, operator) == Problem2(lines, start, end)
  {
    numbers, operator := [], '+';
    for c := start to end
      invariant numbers == Operands2(lines, start, c)
      invariant operator == Operator2(lines[|lines| - 1], start, c)
    {
      numbers, operator := Column2(lines, start, c, numbers, operator);
    }
  }

  function Product(s: seq<int>): int {
    if s == [] then 1 else Product(s[..|s| - 1]) * s[|s| - 1]
  }

  /** One problem's value: the product of its numbers for '*', their sum otherwise. */
  function Eval(p: Problem): int {
    if p.operator == '*' then Product(p.numbers) else Sum(p.numbers)
  }

  /** The grand total over a list of problems. */
  function GrandTotal(problems: seq<Problem>): int {
    if problems == [] then 0 else GrandTotal(problems[..|problems| - 1]) + Eval(problems[|problems| - 1])
  }

  lemma {:induction false} GrandTotalAppend(a: seq<Problem>, b: seq<Problem>)
    ensures GrandTotal(a + b) == GrandTotal(a) + GrandTotal(b)
    decreases |b|
  {
    if b == [] {
      assert a + b == a;
    } else {
      assert (a + b)[..|a + b| - 1] == a + b[..|b| - 1];
      GrandTotalAppend(a, b[..|b| - 1]);
    }
  }

  lemma GrandTotalMiddle(pre: seq<Problem>, x: Problem, post: seq<Problem>)
    ensures GrandTotal(pre + [x] + post) == Eval(x) + GrandTotal(pre + post)
  {
    GrandTotalAppend(pre + [x], post);
    GrandTotalAppend(pre, [x]);
    GrandTotalAppend(pre, post);
    assert [x][..0] == [];
  }

  /** The grand total does not depend on the order of the problems. */
  lemma {:induction false} GrandTotalPermutation(a: seq<Problem>, b: seq<Problem>)
    requires multiset(a) == multiset(b)
    ensures GrandTotal(a) == GrandTotal(b)
    decreases |a|
  {
    if a != [] {
      var x := a[0];
      assert x in multiset(b);
      var i :| 0 <= i < |b| && b[i] == x;
      var rest := b[..i] + b[i + 1..];
      GrandTotalRemoveAt(b, i);
      GrandTotalRemoveAt(a, 0);
      assert a[..0] + a[1..] == a[1..];
      assert multiset(a[1..]) == multiset(rest);
      GrandTotalPermutation(a[1..], rest);
    }
  }

  lemma GrandTotalRemoveAt(b: seq<Problem>, i: nat)
    requires i < |b|
    ensures multiset(b[..i] + b[i + 1..]) == multiset(b) - multiset{b[i]}
    ensures GrandTotal(b) == Eval(b[i]) + GrandTotal(b[..i] + b[i + 1..])
  {
    MultisetRemove(b, i);
    GrandTotalAt(b, i);
  }

  lemma GrandTotalAt(b: seq<Problem>, i: nat)
    requires i < |b|
    ensures GrandTotal(b) == Eval(b[i]) + GrandTotal(b[..i] + b[i + 1..])
  {
    SplitAt(b, i);
    GrandTotalMiddle(b[..i], b[i], b[i + 1..]);
  }

  lemma SplitAt<T>(b: seq<T>, i: nat)
    requires i < |b|
    ensures b == b[..i] + [b[i]] + b[i + 1..]
  {
  }

  /** The problem a run gives in part 1 or part 2. */
  function ProblemOf(part: nat, lines: seq<string>, start: nat, end: nat): Problem
    requires |lines| >= 1 && start <= end
  {
    if part == 1 then Problem1(lines, start, end) else Problem2(lines, start, end)
  }

  predicate Ordered(runs: seq<(nat, nat)>) {
    forall k :: 0 <= k < |runs| ==> runs[k].0 <= runs[k].1
  }

  /** The problems for a list of runs: runs without operands are dropped. */
  function ProblemsOf(part: nat, lines: seq<string>, runs: seq<(nat, nat)>): seq<Problem>
    requires |lines| >= 1 && Ordered(runs)
  {
    if runs == [] then []
    else
      var r := runs[|runs| - 1];
      WithProblem(ProblemsOf(part, lines, runs[..|runs| - 1]), ProblemOf(part, lines, r.0, r.1))
  }

  /** A run's problem is kept only when it has operands. */
  function WithProblem(problems: seq<Problem>, p: Problem): seq<Problem> {
    problems + (if p.numbers != [] then [p] else [])
  }

  lemma RunsOrdered(lines: seq<string>, width: nat)
    ensures Ordered(RunsFrom(lines, 0, width))
  {
    RunsAreMaximal(lines, 0, width);
  }

  /** The problems of the worksheet, left to right, for part 1 or part 2. */
  function Problems(part: nat, lines: seq<string>, width: nat): seq<Problem>
    requires |lines| >= 1
  {
    RunsOrdered(lines, width);
    ProblemsOf(part, lines, RunsFrom(lines, 0, width))
  }

  /** The state of the column scan at `col`: `done` are the runs seen, `problems` their problems. */
  ghost predicate Scanned(part: nat, lines: seq<string>, width: nat, col: nat, done: seq<(nat, nat)>, problems: seq<Problem>)
    requires |lines| >= 1
  {
    && col <= width
    && Ordered(done)
    && RunsFrom(lines, 0, width) == done + RunsFrom(lines, col, width)
    && problems == ProblemsOf(part, lines, done)
  }

  lemma ScanSeparator(part: nat, lines: seq<string>, width: nat, col: nat, done: seq<(nat, nat)>, problems: seq<Problem>)
    requires |lines| >= 1 && col < width && IsSeparator(lines, col)
    requires Scanned(part, lines, width, col, done, problems)
    ensures Scanned(part, lines, width, col + 1, done, problems)
  {
  }

  lemma ScanRun(part: nat, lines: seq<string>, width: nat, col: nat, e: nat, p: Problem, done: seq<(nat, nat)>, problems: seq<Problem>)
    requires |lines| >= 1 && col < width && !IsSeparator(lines, col)
    requires Scanned(part, lines, width, col, done, problems)
    requires e == RunEnd(lines, col, width) && col <= e && p == ProblemOf(part, lines, col, e)
    ensures col < e
    ensures Scanned(part, lines, width, e, done + [(col, e)], WithProblem(problems, p))
  {
    ProblemsOfSnoc(part, lines, done, (col, e));
    RunsFromRun(lines, col, width);
    Regroup(done, [(col, e)], RunsFrom(lines, e, width));
  }

  lemma RunsFromRun(lines: seq<string>, col: nat, width: nat)
    requires col < width && !IsSeparator(lines, col)
    ensures RunsFrom(lines, col, width) == [(col, RunEnd(lines, col, width))] + RunsFrom(lines, RunEnd(lines, col, width), width)
  {
  }

  lemma Regroup<T>(a: seq<T>, b: seq<T>, c: seq<T>)
    ensures a + (b + c) == (a + b) + c
  {
  }

  lemma ProblemsOfSnoc(part: nat, lines: seq<string>, done: seq<(nat, nat)>, r: (nat, nat))
    requires |lines| >= 1 && Ordered(done) && r.0 <= r.1
    ensures Ordered(done + [r])
    ensures ProblemsOf(part, lines, done + [r]) == WithProblem(ProblemsOf(part, lines, done), ProblemOf(part, lines, r.0, r.1))
  {
    var done' := done + [r];
    assert done'[..|done|] == done;
  }

  /** At the right edge every run has been seen. */
  lemma ScanDone(part: nat, lines: seq<string>, width: nat, col: nat, done: seq<(nat, nat)>, problems: seq<Problem>)
    requires |lines| >= 1 && col >= width
    requires Scanned(part, lines, width, col, done, problems)
    ensures problems == Problems(part, lines, width)
  {
    assert done + [] == done;
  }

  /** One run of `solve_part1`'s column scan: find where it ends, read its problem, keep the problem when it has operands. */
  method Run1(lines: seq<string>, width: nat, col: nat, ghost done: seq<(nat, nat)>, problems: seq<Problem>)
    returns (endCol: nat, problems': seq<Problem>)
    requires |lines| >= 1 && col < width && !IsSeparator(lines, col)
    requires Scanned(1, lines, width, col, done, problems)
    ensures col < endCol && Scanned(1, lines, width, endCol, done + [(col, endCol)], problems')
  {
    endCol := ScanRunEnd(lines, col, width);
    var numbers, operator := Extract1(lines, col, endCol);
    ScanRun(1, lines, width, col, endCol, Problem(numbers, operator), done, problems);
    problems' := problems;
    if numbers != [] {
      problems' := problems + [Problem(numbers, operator)];
    }
  }

  /** `solve_part1`. */
  method SolvePart1(lines: seq<string>, width: nat) returns (total: int)
    requires |lines| >= 1
    ensures total == GrandTotal(Problems(1, lines, width))
  {
    var problems: seq<Problem> := [];
    var col: nat := 0;
    ghost var done: seq<(nat, nat)> := [];
    while col < width
      invariant Scanned(1, lines, width, col, done, problems)
      decreases width - col
    {
      var isSeparator := ColumnIsSeparator(lines, col);
      if isSeparator {
        ScanSeparator(1, lines, width, col, done, problems);
        col := col + 1;
        continue;
      }
      ghost var startCol := col;
      col, problems := Run1(lines, width, col, done, problems);
      done := done + [(startCol, col)];
    }
    ScanDone(1, lines, width, col, done, problems);
    total := GrandTotal(problems);
  }

  /** One run of `solve_part2`'s column scan: find where it ends, read its problem, keep the problem when it has operands. */
  method Run2(lines: seq<string>, width: nat, col: nat, ghost done: seq<(nat, nat)>, problems: seq<Problem>)
    returns (endCol: nat, problems': seq<Problem>)
    requires |lines| >= 1 && col < width && !IsSeparator(lines, col)
    requires Scanned(2, lines, width, col, done, problems)
    ensures col < endCol && Scanned(2, lines, width, endCol, done + [(col, endCol)], problems')
  {
    endCol := ScanRunEnd(lines, col, width);
    var numbers, operator := Extract2(lines, col, endCol);
    ScanRun(2, lines, width, col, endCol, Problem(numbers, operator), done, problems);
    problems' := problems;
    if numbers != [] {
      problems' := problems + [Problem(numbers, operator)];
    }
  }

  /** `solve_part2`. */
  method SolvePart2(lines: seq<string>, width: nat) returns (total: int)
    requires |lines| >= 1
    ensures total == GrandTotal(Problems(2, lines, width))
  {
    var problems: seq<Problem> := [];
    var col: nat := 0;
    ghost var done: seq<(nat, nat)> := [];
    while col < width
      invariant Scanned(2, lines, width, col, done, problems)
      decreases width - col
    {
      var isSeparator := ColumnIsSeparator(lines, col);
      if isSeparator {
        ScanSeparator(2, lines, width, col, done, problems);
        col := col + 1;
        continue;
      }
      ghost var startCol := col;
      col, problems := Run2(lines, width, col, done, problems);
      done := done + [(startCol, col)];
    }
    ScanDone(2, lines, width, col, done, problems);
    total := GrandTotal(problems);
  }

  /** The longest line's length, 0 for no lines. */
  function MaxWidth(lines: seq<string>): (w: nat)
    ensures forall i :: 0 <= i < |lines| ==> |lines[i]| <= w
    ensures lines != [] ==> exists i :: 0 <= i < |lines| && |lines[i]| == w
  {
    if lines == [] then 0
    else
      var w := MaxWidth(lines[..|lines| - 1]);
      var last := |lines[|lines| - 1]|;
      assert forall i :: 0 <= i < |lines| - 1 ==> lines[..|lines| - 1][i] == lines[i];
      if last > w then last else w
  }

  function Spaces(n: nat): (s: string)
    ensures |s| == n && forall i :: 0 <= i < n ==> s[i] == ' '
  {
    if n == 0 then [] else Spaces(n - 1) + [' ']
  }

  /** `format!("{:width$}", l)`: the line followed by spaces up to `width`; longer lines stay as they are. */
  function Pad(line: string, width: nat): (p: string)
    ensures |p| == if |line| < width then width else |line|
    ensures p[..|line|] == line
    ensures forall i :: |line| <= i < |p| ==> p[i] == ' '
  {
    if |line| < width then line + Spaces(width - |line|) else line
  }

  function PadAll(lines: seq<string>, width: nat): (padded: seq<string>)
    ensures |padded| == |lines|
    ensures forall i :: 0 <= i < |lines| ==> padded[i] == Pad(lines[i], width)
  {
    seq(|lines|, i requires 0 <= i < |lines| => Pad(lines[i], width))
  }

  /** Padding with spaces keeps every separator column a separator and every other column not. */
  lemma PadKeepsSeparators(lines: seq<string>, width: nat, col: nat)
    ensures IsSeparator(PadAll(lines, width), col) <==> IsSeparator(lines, col)
  {
    var padded := PadAll(lines, width);
    if IsSeparator(lines, col) {
      forall i | 0 <= i < |padded| && col < |padded[i]| ensures padded[i][col] == ' ' {
        if col < |lines[i]| {
          assert padded[i][col] == padded[i][..|lines[i]|][col];
        }
      }
    } else {
      var i :| 0 <= i < |lines| && col < |lines[i]| && lines[i][col] != ' ';
      assert padded[i][col] == padded[i][..|lines[i]|][col];
    }
  }

  /** ... so padding does not change the problems' column runs. */
  lemma {:induction false} PadKeepsRuns(lines: seq<string>, width: nat, col: nat, w: nat)
    requires col <= w
    ensures RunsFrom(PadAll(lines, width), col, w) == RunsFrom(lines, col, w)
    decreases w - col
  {
    if col < w {
      PadKeepsSeparators(lines, width, col);
      if IsSeparator(lines, col) {
        PadKeepsRuns(lines, width, col + 1, w);
      } else {
        PadKeepsRunEnd(lines, width, col, w);
        PadKeepsRuns(lines, width, RunEnd(lines, col, w), w);
      }
    }
  }

  lemma {:induction false} PadKeepsRunEnd(lines: seq<string>, width: nat, col: nat, w: nat)
    requires col <= w
    ensures RunEnd(PadAll(lines, width), col, w) == RunEnd(lines, col, w)
    decreases w - col
  {
    if col < w {
      PadKeepsSeparators(lines, width, col);
      PadKeepsRunEnd(lines, width, col + 1, w);
    }
  }

  /**
   * `main`: no lines is reported as empty input; otherwise every line is
   * padded to the longest line's width and both parts are solved.
   */
  method Solve(lines: seq<string>) returns (r: Option<(int, int)>)
    ensures lines == [] <==> r.None?
    ensures r.Some? ==>
              var w := MaxWidth(lines);
              r.value == (GrandTotal(Problems(1, PadAll(lines, w), w)), GrandTotal(Problems(2, PadAll(lines, w), w)))
  {
    if lines == [] {
      return None;
    }
    var maxWidth := MaxWidth(lines);
    var padded := PadAll(lines, maxWidth);
    var part1 := SolvePart1(padded, maxWidth);
    var part2 := SolvePart2(padded, maxWidth);
    return Some((part1, part2));
  }
}
