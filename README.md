# aoc25 solvers, modelled in Dafny

The aoc25 repository holds twelve independent puzzle solvers, one per day and
each in a different language. Every solver reads its puzzle input, runs a small
integer or string algorithm over it and prints the answers. This project models
those algorithms, takes their parsed inputs as values, and proves what each one
computes.

| module | models |
|---|---|
| `Day1Dial` | the 100-position dial: zero hits of one rotation in closed form, parts 1 and 2 |
| `Day2Doubled`, `Day2Repeated` | IDs made of a repeated digit block, their generators over ranges, the sums |
| `Day3Pairs`, `Day3Greedy` | the best two-digit pair of a bank, and the greedy best k-digit subsequence |
| `Day4Rolls` | neighbour counts on the roll grid, accessible rolls, repeated removal |
| `Day5Fresh`, `Day5Merge`, `Intervals` | inclusive range membership, and the sort, merge and covered-count of part 2 |
| `Day6Worksheet` | the column runs of the worksheet, the two readings of a problem, the grand total |
| `Day7Beams`, `Day7Timelines` | beams falling through splitters: the split count and the timeline counts |
| `UnionFind`, `Day8Circuits`, `Day8LastLink` | union-find with path compression and union by rank, the Kruskal-style joining of the closest pairs |
| `Day9Tiles`, `Day9Polygon` | the largest rectangle on two red tiles, and its containment in the rectilinear polygon |
| `Day10Parse`, `GF2`, `Day10Toggle`, `Day10Main` | the machine line parser, Gaussian elimination over GF(2), the fewest button presses, the part 1 total |
| `Day11Graph`, `Day11Network` | the node name table, the edge lists, and memoized path counting |
| `Day12Shapes`, `Day12Packing` | the orientations of a present shape, and the backtracking fit of presents into a region |
| `Decimal`, `Text`, `Sums`, `Sorting`, `Optional` | decimal strings, trimming, splitting and parsing, sums, a sort by key, an option type |

Where a solver changes state step by step the model does too: methods with
loops and invariants, a `UnionFind` class over arrays, a `Network` class for
the day 11 tables, and a `bool` grid that is marked and unmarked in place for
day 12. Each method is proved against a specification function, and the
properties of that function are proved as lemmas.

## Model

| member | source | states |
|---|---|---|
| Day1Dial.CountZerosCrossedCorrect | day1/solution.py:6-27 | the closed form of `count_zeros_crossed` equals the number of clicks k in 1..distance that land on 0, from every start 0..99, for 'R' and for every other direction |
| Day1Dial.CountZerosCrossed | day1/solution.py:6-27 | `count_zeros_crossed` from a position 0..99 and a non-negative distance is between 0 and distance // 100 + 1 |
| Day1Dial.CountZerosStep | day1/solution.py:11-27 | one more click raises the closed form by one exactly when that click lands on 0 |
| Day1Dial.NonNegHits | day1/solution.py:11-27 | the count is never negative |
| Day1Dial.Turn | day1/solution.py:44-47 | the new position is in 0..99 and congruent modulo 100 to position − distance for 'L' and position + distance otherwise (Python's `%`) |
| Day1Dial.ParseRotation | day1/solution.py:41-42 | fails exactly when `int(line[1:])` fails; otherwise the rotation is the first character with that signed distance |
| Day1Dial.ParseRotationShow | day1/solution.py:41-42 | a direction followed by a distance written in decimal, with or without a '+', reads back as that rotation |
| Day1Dial.FinalInRange | day1/solution.py:32-50 | the dial stays in 0..99 after any sequence of rotations |
| Day1Dial.SolvePart1 | day1/solution.py:30-52 | fails exactly when some non-blank line's distance does not parse; otherwise counts the rotations after which the dial shows 0 |
| Day1Dial.SolvePart2 | day1/solution.py:55-78 | fails exactly when a distance does not parse; otherwise sums `count_zeros_crossed` from the position each rotation starts at |
| Day1Dial.NextRotation | day1/solution.py:36-42 | one line of either loop: a blank line is skipped, a line whose distance does not parse fails the whole input, any other line adds its rotation |
| Day1Dial.ClickZerosCountsHits | day1/solution.py:55-78 | part 2's total is the number of clicks over the whole input that land on 0 |
| Day1Dial.EndZerosAtMostClickZeros | day1/solution.py:30-78 | for 'L'/'R' rotations of positive length, part 1's answer never exceeds part 2's |
| Day1Dial.ParseRotationsFails | day1/solution.py:36-42 | one line that does not parse fails the whole input, whatever follows |
| Day1Dial.BlankLineSkipped | day1/solution.py:37-39 | a blank line neither moves the dial nor fails the parse |
| Day1Dial.ExampleR1000 | day1/solution.py:107-109 | R1000 from 50 hits 0 ten times, by the closed form and by counting clicks |
| Day1Dial.ExampleWalkthrough | day1/solution.py:83-105 | the ten example rotations from 50 hit 0 six times; three of them end on 0 |
| Day2Doubled.DoubledDigits | day2/solution.js:64 | the digits of `half + half` are the half's digits twice, so the number is half·10^len + half |
| Day2Doubled.DoubledIsInvalid | day2/solution.js:64 | every doubled positive half is an invalid ID of twice the half's length |
| Day2Doubled.InvalidIsDoubled | day2/solution.js:13-25 | every invalid ID is the doubling of its first half, which is positive |
| Day2Doubled.DoubledBounds | day2/solution.js:53-64 | a doubled half of k digits lies in [10^(2k−1), 10^(2k)) |
| Day2Doubled.DoubledMonotone | day2/solution.js:62-64 | among halves of one length, doubling keeps the order, so the IDs come out increasing |
| Day2Doubled.MinRepeated | day2/solution.js:29-32 | `minRepeated(k)` is 10^(k−1) written twice |
| Day2Doubled.MaxRepeated | day2/solution.js:36-39 | `maxRepeated(k)` is 10^k − 1 written twice |
| Day2Doubled.RepeatedBounds | day2/solution.js:27-39 | every doubled half of k digits lies between `minRepeated(k)` and `maxRepeated(k)` |
| Day2Doubled.HalfLength | day2/solution.js:59-62 | the halves the inner loop visits are exactly the positive numbers of k digits |
| Day2Doubled.InvalidIdsIn | day2/solution.js:42-74 | the reference list: invalid IDs of at most 20 digits in [start, end], increasing |
| Day2Doubled.InvalidIdsInComplete | day2/solution.js:42-74 | every invalid ID of at most 20 digits in [start, end] is in the reference list |
| Day2Doubled.IncreasingUnique | day2/solution.js:42-74 | two increasing lists with the same elements are equal, which pins `findInvalidIds` to the reference |
| Day2Doubled.SkippedLength | day2/solution.js:48-56 | a doubled length below start's digit count or above end's + 1 holds no ID in [start, end], so the skip loses nothing |
| Day2Doubled.FindInvalidIds | day2/solution.js:42-74 | returns increasing invalid IDs within [start, end] containing every doubled half of up to 10 digits in range: exactly the reference list |
| Day2Doubled.AddHalves | day2/solution.js:59-70 | the inner loop keeps the list sound and increasing and adds every in-range doubling of a half below 10^k |
| Day2Doubled.CollectedAll | day2/solution.js:52-71 | once all half lengths 1..10 are done, the list is the reference list |
| Day2Doubled.TotalSum | day2/solution.js:77-86 | the collected IDs are the concatenation of each range's list and `totalSum` is their sum |
| Day2Doubled.PushAll | day2/solution.js:82-85 | the inner loop appends the range's IDs to `allInvalidIds` in order and keeps `totalSum` the sum of the list |
| Day2Doubled.AllInvalidIdsMembers | day2/solution.js:80-86 | an ID of at most 20 digits is collected exactly when it is invalid and lies in some range |
| Day2Repeated.Repeat | day2/solution_part2.js:25 | `pattern.repeat(n)` has n times the pattern's length |
| Day2Repeated.RepeatDigits | day2/solution_part2.js:57 | repeating a digit string gives a digit string |
| Day2Repeated.IsInvalidId | day2/solution_part2.js:13-31 | true exactly when the decimal string is its first p characters repeated at least twice, for some p |
| Day2Repeated.CandidateDigits | day2/solution_part2.js:54-58 | a pattern of exactly p digits repeated r ≥ 2 times reads back as that repetition, has p·r digits and is an invalid ID |
| Day2Repeated.CandidateShow | day2/solution_part2.js:56-58 | a p-digit pattern's string has length p and its repetition reads back unchanged |
| Day2Repeated.RepeatedIsCandidate | day2/solution_part2.js:43-58 | every invalid number with pattern length p is the candidate built from its own leading p digits, which lie in [10^(p−1), 10^p) |
| Day2Repeated.FindInvalidIds | day2/solution_part2.js:34-69 | the result lists only invalid IDs in [start, end], each once, and every invalid ID in [start, end] |
| Day2Repeated.AddPatterns | day2/solution_part2.js:54-64 | the pattern loop keeps the list sound, loses nothing, and covers every in-range number of that length with pattern length ≤ p |
| Day2Repeated.AddLength | day2/solution_part2.js:45-65 | the pattern-length loop for one total length adds only repeated numbers in range, and afterwards every repeated number in range of at most that length is present |
| Day2Repeated.PatternsExhausted | day2/solution_part2.js:51-54 | after the last pattern of p digits, pattern length p is done |
| Day2Repeated.PatternsNoneBelow | day2/solution_part2.js:51 | starting the pattern at 10^(p−1) skips no number |
| Day2Repeated.RepeatedIn | day2/solution_part2.js:34-69 | the reference: exactly the invalid IDs in [start, end], each once |
| Day2Repeated.SameElements | day2/solution_part2.js:68 | two duplicate-free lists with the same elements have the same length and sum, so the Set's order does not matter |
| Day2Repeated.Totals | day2/solution_part2.js:72-81 | `totalCount` and `totalSum` are the length and the sum of the concatenated per-range lists |
| Day2Repeated.AddUp | day2/solution_part2.js:77-80 | the inner loop adds the number of a range's IDs to `totalCount` and their sum to `totalSum` |
| Day2Repeated.Example1111 | day2/solution_part2.js:35-62 | 1111 arises from pattern 1 and from pattern 11 and is an invalid ID |
| Day3Pairs.DigitAt | day3/solution_part1.go:17-18 | the byte subtraction wraps into 0..255 and is the digit's value for '0'..'9' |
| Day3Pairs.BestIntoBound | day3/solution_part1.go:14-25 | every pair ending at j with its first digit before i is at most the best such pair |
| Day3Pairs.BestUpToBound | day3/solution_part1.go:14-25 | every pair inside the first m characters is at most the best of them |
| Day3Pairs.BestIntoWitness | day3/solution_part1.go:14-25 | the best pair ending at j is attained by some first digit before i |
| Day3Pairs.BestUpToWitness | day3/solution_part1.go:14-25 | the best pair inside the first m ≥ 2 characters is attained by some i < j < m |
| Day3Pairs.BestPairIsMax | day3/solution_part1.go:9-27 | the reference is at least every pair value, is attained by a pair when the line has two characters, and is 0 otherwise |
| Day3Pairs.DigitsBound | day3/solution_part1.go:19 | on a line of digits the joltage is at most 99 |
| Day3Pairs.MaxJoltage | day3/solution_part1.go:9-27 | `maxJoltage` returns a value at least every d1·10+d2 with i < j, attained by some pair; 0 for lines shorter than 2 |
| Day3Pairs.MaxUnique | day3/solution_part1.go:9-27 | any value with those three properties is the reference, so `maxJoltage` is a function of the line |
| Day3Pairs.TotalJoltage | day3/solution_part1.go:38-47 | the total adds the joltage of every line of length at least 2 and skips the rest |
| Day3Greedy.LeftmostMax | day3/solution_part2.go:24-32 | the inner loop's position lies in the window, holds its largest digit, and every earlier position in the window holds a smaller one |
| Day3Greedy.Greedy | day3/solution_part2.go:21-36 | the greedy choice has exactly r characters and is all digits when the line is |
| Day3Greedy.GreedyIndices | day3/solution_part2.go:21-36 | the chosen positions are strictly increasing and each leaves room for the digits still to pick |
| Day3Greedy.GreedyPicks | day3/solution_part2.go:34-35 | the greedy digits are the line's digits at the greedy positions |
| Day3Greedy.GreedyOptimal | day3/solution_part2.go:10-36 | every increasing choice of r positions gives a digit string lexicographically at most the greedy one |
| Day3Greedy.LexValue | day3/solution_part2.go:38-39 | for digit strings of equal length, lexicographic order is numeric order |
| Day3Greedy.GreedyIsLargest | day3/solution_part2.go:10-41 | no choice of k digits in order forms a larger number than the greedy one |
| Day3Greedy.GreedyIsSelection | day3/solution_part2.go:21-36 | the greedy positions are a valid choice of k digits in order |
| Day3Greedy.WindowMax | day3/solution_part2.go:24-32 | the scan of the window returns its leftmost maximum |
| Day3Greedy.TakeDigit | day3/solution_part2.go:21-35 | one outer step appends the leftmost largest digit of the window that leaves r − 1 digits after it, so result plus the greedy choice of the rest is unchanged |
| Day3Greedy.MaxJoltage12 | day3/solution_part2.go:12-41 | 0 when the line is shorter than k; otherwise the value of the greedy k-digit choice |
| Day3Greedy.TotalJoltage | day3/solution_part2.go:52-61 | the total adds the 12-digit joltage of every line of length at least 12 |
| Day4Rolls.CountDirs | day4/solution.rb:16-19 | counting over the first k directions gives at most k |
| Day4Rolls.CountAdjacentRolls | day4/solution.rb:15-20 | a cell has at most 8 adjacent rolls |
| Day4Rolls.HitCellsCount | day4/solution.rb:16-19 | the directions that hit reach pairwise different cells, as many as the count |
| Day4Rolls.DirsDistinct | day4/solution.rb:11-13 | the eight directions are pairwise different |
| Day4Rolls.DirIndex | day4/solution.rb:11-13 | every non-zero offset in −1..1 × −1..1 is one of the eight directions |
| Day4Rolls.CountIsNeighbourRolls | day4/solution.rb:15-20 | `count_adjacent_rolls` is the number of in-bounds rolls among the eight neighbours |
| Day4Rolls.FindAccessible | day4/solution.rb:22-31 | returns exactly the rolls with fewer than 4 adjacent rolls, in row-major order, each once |
| Day4Rolls.RowMajorCard | day4/solution.rb:22-31 | a row-major list has no repeats, so its length is the size of its set |
| Day4Rolls.Part1 | day4/solution.rb:6-34 | part 1 is the number of accessible rolls of the grid |
| Day4Rolls.RowRollsClear | day4/solution.rb:45 | clearing one roll of a row lowers its roll count by one |
| Day4Rolls.RollCountReplace | day4/solution.rb:45 | replacing a row changes the grid's roll count by the difference of the rows' counts |
| Day4Rolls.ClearCells | day4/solution.rb:45 | clearing distinct roll cells keeps the grid's shape, turns exactly those cells to '.', and lowers the roll count by their number |
| Day4Rolls.RowRollsWithin | day4/solution.rb:45 | a row whose rolls lie within another's has no more rolls, and fewer when one is missing |
| Day4Rolls.RollCountWithin | day4/solution.rb:45 | a grid whose rolls lie within another's has no more rolls, and fewer when one is missing |
| Day4Rolls.ClearedFewer | day4/solution.rb:41-45 | a round keeps the grid's shape, only removes rolls, and removes at least one when some roll is accessible, so the loop terminates |
| Day4Rolls.SettleStable | day4/solution.rb:40-46 | the settled grid keeps the shape, only loses rolls, and has no accessible roll |
| Day4Rolls.CountWithin | day4/solution.rb:15-20 | a cell has no more adjacent rolls in a grid with fewer rolls |
| Day4Rolls.StableWithinCleared | day4/solution.rb:41-45 | a round never removes a roll of a stable grid lying within the current one |
| Day4Rolls.SettleGreatest | day4/solution.rb:40-46 | every grid within the initial one in which no roll is accessible keeps all its rolls in the settled grid: the loop stops at the largest stable sub-grid |
| Day4Rolls.ClearedEq | day4/solution.rb:45 | clearing the cells `find_accessible` returned gives the round's grid |
| Day4Rolls.Part2 | day4/solution.rb:37-48 | the final grid is the settled grid (rounds repeated until none finds an accessible roll), no roll in it is accessible, and `total_removed` is the initial roll count minus the settled one |
| Day5Fresh.ParseU64 | day5/solution.rs:12 | `parse::<u64>()` succeeds exactly on an unsigned decimal whose value is at most u64::MAX, and then returns that value |
| Day5Fresh.ParseRangeLine | day5/solution.rs:11-14 | a line parses exactly when it has at least two '-'-separated pieces and every piece is a u64; the range is then the first two pieces' values, both in 0..u64::MAX |
| Day5Fresh.ParseRanges | day5/solution.rs:8-15 | the range section fails exactly when some non-empty line is not "a-b" with u64 bounds (a bound above u64::MAX included); otherwise one range per non-empty line |
| Day5Fresh.BadRangeCons | day5/solution.rs:8-15 | a failing range line is the first line or one of the rest |
| Day5Fresh.ParseIds | day5/solution.rs:18-21 | the ID section fails exactly when some non-empty line is not a u64 (not a number, or one above u64::MAX); otherwise one ID per non-empty line, each at most u64::MAX |
| Day5Fresh.BadIdCons | day5/solution.rs:18-21 | a failing ID line is the first line or one of the rest |
| Day5Fresh.CoversCons | day5/solution.rs:22 | a range list covers an ID when its first range or the rest does |
| Day5Fresh.AnyContains | day5/solution.rs:22 | the `any` test holds exactly when some range contains the ID, both bounds included |
| Day5Fresh.FreshCount | day5/solution.rs:18-23 | the fresh count is at most the number of IDs, and equals it exactly when every ID is covered |
| Day5Fresh.Solve | day5/solution.rs:8-23 | fails exactly where the source panics: a range line or an ID line that does not parse as u64 values; otherwise the count is at most the number of non-empty ID lines |
| Day5Fresh.FreshCountAppend | day5/solution.rs:18-23 | the count over two runs of IDs is the sum of the counts |
| Day5Fresh.FreshCountSameRanges | day5/solution.rs:22 | the count depends only on which ranges there are, not on their order or repeats |
| Day5Fresh.SplitShown | day5/solution.rs:12 | the line "a-b" written from two numbers splits on '-' into their two digit strings |
| Day5Fresh.ParseRangeLineShow | day5/solution.rs:11-14 | the line "a-b" written from two u64 values parses back to (a, b) |
| Day5Fresh.AboveU64Panics | day5/solution.rs:12-21 | a number above u64::MAX fails a range line in either bound, and as an ID line fails the whole computation, where `unwrap` panics |
| Day5Fresh.ParseRangesSkipsEmpty | day5/solution.rs:10 | an empty line among the ranges changes nothing |
| Day5Merge.CountCovered | day5/solution_part2.rs:17-35 | after the sort and merge, the ranges are sorted by start and more than one apart, cover exactly the integers the input ranges cover, and the total is the number of those integers |
| Intervals.MergeSorted | day5/solution_part2.rs:21-32 | the merge loop returns the reference merge, no longer than its input and non-empty for non-empty input, sorted, `gap`-separated, covering the same integers |
| Intervals.MergedShape | day5/solution_part2.rs:21-32 | the reference merge is sorted by start and `gap`-separated, and its last range starts no later than the last input range |
| Intervals.MergedCoverage | day5/solution_part2.rs:21-32 | merging sorted well-formed ranges keeps them well formed and covers the same integers |
| Intervals.HoldsIffCovered | day5/solution_part2.rs:21-32 | for sorted ranges more than one apart, [lo, hi] lies in one range exactly when each of its integers is covered |
| Intervals.NotCoveredPast | day5/solution_part2.rs:24 | in merged ranges the integer right after a range's end is not covered |
| Intervals.CoveredSetCovers | day5/solution_part2.rs:34-35 | the covered set holds exactly the integers some range contains |
| Intervals.IntervalSize | day5/solution_part2.rs:35 | a well-formed range covers `end - start + 1` integers |
| Intervals.SeparatedSize | day5/solution_part2.rs:34-35 | disjoint ranges in increasing order cover as many integers as their lengths add up to |
| Intervals.CoveredSameElements | day5/solution_part2.rs:18 | reordering the ranges leaves the covered set unchanged |
| Sorting.SortBy | day5/solution_part2.rs:18 | the library sort: same length, a permutation of the input, ordered by the key |
| Sorting.SortSorted | day5/solution_part2.rs:18 | sorting a list already in key order returns it unchanged |
| Sorting.SortByElements | day5/solution_part2.rs:18 | the sorted list holds exactly the input's elements |
| Day6Worksheet.ParseI64 | day6/solution.rs:57 | `parse::<i64>()` succeeds exactly on a signed decimal whose value fits in 64 bits, and then returns that value |
| Day6Worksheet.ColumnIsSeparator | day6/solution.rs:8-17 | the column scan reports a separator exactly when no line has a non-blank character in that column |
| Day6Worksheet.RunEnd | day6/solution.rs:24-41 | the end of a run lies in [start, width], no column inside the run is a separator, and the column at the end is one unless it is the width |
| Day6Worksheet.RunsAreMaximal | day6/solution.rs:7-41 | the problems' column ranges are the maximal runs of non-separator columns: inside the width, disjoint, left to right, each bounded by separators or the edges, and covering every non-separator column |
| Day6Worksheet.ScanRunEnd | day6/solution.rs:25-40 | the end-of-run loop stops at the run's end as defined above |
| Day6Worksheet.Extract1 | day6/solution.rs:43-61 | part 1 takes one number per line but the last (its trimmed slice of the run, skipped when blank or not a 64-bit integer) and the operator from the last line's slice, '+' unless it is "*" |
| Day6Worksheet.Line1 | day6/solution.rs:46-61 | one line of a run: the last line sets the operator from its trimmed slice, any other line appends its number when the slice parses |
| Day6Worksheet.Operands1 | day6/solution.rs:46-60 | part 1 reads at most one number per line |
| Day6Worksheet.ColumnDigits | day6/solution.rs:125-133 | a column's number string holds only ASCII digits, at most one per row |
| Day6Worksheet.ScanColumnDigits | day6/solution.rs:125-133 | the row loop keeps exactly the ASCII digits of the column, top to bottom, from every row but the last |
| Day6Worksheet.Operands2 | day6/solution.rs:124-149 | part 2 reads at most one number per column of the run |
| Day6Worksheet.Operator2 | day6/solution.rs:122-142 | part 2's operator is always '*' or '+' |
| Day6Worksheet.Extract2 | day6/solution.rs:120-149 | part 2 takes, column by column, the number spelt by the column's digits and the last '*' or '+' of the bottom row, '+' if there is none |
| Day6Worksheet.Column2 | day6/solution.rs:124-149 | one column of a run: its digits above the last row form one number, and a '*' or '+' below overrides the operator |
| Day6Worksheet.GrandTotalAppend | day6/solution.rs:68-74 | the grand total of two lists of problems is the sum of their grand totals |
| Day6Worksheet.GrandTotalAt | day6/solution.rs:68-74 | any one problem's value can be split off the grand total |
| Day6Worksheet.GrandTotalPermutation | day6/solution.rs:156-163 | the grand total does not depend on the order of the problems, so reading them right to left changes nothing |
| Day6Worksheet.SolvePart1 | day6/solution.rs:3-75 | `solve_part1` returns the grand total of the part-1 problems of the maximal runs, left to right, runs without numbers dropped |
| Day6Worksheet.Run1 | day6/solution.rs:24-65 | one run of the part-1 scan ends past its start at the next all-blank column, and keeps its problem only when it has numbers |
| Day6Worksheet.SolvePart2 | day6/solution.rs:77-164 | `solve_part2` returns the grand total of the part-2 problems of the same runs |
| Day6Worksheet.Run2 | day6/solution.rs:104-153 | one run of the part-2 scan ends past its start at the next all-blank column, and keeps its problem only when it has numbers |
| Day6Worksheet.MaxWidth | day6/solution.rs:175 | the width is at least every line's length and is the length of some line |
| Day6Worksheet.Pad | day6/solution.rs:177 | padding keeps the line as a prefix, adds only spaces, and reaches the width |
| Day6Worksheet.PadAll | day6/solution.rs:176-178 | every line is padded, and the number of lines is kept |
| Day6Worksheet.PadKeepsSeparators | day6/solution.rs:176-178 | padding with spaces leaves every column a separator exactly when it was one |
| Day6Worksheet.PadKeepsRunEnd | day6/solution.rs:176-178 | padding does not move the end of any run |
| Day6Worksheet.PadKeepsRuns | day6/solution.rs:176-178 | padding does not change the runs, so the problems can be read from the lines as given |
| Day6Worksheet.Solve | day6/solution.rs:166-185 | no result exactly when there are no lines; otherwise both grand totals over the lines padded to the longest line's width |
| Day7Beams.StartCol | day7/solution.kts:13-19 | the start column is -1 exactly when the top row has no 'S'; otherwise it holds the first 'S' |
| Day7Beams.FindStart | day7/solution.kts:13-19 | the search loop over the top row finds that column |
| Day7Beams.Successors | day7/solution.kts:32-44 | a beam's next columns stay inside the grid and at most one column away |
| Day7Beams.SuccessorsCases | day7/solution.kts:32-44 | a splitter sends the beam to its in-grid neighbours, '.' and 'S' let it straight through, and any other character absorbs it |
| Day7Beams.SplitterSuccessors | day7/solution.kts:33-39 | a splitter's next columns are exactly the neighbours that lie inside the grid |
| Day7Beams.SuccessorsCount | day7/solution.kts:32-44 | a splitter gives at most two beams and any other cell at most one |
| Day7Beams.NextBeams | day7/solution.kts:29-47 | the beams of the next row stay inside the grid |
| Day7Beams.NextBeamsAdd | day7/solution.kts:31-45 | handling one more beam adds its successors to the next row's beams, whatever order the beams are taken in |
| Day7Beams.SplitColumnsAdd | day7/solution.kts:33-35 | handling one more beam adds one to the count exactly when it stands on a splitter |
| Day7Beams.Add | day7/solution.kts:37-42 | adding a column to the set of new beams keeps it duplicate-free and adds exactly that column |
| Day7Beams.AddNeighbours | day7/solution.kts:37-38 | the left and right beams are added only when inside the grid |
| Day7Beams.Visit | day7/solution.kts:32-44 | one beam contributes its successors, and it splits exactly on '^' |
| Day7Beams.RowStep | day7/solution.kts:29-47 | one row turns the beam set into the next row's beams and counts each beam on a splitter once |
| Day7Beams.BeamGrowth | day7/solution.kts:29-47 | the number of beams grows by at most the number of splits in the row |
| Day7Beams.BeamsBefore | day7/solution.kts:22-48 | the beams entering each row stay inside the grid |
| Day7Beams.NoBeamsStay | day7/solution.kts:27 | once no beam is left none comes back and no split is added, so the early exit changes nothing |
| Day7Beams.Solve | day7/solution.kts:6-51 | `solve` returns the splits counted row by row from the 'S' column down to the last row |
| Day7Timelines.Spread | day7/solution_part2.kts:31-49 | the columns that receive timelines from a set of beams are exactly part 1's next beams of that set |
| Day7Timelines.NextTimelines | day7/solution_part2.kts:29-51 | one row's new timeline map holds exactly the columns part 1's beams move to |
| Day7Timelines.NextBeamsMember | day7/solution_part2.kts:31-48 | a column receives a beam exactly when its own column passes one straight down or a neighbour splits into it |
| Day7Timelines.InflowAdd | day7/solution_part2.kts:31-48 | one more source column adds its count to each column it sends a beam into and nothing elsewhere |
| Day7Timelines.SpreadAdd | day7/solution_part2.kts:31-48 | handling one more column credits its count to each of its successor columns, in any order |
| Day7Timelines.Bump | day7/solution_part2.kts:37-46 | `getOrDefault(d, 0) + count` adds the count to column d and leaves every other column alone |
| Day7Timelines.CreditNone | day7/solution_part2.kts:31-48 | an absorbed beam changes nothing |
| Day7Timelines.CreditUnion | day7/solution_part2.kts:36-42 | crediting the left and the right neighbour one after the other is crediting both |
| Day7Timelines.Split | day7/solution_part2.kts:33-43 | a splitter hands its whole count to each neighbour inside the grid |
| Day7Timelines.Visit | day7/solution_part2.kts:32-48 | one column hands its count to each of its successors |
| Day7Timelines.RowStep | day7/solution_part2.kts:29-51 | the loop over one row's columns produces that row's new timeline map |
| Day7Timelines.TimelinesBefore | day7/solution_part2.kts:23-52 | the columns holding timelines stay inside the grid |
| Day7Timelines.ColumnsAreBeams | day7/solution_part2.kts:23-52 | the columns holding timelines are, row by row, exactly part 1's beams |
| Day7Timelines.CountsPositive | day7/solution_part2.kts:23-52 | every column in the map holds at least one timeline |
| Day7Timelines.InflowPositive | day7/solution_part2.kts:31-48 | every column that a beam reaches receives at least one timeline |
| Day7Timelines.TotalAtLeastColumns | day7/solution_part2.kts:55 | the sum of positive counts is at least the number of columns holding them |
| Day7Timelines.EmptyStays | day7/solution_part2.kts:27 | once the map is empty it stays empty, so the early exit changes nothing |
| Day7Timelines.Solve | day7/solution_part2.kts:6-56 | `solve` returns the sum of the timeline counts after the last row |
| Day7Timelines.AnswerAtLeastBeams | day7/solution_part2.kts:55 | there are at least as many timelines as beams leave the last row in part 1 |
| UnionFind.Root | day8/solution.cs:41-45 | following parent links from any element ends at a root, whose rank is at least the element's and strictly greater when the element is not a root itself |
| UnionFind.RootLabels | day8/solution.cs:64-66 | labelling every element by its root gives one label per element, and that label is its root |
| UnionFind.CompressedForest | day8/solution.cs:43 | pointing elements straight at their root keeps a valid forest |
| UnionFind.CompressedRoot | day8/solution.cs:43 | path compression keeps each element's root |
| UnionFind.CompressedSame | day8/solution.cs:43 | path compression keeps every element's root and the set of roots |
| UnionFind.CompressedTrans | day8/solution.cs:41-45 | two rounds of path compression are one round of path compression |
| UnionFind.Singletons | day8/solution.cs:37-39 | when every element is its own parent, every element is its own root |
| UnionFind.LinkRoot | day8/solution.cs:51-53 | hanging one root under another by rank keeps a forest and moves exactly the losing root's elements to the winner |
| UnionFind.LinkSame | day8/solution.cs:51-53 | after linking, two elements are together exactly when they were, or when each was with one of the two roots; the loser stops being a root |
| UnionFind.MergeSpec | day8/solution.cs:47-54 | union merges exactly the classes of x and y, and the number of classes drops by one |
| UnionFind.OneRoot | day8/solution_part2.cs:58-68 | when every element has the same root, that root is the only root |
| UnionFind.SingleRoot | day8/solution_part2.cs:58-68 | there is one class exactly when every element is with element 0 |
| UnionFind.Indices | day8/solution.cs:37-39 | the element indices are 0 .. n-1, n of them |
| UnionFind.UnionFind.constructor | day8/solution.cs:37-39 | every element starts as its own root with rank 0, giving n classes |
| UnionFind.UnionFind.Find | day8/solution.cs:41-45 | `Find` returns the root, points x straight at it and only compresses paths |
| UnionFind.LinkIsByRank | day8/solution.cs:47-54 | hanging the lower-rank root (y's root on a tie) under the other in a path-compressed forest is union by rank: only the winner's rank changes, by one exactly on equal ranks |
| UnionFind.UnionFind.Union | day8/solution_part2.cs:47-55 | `Union` merges exactly when x and y were apart; without a merge every rank is kept and parent links are only compressed; with one, the root of lower rank (y's root on a tie) goes under the other, whose rank grows by one exactly when the ranks were equal, no other rank changes; afterwards two elements are together exactly when they were or each was with one of x and y, and the number of classes drops by one on a merge |
| Day8Circuits.DistSq | day8/solution.cs:25-28 | the squared distance is never negative |
| Day8Circuits.Row | day8/solution.cs:23-30 | the inner loop lists, for point i, each later point with its squared distance, in index order |
| Day8Circuits.BuildPairs | day8/solution.cs:20-31 | the double loop lists the pairs of the first m points row by row |
| Day8Circuits.AppendRow | day8/solution.cs:23-30 | the inner loop appends exactly point i's row |
| Day8Circuits.PairsBelowOrdered | day8/solution.cs:21-31 | every listed pair has i < j and first index below m |
| Day8Circuits.RowMembers | day8/solution.cs:23-30 | point i's row holds exactly the pairs (i, j) with j > i, with their squared distance |
| Day8Circuits.PairsBelowMembers | day8/solution.cs:21-31 | the pairs listed for the first m points are exactly those with i < m and i < j |
| Day8Circuits.PairsBelowCount | day8/solution.cs:21-31 | the number of listed pairs is n(n-1)/2 minus the pairs among the unvisited points |
| Day8Circuits.PairsExact | day8/solution.cs:20-31 | all pairs i < j are listed exactly once, n(n-1)/2 of them |
| Day8Circuits.SortedPairs | day8/solution.cs:34 | the sorted list is a permutation of the pairs, by nondecreasing squared distance |
| Day8Circuits.ConnSymmetric | day8/solution.cs:47-54 | being connected by the joined pairs is symmetric |
| Day8Circuits.ConnTransitive | day8/solution.cs:47-54 | being connected is transitive |
| Day8Circuits.ConnReflexive | day8/solution.cs:47-54 | every point is connected to itself |
| Day8Circuits.ConnMonotone | day8/solution.cs:57-60 | joining more pairs keeps every connection |
| Day8Circuits.ConnEdge | day8/solution.cs:59 | a joined pair is connected |
| Day8Circuits.ConnLeast | day8/solution.cs:47-60 | connection is the least equivalence relating every joined pair |
| Day8Circuits.FirstLabelsShape | day8/solution.cs:63-68 | the dictionary's keys, in insertion order, are the distinct root labels seen |
| Day8Circuits.CountStep | day8/solution.cs:67 | one more point adds one to its label's count |
| Day8Circuits.ValuesBump | day8/solution.cs:67 | raising one size by one raises the total by one |
| Day8Circuits.ValuesSnoc | day8/solution.cs:67 | a new root enters with size 1 |
| Day8Circuits.TallyBump | day8/solution.cs:67 | a point of a known root adds one to that root's size |
| Day8Circuits.TallyNew | day8/solution.cs:67 | a point of a new root adds that root with size 1 |
| Day8Circuits.Tally | day8/solution.cs:63-68 | the size loop leaves, per root, the number of points with that root, keys in order of first appearance, sizes adding up to n |
| Day8Circuits.Counts | day8/solution.cs:63-68 | there is one count per key |
| Day8Circuits.CountsAreCircuitSizes | day8/solution.cs:63-68 | when labels agree exactly with connection, the counts are the circuit sizes, one per circuit |
| Day8Circuits.TalliedSizes | day8/solution.cs:63-71 | the tallied sizes are the circuit sizes, and they add up to the number of points |
| Day8Circuits.TopThreeLargest | day8/solution.cs:71-72 | the answer is the product of three values taken from distinct entries, no other value larger than the smallest of them |
| Day8Circuits.TopThree | day8/solution.cs:71-72 | there is a product exactly when there are at least three circuit sizes; otherwise `top3[2]` throws |
| Day8Circuits.TracksStart | day8/solution.cs:37-39 | singletons agree with no pairs joined |
| Day8Circuits.TracksStep | day8/solution.cs:59 | one union keeps union-find in step with connection over one more pair |
| Day8Circuits.ConnectAll | day8/solution.cs:57-60 | after the joins, two points share a root exactly when the joined pairs connect them |
| Day8Circuits.Part1 | day8/solution.cs:17-72 | the answer is the product of the three largest circuit sizes after joining the 1000 closest pairs; none where the source throws (fewer than 1000 pairs or fewer than three circuits) |
| Day8LastLink.JoiningIndex | day8/solution_part2.cs:57-70 | the completing pair is the first pair in sorted order after which one circuit remains, or none is |
| Day8LastLink.AllJoinedMonotone | day8/solution_part2.cs:61-70 | once all points are in one circuit, joining more pairs keeps them so |
| Day8LastLink.JoiningIndexUnique | day8/solution_part2.cs:61-70 | the pair at which the points first become one circuit is the completing pair |
| Day8LastLink.JoiningStep | day8/solution_part2.cs:61-70 | scanning the pairs in order, the first one that completes the circuit is the completing pair |
| Day8LastLink.AllPairsJoin | day8/solution_part2.cs:61-70 | joining every pair leaves a single circuit |
| Day8LastLink.JoiningIndexExists | day8/solution_part2.cs:61-70 | with two or more points some pair completes the circuit, so the loop always breaks |
| Day8LastLink.NoPairs | day8/solution_part2.cs:21-31 | fewer than two points give no pairs |
| Day8LastLink.OneCircuit | day8/solution_part2.cs:58-68 | union-find has one root exactly when the joined pairs connect every point |
| Day8LastLink.JoinPair | day8/solution_part2.cs:63-68 | one `Union` of the loop keeps union-find in step with the pairs joined so far, removes one circuit exactly when it merges, and leaves one circuit exactly when the joined pairs connect every point |
| Day8LastLink.JoinUntilOne | day8/solution_part2.cs:57-70 | the join loop records the completing pair's two points; with no pairs it records -1 |
| Day8LastLink.Part2 | day8/solution_part2.cs:17-72 | the answer is the product of the x coordinates of the completing pair's points; none for fewer than two points, where `points[-1]` throws |
| Day9Tiles.Abs | day9/solution.swift:23 | `abs` returns the value or its negation, never negative |
| Day9Tiles.Area | day9/solution.swift:16-23 | a rectangle with two red corners covers at least one tile |
| Day9Tiles.PositiveProduct | day9/solution.swift:23 | a product of two positive side lengths is positive and at least either side |
| Day9Tiles.AreaSymmetric | day9/solution.swift:19-23 | the area does not depend on which corner comes first, so pairs i < j suffice |
| Day9Tiles.RowMax | day9/solution.swift:20-25 | the inner loop's maximum is at least the running maximum, bounds every pair (i, j) with j > i, and is attained by one of them when it changed |
| Day9Tiles.MaxArea | day9/solution.swift:17-26 | the answer is 0 with fewer than two points; otherwise it bounds every pair's area and is the area of some pair |
| Day9Polygon.Edge.MinY | day9/solution2.swift:21 | `minY` is the smaller of the two y coordinates |
| Day9Polygon.Edge.MaxY | day9/solution2.swift:22 | `maxY` is the larger of the two y coordinates |
| Day9Polygon.Edge.MinX | day9/solution2.swift:23 | `minX` is the smaller of the two x coordinates |
| Day9Polygon.Edge.MaxX | day9/solution2.swift:24 | `maxX` is the larger of the two x coordinates |
| Day9Polygon.EdgesClose | day9/solution2.swift:27-32 | each edge starts at its vertex and ends where the next edge starts, and the last edge returns to the first vertex |
| Day9Polygon.BuildEdges | day9/solution2.swift:27-32 | the edge loop builds one edge per vertex, to the next vertex with wrap-around |
| Day9Polygon.Select | day9/solution2.swift:41-42 | `filter` keeps exactly the edges that pass the test |
| Day9Polygon.InsertUnique | day9/solution2.swift:38 | adding a y to a strictly increasing list keeps it strictly increasing and adds exactly that y |
| Day9Polygon.DistinctSorted | day9/solution2.swift:38 | `Set(...).sorted()` gives a strictly increasing list of exactly the given values |
| Day9Polygon.Edges | day9/solution2.swift:27-32 | the polygon has one edge per vertex, joining it to the next |
| Day9Polygon.VerticalEdges | day9/solution2.swift:41 | the vertical edges, exactly, sorted by x |
| Day9Polygon.HorizontalEdges | day9/solution2.swift:42 | the horizontal edges, exactly |
| Day9Polygon.VertexYs | day9/solution2.swift:38 | the distinct vertex y coordinates, increasing |
| Day9Polygon.Outline | day9/solution2.swift:27-42 | the set-up builds the edges, the vertical and horizontal edges and the vertex rows of the input points |
| Day9Polygon.Crossings | day9/solution2.swift:48-54 | at most one crossing per vertical edge |
| Day9Polygon.CrossingsMembers | day9/solution2.swift:48-54 | an x is a crossing of row y exactly when some vertical edge at that x strictly spans y |
| Day9Polygon.CollectCrossings | day9/solution2.swift:48-54 | the crossing loop collects exactly those x values, in edge order |
| Day9Polygon.InsidePairs | day9/solution2.swift:57-60 | the ranges pair the crossings two by two, a trailing odd one dropped |
| Day9Polygon.GetInsideXRanges | day9/solution2.swift:45-62 | `getInsideXRanges` pairs the sorted crossings of the row |
| Day9Polygon.PairUp | day9/solution2.swift:57-60 | the stride loop pairs crossings 0–1, 2–3, …, dropping an odd last one |
| Day9Polygon.InsidePairsSorted | day9/solution2.swift:55-60 | pairing sorted crossings gives well-formed ranges in order of their starts |
| Day9Polygon.CountBelow | day9/solution2.swift:76-81 | the left crossings are at most all crossings |
| Day9Polygon.CountBelowAppend | day9/solution2.swift:76-81 | counting crossings left of x adds over concatenation |
| Day9Polygon.CountBelowPermutation | day9/solution2.swift:55-81 | counting crossings left of x does not depend on their order |
| Day9Polygon.CountBelowRemove | day9/solution2.swift:76-81 | one crossing can be taken out of the count |
| Day9Polygon.CountBelowNone | day9/solution2.swift:78 | no crossing lies left of x when all lie right of it |
| Day9Polygon.PairsParity | day9/solution2.swift:57-82 | for an even number of sorted crossings, x is in one of the paired ranges exactly when an odd number of crossings lie left of it |
| Day9Polygon.PairsUnfold | day9/solution2.swift:57-60 | the first range pairs the two smallest crossings and the rest pair the remainder |
| Day9Polygon.NotCoveredBefore | day9/solution2.swift:57-60 | left of every crossing nothing is inside |
| Day9Polygon.RayCastAgrees | day9/solution2.swift:45-82 | the ranges of `getInsideXRanges` and the ray cast of `isPointInsideOrOnBoundary` agree off the crossings |
| Day9Polygon.IsPointInsideOrOnBoundary | day9/solution2.swift:65-83 | a point counts as inside exactly when it lies on an edge or an odd number of vertical edges strictly spanning its row lie strictly left of it |
| Day9Polygon.VertexInside | day9/solution2.swift:65-74 | every vertex of an axis-parallel edge counts as inside |
| Day9Polygon.SeqMinMax | day9/solution2.swift:141 | the minimum and the maximum are members and bound every member |
| Day9Polygon.OrderedEnds | day9/solution2.swift:139-141 | any sorted permutation starts with the minimum and ends with the maximum |
| Day9Polygon.StrictInteriorBounds | day9/solution2.swift:131-142 | there is no range exactly when fewer than two edges cross; otherwise it runs from the leftmost crossing to the rightmost, both crossings |
| Day9Polygon.GetStrictInteriorXRange | day9/solution2.swift:131-142 | the method computes that range |
| Day9Polygon.RowSpans | day9/solution2.swift:99-102 | one well-formed range per horizontal edge at most |
| Day9Polygon.RowSpansCover | day9/solution2.swift:99-102 | x is in the row's edge ranges exactly when a horizontal edge on that row reaches over x |
| Day9Polygon.CollectRowSpans | day9/solution2.swift:167-170 | the loop collects those ranges |
| Day9Polygon.AnyHolds | day9/solution2.swift:121-126 | the containment loop finds a merged range holding [minX, maxX] exactly when one exists |
| Day9Polygon.MergeAndCheck | day9/solution2.swift:106-126 | sort, merge with the given join distance and containment check, as one decision |
| Day9Polygon.SortMergeCovers | day9/solution2.swift:106-118 | merging the sorted ranges gives ranges in order, kept apart by the join distance, that cover exactly the x the inputs cover |
| Day9Polygon.AdjacentMergeExact | day9/solution2.swift:188-207 | with join distance 1 a segment fits exactly when every tile of it is covered |
| Day9Polygon.OverlapMergeSound | day9/solution2.swift:106-126 | with join distance 0 a segment that fits is covered tile by tile |
| Day9Polygon.OverlapMergeMissesTouching | day9/solution2.swift:113 | ranges (0,5) and (6,10) cover every tile of [0,10], yet the distance-0 merge does not accept it while the distance-1 merge does |
| Day9Polygon.IsHorizontalSegmentInside | day9/solution2.swift:86-127 | `isHorizontalSegmentInside` accepts exactly when both ends are inside and a distance-0 merged range holds the segment, and then every tile of it is covered |
| Day9Polygon.Mid | day9/solution2.swift:175-213 | the midpoint lies between the two rows, strictly when they are more than one apart |
| Day9Polygon.CriticalYs | day9/solution2.swift:159 | the critical rows are exactly the vertex rows in [minY, maxY], increasing |
| Day9Polygon.IncreasingSorted | day9/solution2.swift:159 | the extra `sorted()` leaves the filtered rows unchanged |
| Day9Polygon.CriticalYsEnds | day9/solution2.swift:152-159 | for two vertices the critical rows start at the lower corner's row and end at the upper's |
| Day9Polygon.Rows | day9/solution2.swift:162-185 | one list of ranges per critical row |
| Day9Polygon.RowsAt | day9/solution2.swift:162-185 | row i's list holds its edge spans and the interior ranges just above and below it |
| Day9Polygon.StripRangeWellFormed | day9/solution2.swift:174-185 | the interior ranges are well formed |
| Day9Polygon.RowCheckExact | day9/solution2.swift:187-208 | a critical row accepts [minX, maxX] exactly when each of its tiles is covered by the row's ranges |
| Day9Polygon.RectRowsCovered | day9/solution2.swift:162-209 | an accepted rectangle has every tile of every critical row covered |
| Day9Polygon.CollectRowRanges | day9/solution2.swift:167-185 | the loop collects row i's ranges |
| Day9Polygon.RowFits | day9/solution2.swift:187-208 | the check of row i |
| Day9Polygon.RowsFit | day9/solution2.swift:162-209 | the loop over the critical rows accepts exactly when every row fits |
| Day9Polygon.StripsFit | day9/solution2.swift:212-221 | the strip loop accepts exactly when every strip's interior range exists and reaches over [minX, maxX] |
| Day9Polygon.IsRectangleInside | day9/solution2.swift:145-224 | `isRectangleInside` accepts exactly when both corners are vertices, every critical row fits and every strip fits |
| Day9Polygon.InsideRowMax | day9/solution2.swift:230-245 | the inner loop keeps the largest area over the accepted pairs (i, j), attained by one of them when it changed |
| Day9Polygon.MaxInsideArea | day9/solution2.swift:227-246 | the answer bounds every accepted pair's area (corners in different rows and columns) and is the area of one of them, or 0 when none is accepted |
| Day9Polygon.ConsiderPair | day9/solution2.swift:231-244 | one pair never lowers the best area; an accepted pair's area is at most the new best; the best changes only to an accepted pair's area |
| Day10Parse.ParseNumbers | day10/src/main.rs:72-88 | a group yields at most one number per comma-separated piece |
| Day10Parse.ParseNumbersSome | day10/src/main.rs:72-88 | a group parses exactly when every non-blank piece trims to a number; otherwise `unwrap` panics |
| Day10Parse.CloseAt | day10/src/main.rs:68-82 | the inner loop stops at the first closer from the opener on, or at the end of the line, and skips no closer |
| Day10Parse.SkipTo | day10/src/main.rs:68-82 | the `while` loop stops exactly there |
| Day10Parse.ScanButton | day10/src/main.rs:66-90 | the '(' branch appends the group's numbers as one more button and resumes after the closer, or the line fails |
| Day10Parse.ScanJoltages | day10/src/main.rs:78-90 | the '{' branch replaces the joltages by the group's numbers and resumes after the closer, or the line fails |
| Day10Parse.ScanLine | day10/src/main.rs:63-91 | the scan after ']' collects the buttons in order and the last joltage group, empty when there is none |
| Day10Parse.ParseLine | day10/src/main.rs:46-94 | `parse_line` reads the lights between the first '[' and the first ']' ('#' is on) and then the groups; a missing bracket, a ']' before the '[' or a bad number gives no machine |
| Day10Parse.ShowListChars | day10/src/main.rs:72-76 | a rendered list holds only digits and commas |
| Day10Parse.NoSpaceInShow | day10/src/main.rs:75 | a rendered number has no surrounding space and no comma |
| Day10Parse.ParseNumbersShown | day10/src/main.rs:72-76 | a rendered number at the head of a group parses back to itself |
| Day10Parse.ParseListShow | day10/src/main.rs:72-88 | a list rendered with commas parses back to the same list |
| Day10Parse.LightsText | day10/src/main.rs:55-57 | the diagram has one character per light |
| Day10Parse.CloseAtDrop | day10/src/main.rs:60-70 | looking for the closer in a suffix finds the same position |
| Day10Parse.ScanFromDrop | day10/src/main.rs:60-91 | the scan gives the same groups from a suffix of the line |
| Day10Parse.GroupAt | day10/src/main.rs:63-91 | a group followed by more text is read as that group followed by what the rest yields |
| Day10Parse.ScanGroupsText | day10/src/main.rs:63-91 | rendered groups scan back to the same buttons and joltages |
| Day10Parse.ParseRender | day10/src/main.rs:46-94 | a machine rendered as `[lights] (b) … {j}` parses back to the same machine |
| Day10Parse.ReadRender | day10/src/main.rs:46-94 | the same round trip holds for any group reader that reads back rendered lists |
| GF2.DotRangeSplit | day10/src/main.rs:179-182 | the XOR of products over a range splits at any midpoint |
| GF2.DotRangeZero | day10/src/main.rs:179-182 | a row with zeros over a range contributes nothing there |
| GF2.DotRangeAgree | day10/src/main.rs:179-182 | the row's value depends only on the unknowns where the row has a one |
| GF2.XorRows | day10/src/main.rs:143-145 | XOR-ing two rows keeps the width |
| GF2.DotRangeXor | day10/src/main.rs:143-145 | the value of the XOR of two rows is the XOR of their values |
| GF2.Swap | day10/src/main.rs:137 | swapping two rows keeps the number of rows |
| GF2.SwapSame | day10/src/main.rs:137 | a row swap keeps the shape and the solution set |
| GF2.XorSame | day10/src/main.rs:141-147 | adding one row into another keeps the shape and the solution set |
| GF2.ContradictoryRow | day10/src/main.rs:153-157 | a row 0 = 1 rules out every solution |
| Day10Toggle.Weight | day10/src/main.rs:186 | the number of presses is at most the number of buttons |
| Day10Toggle.BuildMatrix | day10/src/main.rs:107-120 | the augmented matrix has one row per light and a column per button plus the target column; entry (l, b) is set exactly when button b lists light l, indices past the last light ignored |
| Day10Toggle.RowToggles | day10/src/main.rs:107-120 | a row's value under presses x is the state of its light after pressing the buttons x marks |
| Day10Toggle.MatrixSolutions | day10/src/main.rs:105-120 | the solutions of the matrix are exactly the press patterns that light the target |
| Day10Toggle.FindPivot | day10/src/main.rs:128-134 | the pivot search returns the first row at or below `row` with a one in the column, or none when there is none |
| Day10Toggle.SwapEchelon | day10/src/main.rs:137 | swapping the pivot row up keeps the echelon shape built so far |
| Day10Toggle.XorInto | day10/src/main.rs:143-145 | the inner loop XORs the pivot row into the target row |
| Day10Toggle.EliminateColumn | day10/src/main.rs:136-149 | one pivot step keeps the solution set and extends the reduced echelon shape by one pivot column |
| Day10Toggle.Eliminate | day10/src/main.rs:122-150 | elimination keeps the solution set and ends in reduced row echelon form |
| Day10Toggle.PivotEquation | day10/src/main.rs:177-184 | in reduced form each pivot row fixes its pivot unknown from the unknowns to its right |
| Day10Toggle.ZeroRow | day10/src/main.rs:152-157 | a row below the rank holds exactly when its right-hand side is 0 |
| Day10Toggle.InconsistentUnsolvable | day10/src/main.rs:152-157 | a row below the rank with right-hand side 1 rules out every solution |
| Day10Toggle.FreeColumns | day10/src/main.rs:160-162 | the free columns are exactly the non-pivot buttons, increasing |
| Day10Toggle.Pow2 | day10/src/main.rs:169 | `1 << n_free` is positive |
| Day10Toggle.EncodeBound | day10/src/main.rs:169-175 | every assignment of the free variables is one of the enumerated masks |
| Day10Toggle.EncodeBits | day10/src/main.rs:173-175 | that mask sets each free variable to its value in the assignment |
| Day10Toggle.FreeDetermines | day10/src/main.rs:172-184 | two solutions that agree on the free variables are equal |
| Day10Toggle.RowValue | day10/src/main.rs:179-182 | the back-substitution loop computes the right-hand side XOR the row's known terms |
| Day10Toggle.BackSubstitute | day10/src/main.rs:170-184 | every mask gives a solution whose free variables are the mask's bits |
| Day10Toggle.MinPresses | day10/src/main.rs:166-190 | the enumeration's minimum is at most the weight of every solution and is the weight of one of them |
| Day10Toggle.SolvePart1 | day10/src/main.rs:97-191 | `solve_part1` returns u64::MAX when no presses light the target, otherwise the fewest presses that do |
| Day10Main.NonBlank | day10/src/main.rs:10 | the kept lines are exactly the input lines that are not blank |
| Day10Main.MachinesSome | day10/src/main.rs:10-22 | the input is read exactly when every kept line parses |
| Day10Main.MachinesOfLines | day10/src/main.rs:10-22 | there is then one machine per kept line, in order, read from that line |
| Day10Main.MachinesNoneStays | day10/src/main.rs:19-36 | a line that does not parse makes the whole input fail |
| Day10Main.FewestUnique | day10/src/main.rs:97-191 | a machine's part-1 answer is determined by the machine |
| Day10Main.Part1Total | day10/src/main.rs:7-39 | part 1 is the sum, over the machines of the kept lines, of each one's part-1 answer; none when a kept line does not parse |
| Day11Graph.PathsCountsWalks | day11/solution.c:42-60 | `count_paths` (without its memo) counts the walks from the node to `out`, one per choice of edge at each step |
| Day11Graph.Paths | day11/solution.c:42-60 | `count_paths` without its memo: 1 at `out`, otherwise the sum over the node's edges; defined for ranked (acyclic) graphs |
| Day11Graph.TotalCountsWalks | day11/solution.c:54-56 | the edge loop adds up the walks leaving through each of the first n edges |
| Day11Graph.WalksSound | day11/solution.c:42-60 | every counted walk starts at the node, follows edges, and reaches `out` only at its end |
| Day11Graph.WalksViaSound | day11/solution.c:54-56 | the same for the walks through the first n edges |
| Day11Graph.WalksViaGrow | day11/solution.c:54-56 | looking at more edges only adds walks |
| Day11Graph.WalksComplete | day11/solution.c:42-60 | every walk from the node to `out` is counted |
| Day11Graph.Mark | day11/solution.c:65-67 | after reaching a node, bit 0 is set exactly when it was or the node is `dac`, bit 1 exactly when it was or the node is `fft` |
| Day11Graph.Covering | day11/solution.c:69-72 | the walks that pass both `dac` and `fft` are at most all walks |
| Day11Graph.CoveringAppend | day11/solution.c:81-83 | counting the covering walks adds over the edges |
| Day11Graph.CoveringPrepend | day11/solution.c:65-82 | stepping through a node first is marking it first |
| Day11Graph.Paths2CountsWalks | day11/solution.c:64-87 | `count_paths2` (without its memo) counts the walks to `out` that, with the bits already set, pass both `dac` and `fft` |
| Day11Graph.Paths2 | day11/solution.c:64-87 | `count_paths2` without its memo: the mask updated at `dac`/`fft`, 1 at `out` with both bits set, otherwise the sum over the edges |
| Day11Graph.Total2CountsWalks | day11/solution.c:81-83 | the edge loop of part 2 adds up those walks edge by edge |
| Day11Graph.SeenFull | day11/solution.c:65-67 | once both bits are set they stay set |
| Day11Graph.CoveringFull | day11/solution.c:69-72 | with both bits set every walk counts |
| Day11Graph.Paths2Full | day11/solution.c:64-87 | from state 3 part 2 counts exactly what part 1 counts |
| Day11Graph.Paths2Bound | day11/solution.c:64-87 | part 2 never counts more walks than part 1 from the same node |
| Day11Network.Stored | day11/solution.c:35-36 | `strncpy` into the 8-byte name keeps names shorter than 8 characters whole and cuts longer ones to 7 |
| Day11Network.StoreKeepsDistinct | day11/solution.c:28-39 | a new short name stored after the search keeps the table free of duplicates |
| Day11Network.LongNameIsNew | day11/solution.c:29-33 | a name of 8 or more characters never matches a stored one, so each mention creates a node |
| Day11Network.Capped | day11/solution.c:129-131 | a node never holds more than 32 edges |
| Day11Network.CappedStep | day11/solution.c:129-131 | one more destination is appended exactly when the node has room |
| Day11Network.LastIndex | day11/solution.c:139-145 | the search keeps the last node carrying the name, none when no node does |
| Day11Network.UntouchedTrans | day11/solution.c:126-133 | leaving the other nodes' edges alone composes over the destinations of a line |
| Day11Network.FirstIndex | day11/solution.c:29-33 | the search returns the first node carrying the name |
| Day11Network.InternAll | day11/solution.c:126-131 | get_or_create_node on a list of names returns one index per name into the table, which only grows, by at most one node per name |
| Day11Network.InternResolves | day11/solution.c:28-39 | get_or_create_node returns a node carrying the stored name; the table stays free of duplicates when the name is short (a long one is cut to 7 characters, which may match a stored name) |
| Day11Network.InternAllResolves | day11/solution.c:126-131 | each destination's index carries its stored name, and a table without duplicates stays so when every name is short |
| Day11Network.InternAllKnown | day11/solution.c:29-33 | names already in the table add no node |
| Day11Network.InternAllStep | day11/solution.c:126-131 | one more destination is one more get_or_create_node on the table so far |
| Day11Network.InternAllPrefix | day11/solution.c:126-131 | the table never shrinks while the destinations are read |
| Day11Network.Network.ConnectAll | day11/solution.c:126-132 | the destination loop leaves the table and indices of get_or_create_node on each destination in turn, the source's edges capped at 32, and every other node's edges alone |
| Day11Network.Network.constructor | day11/solution.c:17-20 | the table starts empty with both memos cleared |
| Day11Network.Network.GetOrCreate | day11/solution.c:28-39 | `get_or_create_node` returns the first node with the name and changes nothing, or appends the stored name with no edges and returns its index (`Intern`) |
| Day11Network.Network.AddEdge | day11/solution.c:129-131 | the capped append changes only the source node's edges |
| Day11Network.Network.Connect | day11/solution.c:128-131 | one destination: find or create its node (`Intern`), then the capped append to the source |
| Day11Network.Network.AddLine | day11/solution.c:123-133 | the table and the indices are exactly those of get_or_create_node on the source and then on each destination in turn (no other node is added, a known name resolves to its first node); the indices carry the stored names; the destinations' nodes are appended to the source's edges while there is room, and the other nodes' edges are left alone |
| Day11Network.Network.Locate | day11/solution.c:139-145 | the search loop finds the last node with the name |
| Day11Network.Network.CountPaths | day11/solution.c:42-60 | the memoised count equals the walk count and keeps every memo entry correct |
| Day11Network.Network.CountPaths2 | day11/solution.c:64-87 | the memoised part-2 count equals the covering-walk count and keeps every memo entry correct |
| Day11Network.Network.Part1 | day11/solution.c:139-154 | part 1 is the number of walks from `you` to `out`; none when either node is missing |
| Day11Network.Network.Part2 | day11/solution.c:139-163 | part 2 is the number of walks from `svr` to `out` through `dac` and `fft`; none when one of them is missing |
| Day11Network.MarkTwice | day11/solution.c:65-85 | marking twice is marking once, so the memo key already carries the node's own bits |
| Day12Shapes.RowCellsExact | day12/solution.ts:40-44 | the inner loop lists exactly the '#' cells of the row's first n columns, in increasing order |
| Day12Shapes.CellsUpToExact | day12/solution.ts:39-45 | the outer loop lists exactly the '#' cells of the first m rows, in increasing order |
| Day12Shapes.CellsExact | day12/solution.ts:37-47 | a shape's points are exactly its '#' cells, in row-major order and without repeats |
| Day12Shapes.ShapePoints | day12/solution.ts:37-47 | `getShapePoints` builds that list |
| Day12Shapes.MinRow | day12/solution.ts:51 | `minR` bounds every row from below and is the row of some point |
| Day12Shapes.MinCol | day12/solution.ts:52 | `minC` bounds every column from below and is the column of some point |
| Day12Shapes.Shift | day12/solution.ts:53 | shifting keeps one point per point |
| Day12Shapes.MinsOfSameElements | day12/solution.ts:51-52 | the minima depend only on which points there are |
| Day12Shapes.ShiftedMins | day12/solution.ts:53 | after the shift the smallest row and column are 0 |
| Day12Shapes.SortedMins | day12/solution.ts:54 | sorting gives a sorted list with the same minima |
| Day12Shapes.NormalizeFacts | day12/solution.ts:49-56 | `normalizePoints` keeps the number of points, is a permutation of the shifted points, and yields a sorted list touching row 0 and column 0 |
| Day12Shapes.Normalize | day12/solution.ts:49-56 | `normalizePoints` keeps the number of points |
| Day12Shapes.NormalizedFixed | day12/solution.ts:49-56 | a list already in normal form is left as it is |
| Day12Shapes.NormalizeIdempotent | day12/solution.ts:49-56 | normalizing twice is normalizing once |
| Day12Shapes.Rotate | day12/solution.ts:58-60 | a rotation keeps one point per point |
| Day12Shapes.Flip | day12/solution.ts:62-64 | a flip keeps one point per point |
| Day12Shapes.RotateFour | day12/solution.ts:58-85 | four rotations give the points back, so the second pass starts from the flipped shape |
| Day12Shapes.FlipTwice | day12/solution.ts:62-64 | flipping twice gives the points back |
| Day12Shapes.Rotations | day12/solution.ts:84 | rotating keeps one point per point |
| Day12Shapes.CandidatesWith | day12/solution.ts:76-87 | the loops produce eight normalized candidates: the four rotations of the shape, then the four of its flip |
| Day12Shapes.Candidates | day12/solution.ts:76-87 | the candidates of a shape, normalized with `normalizePoints` |
| Day12Shapes.Dedupe | day12/solution.ts:79-83 | the `seen` set keeps each distinct candidate, and nothing else |
| Day12Shapes.DedupeDistinct | day12/solution.ts:79-83 | no orientation is kept twice |
| Day12Shapes.OrientationsWith | day12/solution.ts:70-90 | the loops with the `seen` set keep the first copy of each candidate, in order |
| Day12Shapes.AllOrientations | day12/solution.ts:70-90 | `getAllOrientations` returns the distinct candidates in the order first met |
| Day12Shapes.CandidateFacts | day12/solution.ts:76-87 | each candidate is a normalized rotation of the shape or of its flip, with as many points |
| Day12Shapes.OrientationsFacts | day12/solution.ts:70-90 | a shape has between one and eight orientations, pairwise distinct, each a normalized rotation of the shape or of its flip |
| Day12Shapes.DuplicateCount | day12/solution.ts:37-47 | a point listed twice has multiplicity at least 2 |
| Day12Shapes.DistinctCount | day12/solution.ts:37-47 | in a list without repeats every point has multiplicity at most 1 |
| Day12Shapes.SameElementsDistinct | day12/solution.ts:54 | a permutation of a list without repeats has none |
| Day12Shapes.RotationsDistinct | day12/solution.ts:58-60 | rotating keeps the points distinct |
| Day12Shapes.BaseDistinct | day12/solution.ts:62-64 | flipping keeps the points distinct |
| Day12Shapes.NormalizeDistinct | day12/solution.ts:49-56 | normalizing keeps the points distinct |
| Day12Shapes.OrientationsDistinctPoints | day12/solution.ts:70-90 | every orientation of a shape has distinct points |
| Day12Packing.Occupied | day12/solution.ts:92-107 | the occupied cells are exactly the grid cells set to true |
| Day12Packing.CanPlace | day12/solution.ts:92-101 | `canPlace` holds exactly when every cell of the piece anchored at (r, c) lies in the region and is free |
| Day12Packing.Place | day12/solution.ts:103-107 | `place` sets exactly the piece's cells to the value and leaves every other cell, so the occupied set gains or loses exactly those cells |
| Day12Packing.AnchoredStep | day12/solution.ts:104-106 | one more point of the piece adds its cell |
| Day12Packing.PlaceRestores | day12/solution.ts:132-140 | removing a piece that fitted gives the grid back as it was |
| Day12Packing.PendingTake | day12/solution.ts:133 | taking one piece lowers the pieces still to place by one |
| Day12Packing.NextPiece | day12/solution.ts:118-120 | the skip loop stops at the first kind from pieceIndex on with pieces left, or past the end |
| Day12Packing.Solve | day12/solution.ts:109-147 | `solve` succeeds exactly when the remaining pieces can be placed one kind at a time, each at some cell in some orientation, without overlap; on failure grid and counts are as before, on success the counts from pieceIndex on are 0 |
| Day12Packing.TryRow | day12/solution.ts:128-144 | one row of the search succeeds exactly when some column and orientation leads to a packing |
| Day12Packing.TryAt | day12/solution.ts:130-142 | one cell of the search succeeds exactly when some orientation fits there and the rest can then be packed, undoing the placement otherwise |
| Day12Packing.TryOrientation | day12/solution.ts:131-141 | one orientation at one cell succeeds exactly when it fits and the rest can then be packed; on failure the grid and the counts are restored; on success every count from the current shape on is 0 |
| Day12Packing.CanFitAll | day12/solution.ts:149-172 | `canFitAll` holds exactly when the area check passes and the search from an empty grid with the counts succeeds |
| Day12Packing.NothingToPlace | day12/solution.ts:118-123 | with all counts zero nothing is demanded and the empty grid is a packing |
| Day12Packing.RowBoxSize | day12/solution.ts:166-168 | a grid row has width cells |
| Day12Packing.BoxSize | day12/solution.ts:162-168 | the region has width × height cells |
| Day12Packing.BoxRow | day12/solution.ts:166-168 | the region is the rows above the last one plus the last row, apart |
| Sums.SubsetCard | day12/solution.ts:162 | a subset is no larger than the set |
| Day12Packing.AnchoredSize | day12/solution.ts:92-107 | a piece with distinct points covers as many cells as it has points |
| Day12Packing.AddFresh | day12/solution.ts:105 | adding a new cell adds one |
| Day12Packing.AnchoredFresh | day12/solution.ts:104-106 | the cells of distinct points are distinct |
| Day12Packing.DemandOfZeros | day12/solution.ts:157-161 | kinds with count 0 demand no cells |
| Day12Packing.DemandSuffix | day12/solution.ts:157-161 | the cells demanded from kind i on depend only on the counts from i on |
| Day12Packing.DemandTake | day12/solution.ts:133 | taking one piece lowers the demand by that piece's size |
| Day12Packing.PackableWithinArea | day12/solution.ts:128-162 | whenever the rest can be packed, the occupied cells plus the cells still demanded fit in the region |
| Day12Packing.PrecheckSound | day12/solution.ts:155-164 | the area check never rejects a region the search would fill: the answer is decided by the search alone |
| Day12Packing.FillableCount | day12/solution.ts:181-186 | the count is at most the number of regions |
| Day12Packing.PackableCount | day12/solution.ts:181-186 | the count is at most the number of regions |
| Day12Packing.CountFillable | day12/solution.ts:181-186 | the loop counts the regions that `canFitAll` accepts |
| Day12Packing.OrientationsOf | day12/solution.ts:179 | one orientation list per shape |
| Day12Packing.Answer | day12/solution.ts:174-192 | the answer is the number of regions whose pieces fit |
| Day12Packing.OrientationsUniform | day12/solution.ts:70-90 | all orientations of a shape have as many points as the shape, so `shapeOrientations[i][0].length` is the piece's size |
| Day12Packing.AnswerBySearch | day12/solution.ts:149-192 | the answer equals the number of regions for which the search alone finds a packing |
| Decimal.Show | day2/solution.js:14 | `toString` of a natural number is a canonical digit string, with no leading zero unless it is "0" |
| Decimal.ValueShow | day2/solution.js:14 | reading back the digits of `toString(n)` gives n |
| Decimal.ShowValue | day2/solution.js:14 | a canonical digit string is `toString` of its value |
| Decimal.ValueAppend | day2/solution.js:64 | the value of concatenated digits is the first value shifted by the second's length plus the second value |
| Decimal.ValueBounds | day2/solution.js:15 | k digits have a value below 10^k, and at least 10^(k-1) without a leading zero |
| Decimal.ShowLength | day2/solution.js:15 | n has k digits exactly when 10^(k-1) <= n < 10^k |
| Decimal.ShorterIsSmaller | day2/solution.js:15 | a number with fewer digits is smaller |
| Text.TrimStart | day10/src/main.rs:74-75 | trimming the front removes exactly the leading whitespace |
| Text.TrimEnd | day10/src/main.rs:74-75 | trimming the back removes exactly the trailing whitespace |
| Text.Trim | day10/src/main.rs:74-75 | `trim` leaves no whitespace at either end, and is empty exactly when the string is all whitespace |
| Text.Find | day10/src/main.rs:52-53 | `find` gives the first position of the character, none when it does not occur |
| Text.FindAfter | day10/src/main.rs:52-53 | a character's first occurrence is right after a prefix without it |
| Text.Split | day10/src/main.rs:73-85 | `split` gives at least one piece, none holding the separator |
| Text.JoinSplit | day10/src/main.rs:73-85 | joining the pieces of `split` with the separator gives the string back |
| Text.SplitJoin | day10/src/main.rs:73-85 | splitting pieces joined by a separator they do not hold gives the pieces back |
| Text.TrimUnchanged | day10/src/main.rs:74-75 | a string without surrounding whitespace is its own trim |
| Text.ParseUnsigned | day10/src/main.rs:75-87 | an unsigned `parse` succeeds exactly on digits, optionally after a '+' |
| Text.ParseSigned | day6/solution.rs:57 | a signed `parse` reads a leading '-' as negation and otherwise parses as unsigned |
| Text.ParseShow | day10/src/main.rs:75 | a number's decimal string parses back to the number |
| Sums.SumAppend | day10/src/main.rs:39 | the sum of concatenated lists is the sum of their sums, so a running total over the lines equals the iterator `sum` |
| Sums.SumPermutation | day10/src/main.rs:16-39 | a sum does not depend on the order of its terms, so summing the per-line results in any order gives the same total |

## Left out

- File reading, command-line arguments and printing in every solver's `main`. The parsed values are taken as inputs. Input lines are taken as already split, as `lines()`/`split("\n")` give them.
- Library sorts (`List.Sort`, `sort_by_key`, Swift `sorted`, `Array.prototype.sort`) are modelled by `Sorting.SortBy`, a stable insertion sort proved sorted and a permutation. Where two elements tie on the key, the source's sort order is not modelled beyond that.
- Day 1: `Text.ParseSigned` accepts an optional '+' or '-' followed by ASCII digits, as Python's `int()` does. `int()` also accepts '_' between digits, surrounding whitespace and non-ASCII digits; those forms are not modelled.
- Day 2: `Number()` parsing of the range text is not modelled, so ranges are pairs of naturals. `Math.pow` is an exact power of ten, and BigInt is an unbounded natural.
- Day3Pairs: Go's byte arithmetic `line[i] - '0'` is modelled with wrap-around modulo 256, and lines are otherwise taken as given.
- Day3Greedy.MaxJoltage12: requires a line of digits and k >= 1. A byte above '9' can be picked, and the source's `SetString` then fails and leaves the value undefined; so does k = 0, which gives an empty string. A byte below '0' is never picked, because the scan starts from '0', but lines holding one are not modelled either. `math/big` is an unbounded natural.
- Day3Greedy.TotalJoltage: requires every line of at least twelve characters to be digits, for the same reason.
- Day4Rolls.Part1: requires a grid of at least one row, because the source reads the width from `grid[0]`. The same holds for Day4Rolls.Part2.
- Day5Merge.CountCovered: the covered-set and count ensures are stated only for well-formed ranges (start <= end). The source's `e - s + 1` on u64 underflows otherwise, and `last.1 + 1` overflows at u64::MAX; neither overflow is modelled.
- Day 6: i64 overflow of a problem's product or of the grand total is not modelled. `chars().nth` is read as byte indexing, so the input is taken to be ASCII.
- Day7Beams.Solve: requires an 'S' in the first row. Without one the source starts from column -1 and fails at its first index, or returns at once on a one-row grid. The same holds for Day7Timelines.Solve. Kotlin `Long` overflow of the timeline counts is not modelled.
- Day 8: `long` overflow of squared distances and of the product is not modelled, nor is coordinate parsing. `Day8Circuits.Part1` returns none where the source throws because there are fewer than 1000 pairs or fewer than three circuits.
- Day 9: coordinate parsing and Swift `Int` overflow trapping are not modelled. The "x,y" string set is replaced by the point list itself.
- Day10Toggle.MinPresses: the witness in its ensures exists only when there are fewer than u64::MAX buttons. The source's `1u64 << n_free` would overflow with 64 or more free variables, and that is not modelled. The same bound applies to Day10Toggle.SolvePart1 and Day10Main.Part1Total.
- Day10Main.Part1Total: the u64 sum of the answers is an unbounded natural, and the rayon `par_iter` with its `AtomicUsize` progress counter and `eprintln` output (day10/src/main.rs:13-36) is summed sequentially.
- Day 10 part 2 (`solve_part2`, day10/src/main.rs:194-250) calls the Z3 optimizer, which the model cannot see, so it and the part 2 total are not part of this model.
- Text.Trim: strips ASCII whitespace only. Rust's `str::trim` (days 6 and 10) and Python's `str.strip` (day 1) also strip the other Unicode White_Space characters, such as U+0085 and U+00A0, so inputs are taken to hold none of them at the ends of a line. The same holds for Text.TrimStart and Text.TrimEnd.
- Day 10 lines are indexed as characters where the source indexes bytes, and `usize` overflow in the parser is not modelled.
- Day11Network.Network.AddLine: requires the table with the line's new names to fit in MAX_NODES (1024) nodes. The source has no bound check and writes past the `nodes` array; that is not modelled.
- Day11Network.Network.Part1: requires a ranking of the nodes that the edges descend, which makes the graph acyclic. The source's recursion does not terminate on a cycle. The same holds for Day11Network.Network.Part2.
- Day 11: `int64` overflow of the path counts is not modelled. Neither is the `fopen`/`fgets`/`strtok` parsing and trimming of lines, including lines longer than 511 characters. Names of MaxNameLen characters or more are stored truncated, so each lookup creates a new node (`Day11Network.LongNameIsNew`). `main` skips part 2 when "you" or "out" is missing; `Part2` is modelled on its own.
- Day 12: `parseInput` (day12/solution.ts:6-35) is not part of this model; shapes are boolean grids and regions are (width, height, counts) values. `pointsToString` is replaced by the point list itself. The console progress output (day12/solution.ts:187-192) and the search's exponential cost are not modelled.
- Day12Packing.Solve: requires an orientation list for every shape with a positive count, because the source throws on a missing one. The same holds for Day12Packing.CanFitAll, Day12Packing.CountFillable and Day12Packing.Answer. Counts are naturals, so the source's behaviour on negative counts is not modelled, and JavaScript number semantics are exact integers.

## Findings

| source | as written | input that shows it | evidently intended | confidence | as-written member | corrected member |
|---|---|---|---|---|---|---|
| day9/solution2.swift:113 | `isHorizontalSegmentInside` merges two x-ranges only when `range.0 <= last.1`, so ranges that touch at consecutive integers stay apart | ranges (0,5) and (6,10) with the segment 0..10: every tile of the segment is covered, yet no single merged range contains it and the segment is rejected | merge when `range.0 <= last.1 + 1`, as the comment at line 108 says and as `isRectangleInside` does at line 193 | not executed; the function is never called by the solver's main loop | Day9Polygon.IsHorizontalSegmentInside, Day9Polygon.OverlapMergeMissesTouching | Day9Polygon.AdjacentMergeExact |
