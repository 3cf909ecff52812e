// Day 1 (day1/solution.py): a dial numbered 0..99 starts at 50 and is turned
// by a list of rotations "L<n>" / "R<n>". Part 1 counts the rotations that end
// on 0; part 2 counts every click that lands on 0, through a closed form.
module Day1Dial {
  import opened Optional
  import opened Text
  import opened Decimal

  datatype Rotation = Rotation(direction: char, distance: int)

  const Start: int := 50

  /**
   * The closed form of `count_zeros_crossed`. Python's `//` floors, which
   * agrees with Dafny's `/` for the positive divisor 100. Any direction other
   * than 'R' is counted as a left turn. From a dial position, a rotation hits 0
   * at most once per hundred clicks, plus once.
   */
  function CountZerosCrossed(position: int, direction: char, distance: int): (n: int)
    ensures 0 <= position < 100 && distance >= 0 ==> 0 <= n <= distance / 100 + 1
  {
    if direction == 'R' then
      (position + distance) / 100
    else if position == 0 then
      distance / 100
    else if position <= distance then
      (distance - position) / 100 + 1
    else
      0
  }

  /** Where click k of a rotation lands: toward higher numbers for 'R', lower ones otherwise. */
  function Click(position: int, direction: char, k: int): int {
    if direction == 'R' then position + k else position - k
  }

  /** The number of clicks k in 1..distance whose landing point is 0 on the dial. */
  function ZeroHits(position: int, direction: char, distance: nat): nat {
    if distance == 0 then 0
    else
      var hit := if Click(position, direction, distance) % 100 == 0 then 1 else 0;
      ZeroHits(position, direction, distance - 1) + hit
  }

  /** The closed form counts exactly the clicks that land on 0, from any dial position. */
  lemma {:induction false} CountZerosCrossedCorrect(position: int, direction: char, distance: nat)
    requires 0 <= position < 100
    ensures CountZerosCrossed(position, direction, distance) == ZeroHits(position, direction, distance)
  {
    if distance > 0 {
      CountZerosCrossedCorrect(position, direction, distance - 1);
      CountZerosStep(position, direction, distance);
    }
  }

  /** One more click adds one to the closed form exactly when that click lands on 0. */
  lemma CountZerosStep(position: int, direction: char, distance: nat)
    requires 0 <= position < 100 && distance >= 1
    ensures CountZerosCrossed(position, direction, distance)
      == CountZerosCrossed(position, direction, distance - 1)
         + (if Click(position, direction, distance) % 100 == 0 then 1 else 0)
  {
    if direction == 'R' {
      FloorStep(position + distance);
    } else if position == 0 {
      FloorStep(distance);
      NegMod(distance);
    } else if position < distance {
      FloorStep(distance - position);
      NegMod(distance - position);
    } else if position == distance {
    } else {
      assert 0 < position - distance < 100;
    }
  }

  lemma FloorStep(m: int)
    ensures m / 100 == (m - 1) / 100 + (if m % 100 == 0 then 1 else 0)
  {
  }

  lemma NegMod(m: int)
    ensures (-m) % 100 == 0 <==> m % 100 == 0
  {
  }

  /** The position update: `(position -/+ distance) % 100`; anything but 'L' turns right. */
  function Turn(position: int, direction: char, distance: int): (r: int)
    ensures 0 <= r < 100
    ensures (r - (if direction == 'L' then position - distance else position + distance)) % 100 == 0
  {
    var x := if direction == 'L' then position - distance else position + distance;
    ModHundred(x);
    x % 100
  }

  lemma ModHundred(x: int)
    ensures (x % 100 - x) % 100 == 0
  {
    var q := x / 100;
    assert x % 100 - x == 100 * -q;
  }

  /** A stripped, non-empty line: its first character is the direction, the rest the distance. */
  function ParseRotation(line: string): (r: Option<Rotation>)
    requires line != []
    ensures r.None? <==> ParseSigned(line[1..]).None?
    ensures r.Some? ==> r.value == Rotation(line[0], ParseSigned(line[1..]).value)
  {
    match ParseSigned(line[1..])
    case None => None
    case Some(d) => Some(Rotation(line[0], d))
  }

  /** A direction followed by a distance written in decimal reads back as that rotation. */
  lemma ParseRotationShow(c: char, d: nat)
    ensures ParseRotation([c] + Show(d)) == Some(Rotation(c, d))
    ensures ParseRotation([c] + "+" + Show(d)) == Some(Rotation(c, d))
  {
    ParseShow(d);
    assert ([c] + Show(d))[1..] == Show(d);
    assert ([c] + "+" + Show(d))[1..] == "+" + Show(d);
    assert ("+" + Show(d))[1..] == Show(d);
  }

  /** The rotations of the input, blank lines skipped; None where `int()` would raise. */
  function ParseRotations(lines: seq<string>): Option<seq<Rotation>> {
    if lines == [] then Some([])
    else
      match ParseRotations(lines[..|lines| - 1])
      case None => None
      case Some(rots) =>
        var line := Trim(lines[|lines| - 1]);
        if line == [] then Some(rots)
        else match ParseRotation(line)
          case None => None
          case Some(rot) => Some(rots + [rot])
  }

  /** The dial position after the given rotations. */
  function Final(rots: seq<Rotation>): int {
    if rots == [] then Start
    else Turn(Final(rots[..|rots| - 1]), rots[|rots| - 1].direction, rots[|rots| - 1].distance)
  }

  /** Part 1's answer: the number of rotations after which the dial shows 0. */
  function EndZeros(rots: seq<Rotation>): nat {
    if rots == [] then 0
    else EndZeros(rots[..|rots| - 1]) + (if Final(rots) == 0 then 1 else 0)
  }

  /** Part 2's answer: the zero crossings of each rotation, from the position it starts at. */
  function ClickZeros(rots: seq<Rotation>): int {
    if rots == [] then 0
    else
      var last := rots[|rots| - 1];
      ClickZeros(rots[..|rots| - 1]) + CountZerosCrossed(Final(rots[..|rots| - 1]), last.direction, last.distance)
  }

  /** Every click that lands on 0, over all rotations (distances taken as non-negative). */
  function AllHits(rots: seq<Rotation>): nat
    requires forall k :: 0 <= k < |rots| ==> rots[k].distance >= 0
  {
    if rots == [] then 0
    else
      var last := rots[|rots| - 1];
      AllHits(rots[..|rots| - 1]) + ZeroHits(Final(rots[..|rots| - 1]), last.direction, last.distance)
  }

  /** Part 2 counts every click on 0 over the whole input. */
  lemma {:induction false} ClickZerosCountsHits(rots: seq<Rotation>)
    requires forall k :: 0 <= k < |rots| ==> rots[k].distance >= 0
    ensures ClickZeros(rots) == AllHits(rots)
  {
    if rots != [] {
      var init, last := rots[..|rots| - 1], rots[|rots| - 1];
      ClickZerosCountsHits(init);
      FinalInRange(init);
      CountZerosCrossedCorrect(Final(init), last.direction, last.distance);
    }
  }

  lemma FinalInRange(rots: seq<Rotation>)
    ensures 0 <= Final(rots) < 100
  {
  }

  /**
   * With 'L'/'R' rotations of positive length, every rotation that ends on 0
   * has its last click land on 0, so part 1 never exceeds part 2.
   */
  lemma {:induction false} EndZerosAtMostClickZeros(rots: seq<Rotation>)
    requires forall k :: 0 <= k < |rots| ==> rots[k].distance >= 1
    requires forall k :: 0 <= k < |rots| ==> rots[k].direction == 'L' || rots[k].direction == 'R'
    ensures EndZeros(rots) <= ClickZeros(rots)
  {
    if rots != [] {
      var init, last := rots[..|rots| - 1], rots[|rots| - 1];
      EndZerosAtMostClickZeros(init);
      var p := Final(init);
      FinalInRange(init);
      CountZerosCrossedCorrect(p, last.direction, last.distance);
      if Final(rots) == 0 {
        assert Click(p, last.direction, last.distance) % 100 == 0;
        assert ZeroHits(p, last.direction, last.distance) >= 1;
      }
      NonNegHits(p, last.direction, last.distance);
    }
  }

  lemma NonNegHits(position: int, direction: char, distance: nat)
    requires 0 <= position < 100
    ensures CountZerosCrossed(position, direction, distance) >= 0
  {
    CountZerosCrossedCorrect(position, direction, distance);
  }

  /** `solve_part1`: the loop over the input lines; None where Python would raise. */
  method SolvePart1(lines: seq<string>) returns (r: Option<nat>)
    ensures r.None? <==> ParseRotations(lines).None?
    ensures r.Some? ==> r.value == EndZeros(ParseRotations(lines).value)
  {
    var position := Start;
    var zeroCount := 0;
    ghost var rots: seq<Rotation> := [];
    for i := 0 to |lines|
      invariant ParseRotations(lines[..i]) == Some(rots)
      invariant position == Final(rots) && zeroCount == EndZeros(rots)
    {
      var rot, bad := NextRotation(lines, i, rots);
      if bad {
        return None;
      } else if rot.None? {
        continue;
      }
      RotationSnoc(rots, rot.value);
      position := Turn(position, rot.value.direction, rot.value.distance);
      rots := rots + [rot.value];
      if position == 0 {
        zeroCount := zeroCount + 1;
      }
    }
    assert lines[..|lines|] == lines;
    return Some(zeroCount);
  }

  /**
   * The start of both loops' bodies: strip the line, skip it when blank,
   * otherwise read its rotation; `bad` where the conversion would raise.
   */
  method NextRotation(lines: seq<string>, i: nat, ghost rots: seq<Rotation>) returns (rot: Option<Rotation>, bad: bool)
    requires i < |lines| && ParseRotations(lines[..i]) == Some(rots)
    ensures bad ==> ParseRotations(lines).None?
    ensures !bad && rot.None? ==> ParseRotations(lines[..i + 1]) == Some(rots)
    ensures !bad && rot.Some? ==> ParseRotations(lines[..i + 1]) == Some(rots + [rot.value])
  {
    var line := Trim(lines[i]);
    if line == [] {
      ParseBlank(lines, i, rots);
      return None, false;
    }
    rot := ParseRotation(line);
    if rot.None? {
      ParseBad(lines, i, rots);
      return None, true;
    }
    ParseGood(lines, i, rots, rot.value);
    bad := false;
  }

  /** `solve_part2`: add the zeros crossed by each rotation, then turn the dial. */
  method SolvePart2(lines: seq<string>) returns (r: Option<int>)
    ensures r.None? <==> ParseRotations(lines).None?
    ensures r.Some? ==> r.value == ClickZeros(ParseRotations(lines).value)
  {
    var position := Start;
    var zeroCount := 0;
    ghost var rots: seq<Rotation> := [];
    for i := 0 to |lines|
      invariant ParseRotations(lines[..i]) == Some(rots)
      invariant position == Final(rots) && zeroCount == ClickZeros(rots)
    {
      var rot, bad := NextRotation(lines, i, rots);
      if bad {
        return None;
      } else if rot.None? {
        continue;
      }
      RotationSnoc(rots, rot.value);
      zeroCount := zeroCount + CountZerosCrossed(position, rot.value.direction, rot.value.distance);
      position := Turn(position, rot.value.direction, rot.value.distance);
      rots := rots + [rot.value];
    }
    assert lines[..|lines|] == lines;
    return Some(zeroCount);
  }

  /** A blank line is skipped. */
  lemma ParseBlank(lines: seq<string>, i: nat, rots: seq<Rotation>)
    requires i < |lines| && ParseRotations(lines[..i]) == Some(rots) && Trim(lines[i]) == []
    ensures ParseRotations(lines[..i + 1]) == Some(rots)
  {
    assert lines[..i + 1][..i] == lines[..i];
  }

  /** A line that parses adds its rotation. */
  lemma ParseGood(lines: seq<string>, i: nat, rots: seq<Rotation>, rot: Rotation)
    requires i < |lines| && ParseRotations(lines[..i]) == Some(rots)
    requires Trim(lines[i]) != [] && ParseRotation(Trim(lines[i])) == Some(rot)
    ensures ParseRotations(lines[..i + 1]) == Some(rots + [rot])
  {
    assert lines[..i + 1][..i] == lines[..i];
  }

  /** A line that does not parse fails the whole input. */
  lemma ParseBad(lines: seq<string>, i: nat, rots: seq<Rotation>)
    requires i < |lines| && ParseRotations(lines[..i]) == Some(rots)
    requires Trim(lines[i]) != [] && ParseRotation(Trim(lines[i])).None?
    ensures ParseRotations(lines).None?
  {
    assert lines[..i + 1][..i] == lines[..i];
    ParseRotationsFails(lines, i + 1);
  }

  /** The position and both counts after one more rotation. */
  lemma RotationSnoc(rots: seq<Rotation>, rot: Rotation)
    ensures Final(rots + [rot]) == Turn(Final(rots), rot.direction, rot.distance)
    ensures EndZeros(rots + [rot]) == EndZeros(rots) + (if Final(rots + [rot]) == 0 then 1 else 0)
    ensures ClickZeros(rots + [rot]) == ClickZeros(rots) + CountZerosCrossed(Final(rots), rot.direction, rot.distance)
  {
    assert (rots + [rot])[..|rots|] == rots;
  }

  /** A line that does not parse makes the whole input fail, whatever follows it. */
  lemma {:induction false} ParseRotationsFails(lines: seq<string>, i: nat)
    requires i <= |lines| && ParseRotations(lines[..i]).None?
    ensures ParseRotations(lines).None?
    decreases |lines| - i
  {
    if i < |lines| {
      assert lines[..i + 1][..i] == lines[..i];
      ParseRotationsFails(lines, i + 1);
    } else {
      assert lines[..i] == lines;
    }
  }

  /** A blank line neither moves the dial nor fails the parse. */
  lemma BlankLineSkipped(lines: seq<string>, blank: string)
    requires forall i :: 0 <= i < |blank| ==> IsSpace(blank[i])
    ensures ParseRotations(lines + [blank]) == ParseRotations(lines)
  {
    assert (lines + [blank])[..|lines|] == lines;
  }

  /** R1000 from 50 passes 0 ten times. */
  lemma ExampleR1000()
    ensures CountZerosCrossed(50, 'R', 1000) == 10
    ensures ZeroHits(50, 'R', 1000) == 10
  {
    CountZerosCrossedCorrect(50, 'R', 1000);
  }

  /** The ten-rotation example from 50 crosses 0 six times. */
  lemma ExampleWalkthrough()
    ensures var rots := [Rotation('L', 68), Rotation('L', 30), Rotation('R', 48), Rotation('L', 5),
                         Rotation('R', 60), Rotation('L', 55), Rotation('L', 1), Rotation('L', 99),
                         Rotation('R', 14), Rotation('L', 82)];
            ClickZeros(rots) == 6 && EndZeros(rots) == 3
  {
    var rots := [Rotation('L', 68), Rotation('L', 30), Rotation('R', 48), Rotation('L', 5),
                 Rotation('R', 60), Rotation('L', 55), Rotation('L', 1), Rotation('L', 99),
                 Rotation('R', 14), Rotation('L', 82)];
    assert rots[..0] == [];
    assert rots[..1][..0] == rots[..0];
    assert Final(rots[..1]) == 82 && ClickZeros(rots[..1]) == 1 && EndZeros(rots[..1]) == 0;
    assert rots[..2][..1] == rots[..1];
    assert Final(rots[..2]) == 52 && ClickZeros(rots[..2]) == 1 && EndZeros(rots[..2]) == 0;
    assert rots[..3][..2] == rots[..2];
    assert Final(rots[..3]) == 0 && ClickZeros(rots[..3]) == 2 && EndZeros(rots[..3]) == 1;
    assert rots[..4][..3] == rots[..3];
    assert Final(rots[..4]) == 95 && ClickZeros(rots[..4]) == 2 && EndZeros(rots[..4]) == 1;
    assert rots[..5][..4] == rots[..4];
    assert Final(rots[..5]) == 55 && ClickZeros(rots[..5]) == 3 && EndZeros(rots[..5]) == 1;
    assert rots[..6][..5] == rots[..5];
    assert Final(rots[..6]) == 0 && ClickZeros(rots[..6]) == 4 && EndZeros(rots[..6]) == 2;
    assert rots[..7][..6] == rots[..6];
    assert Final(rots[..7]) == 99 && ClickZeros(rots[..7]) == 4 && EndZeros(rots[..7]) == 2;
    assert rots[..8][..7] == rots[..7];
    assert Final(rots[..8]) == 0 && ClickZeros(rots[..8]) == 5 && EndZeros(rots[..8]) == 3;
    assert rots[..9][..8] == rots[..8];
    assert Final(rots[..9]) == 14 && ClickZeros(rots[..9]) == 5 && EndZeros(rots[..9]) == 3;
    assert rots[..10][..9] == rots[..9];
    assert Final(rots[..10]) == 32 && ClickZeros(rots[..10]) == 6 && EndZeros(rots[..10]) == 3;
    assert rots[..10] == rots;
  }
}
