// Day 10 (day10/src/main.rs, main): every non-blank input line is a machine;
// part 1's answer is the sum over the machines of the fewest presses that
// light each one's target, u64::MAX standing for a machine that cannot be lit.
// The per-line work runs in parallel in the source; here it is summed in order.
module Day10Main {
  import opened Optional
  import opened Text
  import opened Sums
  import opened Day10Parse
  import opened Day10Toggle

  /** The filter at line 10: a line is kept when it is not blank once trimmed. */
  predicate Kept(line: string) {
    Trim(line) != []
  }

  /** The kept lines, in order. */
  function NonBlank(lines: seq<string>): (r: seq<string>)
    ensures |r| <= |lines|
    ensures forall l :: l in r <==> l in lines && Kept(l)
  {
    if lines == [] then []
    else
      var init := NonBlank(lines[..|lines| - 1]);
      var last := lines[|lines| - 1];
      assert lines == lines[..|lines| - 1] + [last];
      init + (if Kept(last) then [last] else [])
  }

  /** The machines of the kept lines, each read by `read`; none when one of
      them cannot be read. */
  function MachinesWith(lines: seq<string>, read: string -> Option<Machine>): Option<seq<Machine>> {
    if lines == [] then Some([])
    else
      var last := lines[|lines| - 1];
      match MachinesWith(lines[..|lines| - 1], read)
      case None => None
      case Some(ms) =>
        if !Kept(last) then Some(ms)
        else match read(last)
          case None => None
          case Some(m) => Some(ms + [m])
  }

  /** The machines of the input; none when a kept line does not parse, where
      `parse_line` panics. */
  function Machines(lines: seq<string>): Option<seq<Machine>> {
    MachinesWith(lines, ParseLineSpec)
  }

  /** The input is read exactly when every kept line can be read. */
  lemma {:induction false} MachinesSome(lines: seq<string>, read: string -> Option<Machine>)
    ensures MachinesWith(lines, read).Some? <==> forall k :: 0 <= k < |lines| && Kept(lines[k]) ==> read(lines[k]).Some?
  {
    if lines != [] {
      var init, last := lines[..|lines| - 1], lines[|lines| - 1];
      MachinesSome(init, read);
      assert forall k :: 0 <= k < |init| ==> init[k] == lines[k];
      if MachinesWith(init, read).Some? && (!Kept(last) || read(last).Some?) {
        forall k | 0 <= k < |lines| && Kept(lines[k]) ensures read(lines[k]).Some? {
          if k < |init| {
            assert lines[k] == init[k];
          }
        }
      }
    }
  }

  /** Then there is one machine per kept line, read from that line. */
  lemma {:induction false} MachinesOfLines(lines: seq<string>, read: string -> Option<Machine>)
    requires MachinesWith(lines, read).Some?
    ensures |MachinesWith(lines, read).value| == |NonBlank(lines)|
    ensures forall k :: 0 <= k < |NonBlank(lines)| ==> Some(MachinesWith(lines, read).value[k]) == read(NonBlank(lines)[k])
  {
    if lines != [] {
      var init, last := lines[..|lines| - 1], lines[|lines| - 1];
      MachinesOfLines(init, read);
      var ms, kept := MachinesWith(init, read).value, NonBlank(init);
      if Kept(last) {
        assert MachinesWith(lines, read).value == ms + [read(last).value];
        assert NonBlank(lines) == kept + [last];
      } else {
        assert MachinesWith(lines, read).value == ms;
        assert NonBlank(lines) == kept;
      }
    }
  }

  /** Once a kept line cannot be read, no later line can rescue the input. */
  lemma {:induction false} MachinesNoneStays(lines: seq<string>, read: string -> Option<Machine>, i: nat)
    requires i <= |lines| && MachinesWith(lines[..i], read).None?
    ensures MachinesWith(lines, read).None?
    decreases |lines| - i
  {
    if i < |lines| {
      assert lines[..i + 1][..i] == lines[..i];
      MachinesNoneStays(lines, read, i + 1);
    } else {
      assert lines[..i] == lines;
    }
  }

  /** What `solve_part1` answers for a machine: u64::MAX when no presses
      light the target, otherwise the fewest presses that do. */
  ghost predicate Fewest(m: Machine, p: nat) {
    && (!Solvable(m.lights, m.buttons) ==> p == NoSolution)
    && (forall x :: Works(m.lights, m.buttons, x) ==> p <= Weight(x))
    && (Solvable(m.lights, m.buttons) && |m.buttons| < NoSolution ==>
          exists x :: Works(m.lights, m.buttons, x) && Weight(x) == p)
  }

  /** The answer for one machine is determined: two answers meeting the
      specification agree. */
  lemma FewestUnique(m: Machine, p: nat, q: nat)
    requires |m.buttons| < NoSolution
    requires Fewest(m, p) && Fewest(m, q)
    ensures p == q
  {
    if Solvable(m.lights, m.buttons) {
      var x :| Works(m.lights, m.buttons, x) && Weight(x) == p;
      var y :| Works(m.lights, m.buttons, y) && Weight(y) == q;
      assert q <= Weight(x) && p <= Weight(y);
    }
  }

  /** Lines 10-39 without the parallelism: parse and solve every kept line and
      add up the part-1 answers. */
  method Part1Total(lines: seq<string>) returns (r: Option<nat>, ghost presses: seq<nat>)
    ensures r.None? <==> Machines(lines).None?
    ensures r.Some? ==>
              var ms := Machines(lines).value;
              |presses| == |ms| && r.value == Sum(presses) &&
              forall k :: 0 <= k < |ms| ==> Fewest(ms[k], presses[k])
  {
    var total: nat := 0;
    presses := [];
    ghost var ms: seq<Machine> := [];
    for i := 0 to |lines|
      invariant Machines(lines[..i]) == Some(ms)
      invariant |presses| == |ms| && total == Sum(presses)
      invariant forall k :: 0 <= k < |ms| ==> Fewest(ms[k], presses[k])
    {
      assert lines[..i + 1][..i] == lines[..i];
      if Trim(lines[i]) != [] {
        var m := ParseLine(lines[i]);
        if m.None? {
          MachinesNoneStays(lines, ParseLineSpec, i + 1);
          return None, [];
        }
        var machine := m.value;
        var p := SolvePart1(machine.lights, machine.buttons);
        SumAppend(presses, [p]);
        assert Sum([p]) == p;
        ms, presses, total := ms + [machine], presses + [p], total + p;
      }
    }
    assert lines[..|lines|] == lines;
    return Some(total), presses;
  }
}
