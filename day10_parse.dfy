// Day 10 input lines (day10/src/main.rs, parse_line): an indicator diagram in
// square brackets, then button wiring groups in parentheses and a joltage
// list in braces, for example `[.##.] (3) (1,3) (2) {3,5,4,7}`.
module Day10Parse {
  import opened Optional
  import opened Decimal
  import opened Text

  datatype Machine = Machine(lights: seq<bool>, buttons: seq<seq<nat>>, joltages: seq<nat>)

  /** The pieces of a group: blank ones are skipped, every other one must trim
      to a number (`unwrap`), and the numbers keep their order. */
  function ParseNumbers(pieces: seq<string>): (r: Option<seq<nat>>)
    ensures r.Some? ==> |r.value| <= |pieces|
  {
    if pieces == [] then Some([])
    else
      var t := Trim(pieces[0]);
      match ParseNumbers(pieces[1..])
      case None => None
      case Some(rest) =>
        if t == [] then Some(rest)
        else match ParseUnsigned(t)
          case None => None
          case Some(v) => Some([v] + rest)
  }

  /** The group parses exactly when every non-blank piece is a number. */
  lemma {:induction false} ParseNumbersSome(pieces: seq<string>)
    ensures ParseNumbers(pieces).Some? <==>
              forall k :: 0 <= k < |pieces| && Trim(pieces[k]) != [] ==> ParseUnsigned(Trim(pieces[k])).Some?
  {
    if pieces != [] {
      ParseNumbersSome(pieces[1..]);
      assert forall k :: 1 <= k < |pieces| ==> pieces[k] == pieces[1..][k - 1];
    }
  }

  /** The comma-separated numbers between a group's delimiters. */
  function ParseList(s: string): Option<seq<nat>> {
    ParseNumbers(Split(s, ','))
  }

  /** Where the inner loop stops: the first `close` from position i on, or the
      end of the line when there is none. */
  function CloseAt(chars: string, i: nat, close: char): (k: nat)
    requires i <= |chars|
    ensures i <= k <= |chars|
    ensures forall m :: i <= m < k ==> chars[m] != close
    ensures k < |chars| ==> chars[k] == close
    decreases |chars| - i
  {
    if i == |chars| || chars[i] == close then i else CloseAt(chars, i + 1, close)
  }

  /** What the scan after ']' collects: the buttons in order of appearance and
      the numbers of the last joltage group, if there is one. */
  datatype Groups = Groups(buttons: seq<seq<nat>>, joltages: Option<seq<nat>>)

  /** The closer of a group opened by c. */
  function Closer(c: char): char {
    if c == '(' then ')' else '}'
  }

  /** The scan at lines 63-91 from position i on: '(' and '{' open a group that
      runs to the matching closer (or to the end of the line), anything else is
      skipped; a group whose text `parse` rejects fails the whole line.
      parse_line reads every group with ParseList. */
  function ScanFrom(chars: string, i: nat, parse: string -> Option<seq<nat>>): Option<Groups>
    decreases |chars| - i
  {
    if i >= |chars| then Some(Groups([], None))
    else if chars[i] == '(' || chars[i] == '{' then
      var j := CloseAt(chars, i, Closer(chars[i]));
      match parse(chars[i + 1..j])
      case None => None
      case Some(ns) =>
        match ScanFrom(chars, j + 1, parse)
        case None => None
        case Some(g) =>
          if chars[i] == '(' then Some(Groups([ns] + g.buttons, g.joltages))
          else Some(Groups(g.buttons, if g.joltages.Some? then g.joltages else Some(ns)))
    else ScanFrom(chars, i + 1, parse)
  }

  /** What has been collected, followed by what the rest of the line yields. */
  function Extend(buttons: seq<seq<nat>>, joltages: Option<seq<nat>>, later: Option<Groups>): Option<Groups> {
    match later
    case None => None
    case Some(g) => Some(Groups(buttons + g.buttons, if g.joltages.Some? then g.joltages else joltages))
  }

  /** A scan result with a missing joltage group read as empty. */
  function Collected(g: Option<Groups>): Option<(seq<seq<nat>>, seq<nat>)> {
    match g
    case None => None
    case Some(g) => Some((g.buttons, if g.joltages.Some? then g.joltages.value else []))
  }

  /** parse_line: the lights between the first '[' and the first ']' ('#' is
      on), then the groups after that ']'. `unwrap` on a missing bracket or on a
      bad number, and a ']' before the '[' (the slice panics), give None. */
  function ParseLineSpec(line: string): Option<Machine> {
    ParseLineWith(line, ParseList)
  }

  /** parse_line with the groups read by `parse`. */
  function ParseLineWith(line: string, parse: string -> Option<seq<nat>>): Option<Machine> {
    match Find(line, '[')
    case None => None
    case Some(open) =>
      match Find(line, ']')
      case None => None
      case Some(close) =>
        if open + 1 > close then None
        else
          match Collected(ScanFrom(line[close + 1..], 0, parse))
          case None => None
          case Some(groups) =>
            Some(Machine(seq(close - open - 1, i requires 0 <= i < close - open - 1 => line[open + 1 + i] == '#'),
                         groups.0, groups.1))
  }

  /** The inner `while` loops at lines 68-70 and 80-82: advance to the closer. */
  method SkipTo(chars: string, i: nat, close: char) returns (j: nat)
    requires i < |chars|
    ensures j == CloseAt(chars, i, close)
  {
    j := i;
    while j < |chars| && chars[j] != close
      invariant i <= j <= |chars|
      invariant CloseAt(chars, j, close) == CloseAt(chars, i, close)
    {
      j := j + 1;
    }
  }

  /** The '(' branch at lines 66-77: the indices up to ')' become a button. */
  method ScanButton(chars: string, i: nat, parse: string -> Option<seq<nat>>, buttons: seq<seq<nat>>, ghost last: Option<seq<nat>>)
    returns (ok: bool, next: nat, buttons': seq<seq<nat>>)
    requires i < |chars| && chars[i] == '('
    ensures !ok ==> ScanFrom(chars, i, parse) == None
    ensures i < next <= |chars|
    ensures ok ==> Extend(buttons, last, ScanFrom(chars, i, parse)) ==
                   Extend(buttons', last, if next < |chars| then ScanFrom(chars, next + 1, parse) else Some(Groups([], None)))
  {
    var start := i + 1;
    var j := SkipTo(chars, i, ')');
    var indices := parse(chars[start..j]);
    if indices.None? {
      return false, j, buttons;
    }
    match ScanFrom(chars, j + 1, parse) {
      case None =>
      case Some(g) =>
        assert buttons + ([indices.value] + g.buttons) == buttons + [indices.value] + g.buttons;
    }
    return true, j, buttons + [indices.value];
  }

  /** The '{' branch at lines 78-89: the numbers up to '}' replace the joltages. */
  method ScanJoltages(chars: string, i: nat, parse: string -> Option<seq<nat>>, buttons: seq<seq<nat>>, ghost last: Option<seq<nat>>)
    returns (ok: bool, next: nat, joltages': seq<nat>, ghost last': Option<seq<nat>>)
    requires i < |chars| && chars[i] == '{'
    ensures !ok ==> ScanFrom(chars, i, parse) == None
    ensures i < next <= |chars|
    ensures ok ==> last' == Some(joltages')
    ensures ok ==> Extend(buttons, last, ScanFrom(chars, i, parse)) ==
                   Extend(buttons, last', if next < |chars| then ScanFrom(chars, next + 1, parse) else Some(Groups([], None)))
  {
    var start := i + 1;
    var j := SkipTo(chars, i, '}');
    var numbers := parse(chars[start..j]);
    if numbers.None? {
      return false, j, [], last;
    }
    return true, j, numbers.value, numbers;
  }

  /** The loop at lines 63-91 over the characters after ']'. */
  method ScanLine(chars: string, parse: string -> Option<seq<nat>>) returns (r: Option<(seq<seq<nat>>, seq<nat>)>)
    ensures r == Collected(ScanFrom(chars, 0, parse))
  {
    var buttons: seq<seq<nat>> := [];
    var joltages: seq<nat> := [];
    ghost var last: Option<seq<nat>> := None;
    ghost var whole := ScanFrom(chars, 0, parse);
    var i: nat := 0;
    match whole {
      case None =>
      case Some(g) => assert [] + g.buttons == g.buttons;
    }
    while i < |chars|
      invariant i <= |chars| + 1
      invariant joltages == if last.Some? then last.value else []
      invariant whole == Extend(buttons, last, if i <= |chars| then ScanFrom(chars, i, parse) else Some(Groups([], None)))
      decreases |chars| + 1 - i
    {
      if chars[i] == '(' {
        var ok;
        ok, i, buttons := ScanButton(chars, i, parse, buttons, last);
        if !ok {
          return None;
        }
      } else if chars[i] == '{' {
        var ok;
        ok, i, joltages, last := ScanJoltages(chars, i, parse, buttons, last);
        if !ok {
          return None;
        }
      }
      i := i + 1;
    }
    assert buttons + [] == buttons;
    return Some((buttons, joltages));
  }

  /** parse_line (lines 46-94), step by step. */
  method ParseLine(line: string) returns (r: Option<Machine>)
    ensures r == ParseLineSpec(line)
  {
    var open := Find(line, '[');
    if open.None? {
      return None;
    }
    var close := Find(line, ']');
    if close.None? {
      return None;
    }
    var bs, be := open.value, close.value;
    if bs + 1 > be {
      return None;
    }
    var lightStr := line[bs + 1..be];
    var lights: seq<bool> := [];
    for j := 0 to |lightStr|
      invariant lights == seq(j, i requires 0 <= i < j => lightStr[i] == '#')
    {
      lights := lights + [lightStr[j] == '#'];
    }
    assert lights == seq(be - bs - 1, i requires 0 <= i < be - bs - 1 => line[bs + 1 + i] == '#');
    var groups := ScanLine(line[be + 1..], ParseList);
    if groups.None? {
      return None;
    }
    return Some(Machine(lights, groups.value.0, groups.value.1));
  }

  // Writing a machine back as an input line, and reading it again.

  /** Numbers as the input writes them: decimal, separated by commas. */
  function ShowList(ns: seq<nat>): string
    decreases |ns|
  {
    if ns == [] then "" else if |ns| == 1 then Show(ns[0]) else Show(ns[0]) + "," + ShowList(ns[1..])
  }

  /** A written list holds digits and commas only. */
  lemma {:induction false} ShowListChars(ns: seq<nat>)
    ensures forall k :: 0 <= k < |ShowList(ns)| ==> ShowList(ns)[k] == ',' || IsDigit(ShowList(ns)[k])
    decreases |ns|
  {
    if |ns| > 1 {
      ShowListChars(ns[1..]);
      var a, b := Show(ns[0]) + ",", ShowList(ns[1..]);
      assert forall k :: |a| <= k < |a + b| ==> (a + b)[k] == b[k - |a|];
    }
  }

  lemma NoSpaceInShow(n: nat)
    ensures !IsSpace(Show(n)[0]) && !IsSpace(Show(n)[|Show(n)| - 1]) && ',' !in Show(n)
  {
    var s := Show(n);
    assert IsDigit(s[0]) && IsDigit(s[|s| - 1]);
  }

  /** A written number in front of other pieces is read as that number. */
  lemma ParseNumbersShown(n: nat, pieces: seq<string>)
    ensures ParseNumbers([Show(n)] + pieces) ==
              match ParseNumbers(pieces)
              case None => None
              case Some(rest) => Some([n] + rest)
  {
    NoSpaceInShow(n);
    TrimUnchanged(Show(n));
    ParseShow(n);
    assert ([Show(n)] + pieces)[1..] == pieces;
  }

  /** The group parser reads back exactly the list that was written. */
  lemma {:induction false} ParseListShow(ns: seq<nat>)
    ensures ParseList(ShowList(ns)) == Some(ns)
    decreases |ns|
  {
    if ns == [] {
      assert Split("", ',') == [""];
    } else if |ns| == 1 {
      ParseListSingle(ns);
    } else {
      ParseListShow(ns[1..]);
      ParseListCons(ns);
    }
  }

  lemma ParseListSingle(ns: seq<nat>)
    requires |ns| == 1
    ensures ParseList(ShowList(ns)) == Some(ns)
  {
    var first := Show(ns[0]);
    NoSpaceInShow(ns[0]);
    assert ShowList(ns) == first;
    assert Split(first, ',') == [first] + [];
    ParseNumbersShown(ns[0], []);
    assert ParseNumbers([]) == Some([]);
    assert ns == [ns[0]] + [];
  }

  /** Reading the first number back, then the rest as the induction gives it. */
  lemma ParseListCons(ns: seq<nat>)
    requires |ns| >= 2 && ParseList(ShowList(ns[1..])) == Some(ns[1..])
    ensures ParseList(ShowList(ns)) == Some(ns)
  {
    var first := Show(ns[0]);
    NoSpaceInShow(ns[0]);
    var rest := ShowList(ns[1..]);
    assert ShowList(ns) == first + [','] + rest;
    SplitFirst(first, ',', rest);
    ParseNumbersShown(ns[0], Split(rest, ','));
    ConsSplit(ns);
  }

  /** The indicator diagram: '#' for a light that must end up on, '.' otherwise. */
  function LightsText(lights: seq<bool>): (t: string)
    ensures |t| == |lights|
  {
    seq(|lights|, i requires 0 <= i < |lights| => if lights[i] then '#' else '.')
  }

  /** One " (…)" group per button, then the joltages in " {…}". */
  function GroupsText(buttons: seq<seq<nat>>, joltages: seq<nat>): string
    decreases |buttons|
  {
    if buttons == [] then " {" + ShowList(joltages) + "}"
    else " (" + ShowList(buttons[0]) + ")" + GroupsText(buttons[1..], joltages)
  }

  /** A machine written in the input's format. */
  function Render(m: Machine): string {
    "[" + LightsText(m.lights) + "]" + GroupsText(m.buttons, m.joltages)
  }

  lemma {:induction false} CloseAtDrop(chars: string, d: nat, i: nat, close: char)
    requires d <= i <= |chars|
    ensures CloseAt(chars, i, close) == d + CloseAt(chars[d..], i - d, close)
    decreases |chars| - i
  {
    if i < |chars| && chars[i] != close {
      CloseAtDrop(chars, d, i + 1, close);
    }
  }

  /** The scan from position i depends only on the characters from d on. */
  lemma {:induction false} ScanFromDrop(chars: string, d: nat, i: nat, parse: string -> Option<seq<nat>>)
    requires d <= i <= |chars|
    ensures ScanFrom(chars, i, parse) == ScanFrom(chars[d..], i - d, parse)
    decreases |chars| - i
  {
    if i < |chars| {
      if chars[i] == '(' || chars[i] == '{' {
        var j := CloseAt(chars, i, Closer(chars[i]));
        CloseAtDrop(chars, d, i, Closer(chars[i]));
        assert chars[d..][i - d + 1..j - d] == chars[i + 1..j];
        if j + 1 <= |chars| {
          ScanFromDrop(chars, d, j + 1, parse);
        }
      } else {
        ScanFromDrop(chars, d, i + 1, parse);
      }
    }
  }

  /** A group " o…c" whose text holds no closer c is read as parse of its text. */
  lemma GroupAt(t: string, o: char, text: string, c: char, rest: string, parse: string -> Option<seq<nat>>)
    requires (o == '(' && c == ')') || (o == '{' && c == '}')
    requires c !in text
    requires t == " " + [o] + text + [c] + rest
    ensures ScanFrom(t, 0, parse) ==
              match parse(text)
              case None => None
              case Some(ns) =>
                match ScanFrom(rest, 0, parse)
                case None => None
                case Some(g) =>
                  if o == '(' then Some(Groups([ns] + g.buttons, g.joltages))
                  else Some(Groups(g.buttons, if g.joltages.Some? then g.joltages else Some(ns)))
  {
    var k := 2 + |text|;
    assert t[0] == ' ' && t[1] == o && t[k] == c;
    assert forall m :: 1 <= m < k ==> t[m] != c by {
      forall m | 1 <= m < k ensures t[m] != c {
        if m >= 2 {
          assert t[m] == text[m - 2];
        }
      }
    }
    assert CloseAt(t, 1, Closer(o)) == k;
    assert t[2..k] == text;
    assert t[k + 1..] == rest;
    ScanFromDrop(t, k + 1, k + 1, parse);
  }

  lemma {:induction false} ScanGroupsText(buttons: seq<seq<nat>>, joltages: seq<nat>, parse: string -> Option<seq<nat>>)
    requires forall ns :: parse(ShowList(ns)) == Some(ns)
    ensures ScanFrom(GroupsText(buttons, joltages), 0, parse) == Some(Groups(buttons, Some(joltages)))
    decreases |buttons|
  {
    if buttons == [] {
      ScanGroupsLast(joltages, parse);
    } else {
      ScanGroupsText(buttons[1..], joltages, parse);
      ScanGroupsCons(buttons, joltages, parse);
    }
  }

  lemma ScanGroupsLast(joltages: seq<nat>, parse: string -> Option<seq<nat>>)
    requires forall ns :: parse(ShowList(ns)) == Some(ns)
    ensures ScanFrom(GroupsText([], joltages), 0, parse) == Some(Groups([], Some(joltages)))
  {
    ShowListChars(joltages);
    var text := ShowList(joltages);
    assert '}' !in text;
    GroupAt(GroupsText([], joltages), '{', text, '}', "", parse);
  }

  /** The first button's group, then the groups the induction gives for the rest. */
  lemma ScanGroupsCons(buttons: seq<seq<nat>>, joltages: seq<nat>, parse: string -> Option<seq<nat>>)
    requires forall ns :: parse(ShowList(ns)) == Some(ns)
    requires buttons != []
    requires ScanFrom(GroupsText(buttons[1..], joltages), 0, parse) == Some(Groups(buttons[1..], Some(joltages)))
    ensures ScanFrom(GroupsText(buttons, joltages), 0, parse) == Some(Groups(buttons, Some(joltages)))
  {
    var text := ShowList(buttons[0]);
    var rest := GroupsText(buttons[1..], joltages);
    ShowListChars(buttons[0]);
    assert ')' !in text;
    assert GroupsText(buttons, joltages) == " " + ['('] + text + [')'] + rest;
    assert parse(text) == Some(buttons[0]);
    GroupAt(GroupsText(buttons, joltages), '(', text, ')', rest, parse);
    ConsSplit(buttons);
  }

  /** Round trip: parse_line reads a written machine back unchanged. */
  lemma ParseRender(m: Machine)
    ensures ParseLineSpec(Render(m)) == Some(m)
  {
    forall ns ensures ParseList(ShowList(ns)) == Some(ns) {
      ParseListShow(ns);
    }
    ReadRender(m, ParseList);
  }

  lemma ReadRender(m: Machine, parse: string -> Option<seq<nat>>)
    requires forall ns :: parse(ShowList(ns)) == Some(ns)
    ensures ParseLineWith(Render(m), parse) == Some(m)
  {
    var line := Render(m);
    var close := |m.lights| + 1;
    RenderBrackets(m);
    RenderLights(m);
    ScanGroupsText(m.buttons, m.joltages, parse);
    ParseAt(line, close, parse, m);
  }

  /** The line opens with '[', its first ']' closes the lights, and the groups follow it. */
  lemma RenderBrackets(m: Machine)
    ensures Find(Render(m), '[') == Some(0)
    ensures Find(Render(m), ']') == Some(|m.lights| + 1)
    ensures Render(m)[|m.lights| + 2..] == GroupsText(m.buttons, m.joltages)
  {
    var lights := LightsText(m.lights);
    var head := "[" + lights;
    var tail := GroupsText(m.buttons, m.joltages);
    assert Render(m) == head + "]" + tail;
    assert forall k :: 1 <= k < |head| ==> head[k] == lights[k - 1];
    FindAfter(head, ']', tail);
  }

  /** The characters between the brackets read back as the lights. */
  lemma RenderLights(m: Machine)
    ensures forall i :: 0 <= i < |m.lights| ==> (Render(m)[1 + i] == '#') == m.lights[i]
  {
    var line := Render(m);
    forall i | 0 <= i < |m.lights| ensures line[1 + i] == LightsText(m.lights)[i] {
    }
  }

  /** What `ParseLineWith` returns once the brackets and the groups are known. */
  lemma ParseAt(line: string, close: nat, parse: string -> Option<seq<nat>>, m: Machine)
    requires close == |m.lights| + 1 && close < |line|
    requires Find(line, '[') == Some(0) && Find(line, ']') == Some(close)
    requires forall i :: 0 <= i < |m.lights| ==> (line[1 + i] == '#') == m.lights[i]
    requires ScanFrom(line[close + 1..], 0, parse) == Some(Groups(m.buttons, Some(m.joltages)))
    ensures ParseLineWith(line, parse) == Some(m)
  {
    var open := 0;
    var lights := seq(close - open - 1, i requires 0 <= i < close - open - 1 => line[open + 1 + i] == '#');
    assert lights == m.lights;
    assert Collected(ScanFrom(line[close + 1..], 0, parse)) == Some((m.buttons, m.joltages));
  }
}
