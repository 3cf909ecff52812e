// The optional-value datatype shared by the solvers' models.
module Optional {
  datatype Option<+T> = None | Some(value: T)
}

// The few Rust string operations the parsers use: `split` on a character,
// `trim`, and integer `parse` (integers taken as unbounded; a `None` stands
// for the `Err` that the solvers `unwrap` or skip).
module Text {
  import opened Optional
  import opened Decimal

  /**
   * ASCII whitespace. Rust's `str::trim` and Python's `str.strip` also strip
   * the other Unicode White_Space characters; the model does not.
   */
  predicate IsSpace(c: char) {
    c == ' ' || c == '\t' || c == '\n' || c == '\r' || c == 11 as char || c == 12 as char
  }

  function TrimStart(s: string): (r: string)
    ensures |r| <= |s| && r == s[|s| - |r|..]
    ensures r == [] || !IsSpace(r[0])
    ensures forall i :: 0 <= i < |s| - |r| ==> IsSpace(s[i])
  {
    if s != [] && IsSpace(s[0]) then TrimStart(s[1..]) else s
  }

  function TrimEnd(s: string): (r: string)
    ensures |r| <= |s| && r == s[..|r|]
    ensures r == [] || !IsSpace(r[|r| - 1])
    ensures forall i :: |r| <= i < |s| ==> IsSpace(s[i])
  {
    if s != [] && IsSpace(s[|s| - 1]) then TrimEnd(s[..|s| - 1]) else s
  }

  /** `str::trim`: the string without its leading and trailing whitespace. */
  function Trim(s: string): (r: string)
    ensures r == [] || (!IsSpace(r[0]) && !IsSpace(r[|r| - 1]))
    ensures r == [] <==> forall i :: 0 <= i < |s| ==> IsSpace(s[i])
  {
    TrimEnd(TrimStart(s))
  }

  /** Index of the first occurrence of c in s, if any (`str::find`). */
  function Find(s: string, c: char): (r: Option<nat>)
    ensures r.None? <==> c !in s
    ensures r.Some? ==> r.value < |s| && s[r.value] == c && c !in s[..r.value]
  {
    if s == [] then None
    else if s[0] == c then Some(0)
    else match Find(s[1..], c)
      case None => None
      case Some(i) => Some(i + 1)
  }

  /** `str::split` on a single character: the pieces between separators, empty ones included. */
  function Split(s: string, sep: char): (r: seq<string>)
    ensures |r| >= 1
    ensures forall k :: 0 <= k < |r| ==> sep !in r[k]
  {
    match Find(s, sep)
    case None => [s]
    case Some(i) => [s[..i]] + Split(s[i + 1..], sep)
  }

  function Join(pieces: seq<string>, sep: char): string
    requires |pieces| >= 1
  {
    if |pieces| == 1 then pieces[0] else pieces[0] + [sep] + Join(pieces[1..], sep)
  }

  /** Splitting loses nothing: joining the pieces with the separator rebuilds the string. */
  lemma {:induction false} JoinSplit(s: string, sep: char)
    ensures Join(Split(s, sep), sep) == s
  {
    match Find(s, sep)
    case None =>
    case Some(i) =>
      JoinSplit(s[i + 1..], sep);
      assert Split(s, sep)[1..] == Split(s[i + 1..], sep);
      assert s == s[..i] + [sep] + s[i + 1..];
  }

  /** The first `c` in a + [c] + b is the one after a, when a has none. */
  lemma {:induction false} FindAfter(a: string, c: char, b: string)
    requires c !in a
    ensures Find(a + [c] + b, c) == Some(|a|)
  {
    if a != [] {
      assert (a + [c] + b)[1..] == a[1..] + [c] + b;
      FindAfter(a[1..], c, b);
    }
  }

  /** A separator-free piece followed by the separator splits off as the first piece. */
  lemma SplitFirst(a: string, sep: char, b: string)
    requires sep !in a
    ensures Split(a + [sep] + b, sep) == [a] + Split(b, sep)
  {
    FindAfter(a, sep, b);
    var s := a + [sep] + b;
    assert s[..|a|] == a;
    assert s[|a| + 1..] == b;
  }

  lemma ConsSplit<T>(s: seq<T>)
    requires s != []
    ensures [s[0]] + s[1..] == s
  {
  }

  /** Splitting a join of separator-free pieces gives the pieces back. */
  lemma {:induction false} SplitJoin(pieces: seq<string>, sep: char)
    requires |pieces| >= 1
    requires forall k :: 0 <= k < |pieces| ==> sep !in pieces[k]
    ensures Split(Join(pieces, sep), sep) == pieces
  {
    if |pieces| > 1 {
      var rest := Join(pieces[1..], sep);
      SplitFirst(pieces[0], sep, rest);
      SplitJoin(pieces[1..], sep);
      ConsSplit(pieces);
    }
  }

  /** A string with no whitespace at either end trims to itself. */
  lemma TrimUnchanged(s: string)
    requires s != [] && !IsSpace(s[0]) && !IsSpace(s[|s| - 1])
    ensures Trim(s) == s
  {
    assert TrimStart(s) == s;
  }

  /** `u64::from_str` / `usize::from_str`: an optional '+' and at least one ASCII digit. */
  function ParseUnsigned(s: string): (r: Option<nat>)
    ensures r.Some? <==> (AllDigits(s) && s != []) || (|s| >= 2 && s[0] == '+' && AllDigits(s[1..]))
  {
    if |s| >= 1 && s[0] == '+' then
      (if |s| >= 2 && AllDigits(s[1..]) then Some(Value(s[1..])) else None)
    else if s != [] && AllDigits(s) then Some(Value(s))
    else None
  }

  /** `i64::from_str`: an optional sign and at least one ASCII digit. */
  function ParseSigned(s: string): (r: Option<int>)
    ensures s != [] && s[0] != '-' ==> r == (match ParseUnsigned(s) case None => None case Some(n) => Some(n as int))
    ensures |s| >= 2 && s[0] == '-' && AllDigits(s[1..]) ==> r == Some(-(Value(s[1..]) as int))
  {
    if |s| >= 1 && s[0] == '-' then
      (if |s| >= 2 && AllDigits(s[1..]) then Some(-(Value(s[1..]) as int)) else None)
    else
      match ParseUnsigned(s)
      case None => None
      case Some(n) => Some(n as int)
  }

  /** Parsing reads back exactly the number `toString` wrote. */
  lemma ParseShow(n: nat)
    ensures ParseUnsigned(Show(n)) == Some(n)
    ensures ParseSigned(Show(n)) == Some(n as int)
  {
    ValueShow(n);
  }
}
