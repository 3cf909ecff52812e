// Decimal digit strings of natural numbers: the `toString` / `SetString` /
// `parse` conversions the solvers apply to non-negative integers.
module Decimal {

  function Pow10(k: nat): (r: nat)
    ensures r >= 1
  {
    if k == 0 then 1 else 10 * Pow10(k - 1)
  }

  lemma {:induction false} Pow10Monotone(j: nat, k: nat)
    requires j <= k
    ensures Pow10(j) <= Pow10(k)
  {
    if j < k {
      Pow10Monotone(j, k - 1);
    }
  }

  lemma {:induction false} Pow10Add(j: nat, k: nat)
    ensures Pow10(j + k) == Pow10(j) * Pow10(k)
  {
    if k > 0 {
      Pow10Add(j, k - 1);
      assert Pow10(j + k) == 10 * Pow10(j + k - 1);
    }
  }

  predicate IsDigit(c: char) {
    '0' <= c <= '9'
  }

  predicate AllDigits(s: string) {
    forall i :: 0 <= i < |s| ==> IsDigit(s[i])
  }

  /** A digit string as `toString` writes it: non-empty, no leading zero unless it is "0". */
  predicate Canonical(s: string) {
    |s| >= 1 && AllDigits(s) && (|s| > 1 ==> s[0] != '0')
  }

  function DigitValue(c: char): (d: nat)
    requires IsDigit(c)
    ensures d < 10
  {
    (c as int) - ('0' as int)
  }

  function DigitChar(d: nat): (c: char)
    requires d < 10
    ensures IsDigit(c) && DigitValue(c) == d
    ensures c == '0' <==> d == 0
  {
    (('0' as int) + d) as char
  }

  /** The decimal representation of n, most significant digit first. */
  function Show(n: nat): (s: string)
    ensures Canonical(s)
    ensures n > 0 ==> s[0] != '0'
  {
    if n < 10 then [DigitChar(n)] else Show(n / 10) + [DigitChar(n % 10)]
  }

  /** The number a digit string denotes (leading zeros allowed). */
  function Value(s: string): nat
    requires AllDigits(s)
  {
    if s == [] then 0 else 10 * Value(s[..|s| - 1]) + DigitValue(s[|s| - 1])
  }

  lemma ValueSnoc(a: string, c: char)
    requires AllDigits(a) && IsDigit(c)
    ensures AllDigits(a + [c])
    ensures Value(a + [c]) == 10 * Value(a) + DigitValue(c)
  {
    assert (a + [c])[..|a|] == a;
  }

  /** Reading back what `Show` wrote gives the number again. */
  lemma {:induction false} ValueShow(n: nat)
    ensures Value(Show(n)) == n
  {
    if n >= 10 {
      ValueShow(n / 10);
      ValueSnoc(Show(n / 10), DigitChar(n % 10));
    }
  }

  /** `Show` is the inverse of `Value` on canonical strings. */
  lemma {:induction false} ShowValue(s: string)
    requires Canonical(s)
    ensures Show(Value(s)) == s
  {
    if |s| > 1 {
      var a := s[..|s| - 1];
      assert s == a + [s[|s| - 1]];
      assert Canonical(a) && a[0] == s[0];
      ValueBounds(a);
      ShowValue(a);
      ValueSnoc(a, s[|s| - 1]);
      var v, d := Value(a), DigitValue(s[|s| - 1]);
      assert Value(s) == 10 * v + d;
      assert v >= 1;
      DivMod10(v, d);
      assert DigitChar(d) == s[|s| - 1];
    }
  }

  lemma DivMod10(v: nat, d: nat)
    requires d < 10
    ensures (10 * v + d) / 10 == v && (10 * v + d) % 10 == d
  {
  }

  lemma Distribute(va: int, vb: int, p: int, d: int)
    ensures 10 * (va * p + vb) + d == va * (10 * p) + (10 * vb + d)
  {
  }

  lemma {:induction false} ValueAppend(a: string, b: string)
    requires AllDigits(a) && AllDigits(b)
    ensures AllDigits(a + b)
    ensures Value(a + b) == Value(a) * Pow10(|b|) + Value(b)
  {
    if b == [] {
      assert a + b == a;
    } else {
      var b' := b[..|b| - 1];
      var c := b[|b| - 1];
      assert b == b' + [c];
      assert a + b == (a + b') + [c];
      ValueAppend(a, b');
      ValueSnoc(a + b', c);
      ValueSnoc(b', c);
      var va, vb, p, d := Value(a), Value(b'), Pow10(|b'|), DigitValue(c);
      assert Pow10(|b|) == 10 * p;
      assert Value(a + b) == 10 * (va * p + vb) + d;
      Distribute(va, vb, p, d);
    }
  }

  /** A k-digit string denotes a number below 10^k, and at least 10^(k-1) without a leading zero. */
  lemma {:induction false} ValueBounds(s: string)
    requires AllDigits(s)
    ensures Value(s) < Pow10(|s|)
    ensures |s| >= 1 && s[0] != '0' ==> Value(s) >= Pow10(|s| - 1)
  {
    if s != [] {
      var a := s[..|s| - 1];
      ValueBounds(a);
      if |s| > 1 {
        assert a[0] == s[0];
      }
    }
  }

  /** The length of `Show(n)` is the number of decimal digits of n. */
  lemma ShowBounds(n: nat)
    ensures n < Pow10(|Show(n)|)
    ensures |Show(n)| > 1 ==> Pow10(|Show(n)| - 1) <= n
  {
    ValueShow(n);
    ValueBounds(Show(n));
  }

  lemma ShowLength(n: nat, k: nat)
    requires k >= 1 && n < Pow10(k)
    requires k > 1 ==> Pow10(k - 1) <= n
    ensures |Show(n)| == k
  {
    var l := |Show(n)|;
    ShowBounds(n);
    if l < k {
      Pow10Monotone(l, k - 1);
    } else if l > k {
      Pow10Monotone(k, l - 1);
    }
  }

  /** A number with fewer digits is smaller. */
  lemma ShorterIsSmaller(a: nat, b: nat)
    requires |Show(a)| < |Show(b)|
    ensures a < b
  {
    ShowBounds(a);
    ShowBounds(b);
    Pow10Monotone(|Show(a)|, |Show(b)| - 1);
  }
}
