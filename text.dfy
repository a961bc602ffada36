/** String helpers shared by the modules: prefixes, substrings, decimal
    rendering of integers and the JavaScript `padStart`/`slice(-k)` calls. */
module Text {

  /** `p` is a prefix of `s` (JavaScript `startsWith`, Python `startswith`). */
  predicate StartsWith(s: string, p: string) {
    |p| <= |s| && s[..|p|] == p
  }

  /** `p` occurs in `s` starting at index `i`. */
  predicate OccursAt(s: string, p: string, i: int) {
    0 <= i && i + |p| <= |s| && s[i..i + |p|] == p
  }

  /** `p` occurs somewhere in `s` (Python `in`, JavaScript `includes`). */
  predicate Contains(s: string, p: string) {
    exists i | 0 <= i <= |s| - |p| :: OccursAt(s, p, i)
  }

  /** An occurrence in the tail is an occurrence in the whole string. */
  lemma ContainsTail(s: string, p: string)
    requires s != [] && Contains(s[1..], p)
    ensures Contains(s, p)
  {
    var i :| 0 <= i <= |s| - 1 - |p| && OccursAt(s[1..], p, i);
    assert s[i + 1..i + 1 + |p|] == s[1..][i..i + |p|];
    assert OccursAt(s, p, i + 1);
  }

  /** An occurrence not at index 0 is an occurrence in the tail. */
  lemma ContainsSplit(s: string, p: string)
    requires Contains(s, p) && !OccursAt(s, p, 0)
    ensures s != [] && Contains(s[1..], p)
  {
    var i :| 0 <= i <= |s| - |p| && OccursAt(s, p, i);
    assert i > 0;
    assert s[1..][i - 1..i - 1 + |p|] == s[i..i + |p|];
    assert OccursAt(s[1..], p, i - 1);
  }

  predicate IsAsciiDigit(c: char) {
    '0' <= c <= '9'
  }

  /** Every character is an ASCII digit (possibly none). */
  predicate AllDigits(s: string) {
    forall k :: 0 <= k < |s| ==> IsAsciiDigit(s[k])
  }

  function DigitChar(d: nat): (c: char)
    requires d < 10
    ensures IsAsciiDigit(c) && c as int - '0' as int == d
  {
    (d + '0' as int) as char
  }

  /** Decimal rendering of a natural number, most significant digit first,
      without leading zeros (JavaScript `String(n)` for a non-negative
      integer). */
  function NatToString(n: nat): (s: string)
    ensures |s| >= 1 && AllDigits(s)
    decreases n
  {
    if n < 10 then [DigitChar(n)] else NatToString(n / 10) + [DigitChar(n % 10)]
  }

  /** JavaScript `String(n)` for an integer value. */
  function IntToString(n: int): (s: string)
    ensures |s| >= 1
    ensures n >= 0 ==> s == NatToString(n)
    ensures n < 0 ==> s == "-" + NatToString(-n)
  {
    if n < 0 then "-" + NatToString(-n) else NatToString(n)
  }

  /** The number a string of decimal digits denotes: the reference reading of
      `NatToString`. */
  function DigitsValue(s: string): int {
    if s == [] then 0
    else DigitsValue(s[..|s| - 1]) * 10 + (s[|s| - 1] as int - '0' as int)
  }

  function Pow10(k: nat): (p: nat)
    ensures p >= 1
  {
    if k == 0 then 1 else 10 * Pow10(k - 1)
  }

  /** Reading back what `NatToString` wrote gives the number. */
  lemma {:induction false} NatToStringValue(n: nat)
    ensures DigitsValue(NatToString(n)) == n
    decreases n
  {
    if n >= 10 {
      var s := NatToString(n);
      assert s[..|s| - 1] == NatToString(n / 10);
      NatToStringValue(n / 10);
    }
  }

  /** A number has exactly as many digits as its order of magnitude says. */
  lemma {:induction false} NatToStringLength(n: nat, k: nat)
    ensures n < Pow10(k) && k >= 1 ==> |NatToString(n)| <= k
    ensures Pow10(k) <= n ==> |NatToString(n)| > k
    decreases n
  {
    if n >= 10 {
      if k >= 1 {
        NatToStringLength(n / 10, k - 1);
      }
    }
  }

  /** JavaScript `s.padStart(width, c)` with a one-character pad. */
  function PadStart(s: string, width: nat, c: char): (r: string)
    ensures |r| == if |s| >= width then |s| else width
    ensures r[|r| - |s|..] == s
    ensures forall k :: 0 <= k < |r| - |s| ==> r[k] == c
    decreases width - |s|
  {
    if |s| >= width then s else PadStart([c] + s, width, c)
  }

  /** JavaScript `s.slice(-k)` for k >= 1: the last `k` characters, or the
      whole string when it is shorter. */
  function Last(s: string, k: nat): (r: string)
    ensures |r| == if |s| <= k then |s| else k
    ensures r == s[|s| - |r|..]
  {
    if |s| <= k then s else s[|s| - k..]
  }

  lemma MulAtLeast(d: int, k: int)
    requires d > 0 && k >= 1
    ensures d * k >= d
  {
    if k > 1 {
      MulAtLeast(d, k - 1);
      assert d * k == d * (k - 1) + d;
    }
  }

  /** Quotient and remainder are determined by the division equation. */
  lemma DivModUnique(n: int, d: int, q: int, r: int)
    requires d > 0 && n == d * q + r && 0 <= r < d
    ensures n / d == q && n % d == r
  {
    var q0, r0 := n / d, n % d;
    assert n == d * q0 + r0 && 0 <= r0 < d;
    assert d * (q - q0) == r0 - r by { assert d * (q - q0) == d * q - d * q0; }
    if q - q0 >= 1 {
      MulAtLeast(d, q - q0);
    } else if q0 - q >= 1 {
      MulAtLeast(d, q0 - q);
    }
  }

  /** The arithmetic step behind `LastDigitsValue`. */
  lemma ModStep(n: nat, m: nat)
    requires m >= 1
    ensures ((n / 10) % m) * 10 + n % 10 == n % (10 * m)
  {
    var q, r := n / 10, n % 10;
    var a, b := q / m, q % m;
    assert n == 10 * q + r;
    assert q == m * a + b;
    assert n == (10 * m) * a + (10 * b + r) by {
      assert 10 * (m * a) == (10 * m) * a;
    }
    DivModUnique(n, 10 * m, a, 10 * b + r);
  }

  /** Appending a digit multiplies the value by ten and adds the digit. */
  lemma DigitsValueSnoc(t: string, c: char)
    requires AllDigits(t) && IsAsciiDigit(c)
    ensures AllDigits(t + [c])
    ensures DigitsValue(t + [c]) == DigitsValue(t) * 10 + (c as int - '0' as int)
  {
    assert (t + [c])[..|t|] == t;
  }

  lemma LastSnoc(t: string, c: char, k: nat)
    requires 1 <= k < |t| + 1
    ensures Last(t + [c], k) == Last(t, k - 1) + [c]
  {
  }

  /** A rendering of at most `k` digits denotes a number below 10^k. */
  lemma ShortRenderingIsSmall(n: nat, k: nat)
    requires |NatToString(n)| <= k
    ensures n < Pow10(k)
  {
    if Pow10(k) <= n { NatToStringLength(n, k); }
  }

  /** The last digit of a rendering is the number modulo ten. */
  lemma LastDigitValue(n: nat)
    requires n >= 10
    ensures AllDigits(Last(NatToString(n), 1))
    ensures DigitsValue(Last(NatToString(n), 1)) == n % 10
  {
    var c := DigitChar(n % 10);
    assert NatToString(n) == NatToString(n / 10) + [c];
    assert Last(NatToString(n), 1) == [] + [c];
    DigitsValueSnoc([], c);
  }

  /** The last `k` digits of a number's decimal rendering denote the number
      modulo 10^k. */
  lemma {:induction false} LastDigitsValue(n: nat, k: nat)
    requires k >= 1
    ensures AllDigits(Last(NatToString(n), k))
    ensures DigitsValue(Last(NatToString(n), k)) == n % Pow10(k)
    decreases n
  {
    var s := NatToString(n);
    if |s| <= k {
      NatToStringValue(n);
      ShortRenderingIsSmall(n, k);
      DivModUnique(n, Pow10(k), 0, n);
    } else if k == 1 {
      LastDigitValue(n);
    } else {
      var t, c := NatToString(n / 10), DigitChar(n % 10);
      assert s == t + [c];
      var u := Last(t, k - 1);
      LastSnoc(t, c, k);
      LastDigitsValue(n / 10, k - 1);
      DigitsValueSnoc(u, c);
      ModStep(n, Pow10(k - 1));
    }
  }

  /** A leading zero does not change the value of a digit string. */
  lemma {:induction false} ZeroConsValue(s: string)
    requires AllDigits(s)
    ensures AllDigits("0" + s) && DigitsValue("0" + s) == DigitsValue(s)
    decreases |s|
  {
    if s != [] {
      var t := s[..|s| - 1];
      assert ("0" + s)[..|s|] == "0" + t;
      ZeroConsValue(t);
    }
  }

  /** Padding a digit string with zeros keeps its value. */
  lemma {:induction false} PadStartValue(s: string, width: nat)
    requires AllDigits(s)
    ensures AllDigits(PadStart(s, width, '0'))
    ensures DigitsValue(PadStart(s, width, '0')) == DigitsValue(s)
    decreases width - |s|
  {
    if |s| < width {
      ZeroConsValue(s);
      PadStartValue("0" + s, width);
    }
  }

  /** A slice of a slice is a slice of the text. */
  lemma SliceOfSlice(n: string, i: nat, d: string, a: nat, b: nat)
    requires i + |d| <= |n| && n[i..i + |d|] == d && a <= b <= |d|
    ensures n[i + a..i + b] == d[a..b]
  {
    forall k | 0 <= k < b - a ensures n[i + a..i + b][k] == d[a..b][k] {
      assert d[a + k] == n[i..i + |d|][a + k];
    }
  }
}
