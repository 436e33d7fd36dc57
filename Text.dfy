/**
 * The pieces of Python string handling the core relies on: ASCII
 * `str.lower()`, `str.strip('.')`, `str()` of an integer and the `02x`
 * format of a byte.
 */
module Text {
  import opened Wrappers

  // ---------------------------------------------------------------------
  // Lower-casing

  predicate IsUpper(c: char)
  {
    'A' <= c <= 'Z'
  }

  function LowerChar(c: char): char
  {
    if IsUpper(c) then (c as int - 'A' as int + 'a' as int) as char else c
  }

  /** `s.lower()` on ASCII text. */
  function Lower(s: string): (r: string)
    ensures |r| == |s|
    ensures forall i | 0 <= i < |s| :: r[i] == LowerChar(s[i])
  {
    seq(|s|, i requires 0 <= i < |s| => LowerChar(s[i]))
  }

  /** Lower-casing leaves no upper-case letter, changes nothing but upper-case
      letters, and so is idempotent. */
  lemma LowerIsLower(s: string)
    ensures forall i | 0 <= i < |s| :: !IsUpper(Lower(s)[i])
    ensures forall i | 0 <= i < |s| && !IsUpper(s[i]) :: Lower(s)[i] == s[i]
    ensures Lower(Lower(s)) == Lower(s)
  {
    assert forall i | 0 <= i < |s| :: Lower(Lower(s))[i] == Lower(s)[i];
  }

  lemma LowerAppend(a: string, b: string)
    ensures Lower(a + b) == Lower(a) + Lower(b)
  {
    assert forall i | 0 <= i < |a + b| :: Lower(a + b)[i] == (Lower(a) + Lower(b))[i];
  }

  // ---------------------------------------------------------------------
  // Stripping dots

  predicate AllDots(s: string)
  {
    forall k | 0 <= k < |s| :: s[k] == '.'
  }

  /** Neither begins nor ends with a dot. */
  predicate Trimmed(s: string)
  {
    s == [] || (s[0] != '.' && s[|s| - 1] != '.')
  }

  /** The length of the run of dots that `s` begins with. */
  function LeadingDots(s: string): (n: nat)
    ensures n <= |s| && AllDots(s[..n])
    ensures n < |s| ==> s[n] != '.'
  {
    if s != [] && s[0] == '.' then 1 + LeadingDots(s[1..]) else 0
  }

  /** The length of the run of dots that `s` ends with. */
  function TrailingDots(s: string): (n: nat)
    ensures n <= |s| && AllDots(s[|s| - n..])
    ensures n < |s| ==> s[|s| - n - 1] != '.'
  {
    if s != [] && s[|s| - 1] == '.' then 1 + TrailingDots(s[..|s| - 1]) else 0
  }

  /** `s.strip('.')` */
  function StripDots(s: string): (r: string)
    ensures Trimmed(r) && |r| <= |s|
    ensures forall k | 0 <= k < |r| :: r[k] in s
  {
    var t := s[LeadingDots(s)..];
    t[..|t| - TrailingDots(t)]
  }

  lemma {:induction false} LeadingDotsOf(a: string, rest: string)
    requires AllDots(a) && (rest == [] || rest[0] != '.')
    ensures LeadingDots(a + rest) == |a|
    decreases |a|
  {
    if a == [] {
      assert a + rest == rest;
    } else {
      assert (a + rest)[1..] == a[1..] + rest;
      LeadingDotsOf(a[1..], rest);
    }
  }

  lemma {:induction false} TrailingDotsOf(rest: string, b: string)
    requires AllDots(b) && (rest == [] || rest[|rest| - 1] != '.')
    ensures TrailingDots(rest + b) == |b|
    decreases |b|
  {
    if b == [] {
      assert rest + b == rest;
    } else {
      assert (rest + b)[..|rest + b| - 1] == rest + b[..|b| - 1];
      TrailingDotsOf(rest, b[..|b| - 1]);
    }
  }

  /** `strip('.')` removes exactly the dots around the trimmed middle: the
      middle is what remains, whatever the runs of dots around it. */
  lemma StripDotsOf(a: string, m: string, b: string)
    requires AllDots(a) && AllDots(b) && Trimmed(m)
    ensures StripDots(a + m + b) == m
  {
    var s := a + m + b;
    if m == [] {
      assert s == (a + b) + [];
      assert AllDots(a + b);
      LeadingDotsOf(a + b, []);
    } else {
      assert s == a + (m + b);
      LeadingDotsOf(a, m + b);
      assert s[|a|..] == m + b;
      TrailingDotsOf(m, b);
      assert (m + b)[..|m|] == m;
    }
  }

  // ---------------------------------------------------------------------
  // Searching

  /** `s.find(c)`: the index of the first `c` in `s`, or -1. */
  function IndexOf(s: string, c: char): (i: int)
    ensures -1 <= i < |s|
    ensures i >= 0 ==> s[i] == c
    ensures forall k | 0 <= k < |s| && (i < 0 || k < i) :: s[k] != c
  {
    if s == [] then -1
    else if s[0] == c then 0
    else var j := IndexOf(s[1..], c); if j < 0 then -1 else j + 1
  }

  lemma IndexOfAfter(a: string, c: char, b: string)
    requires c !in a
    ensures IndexOf(a + [c] + b, c) == |a|
  {
    var s := a + [c] + b;
    var i := IndexOf(s, c);
    assert s[|a|] == c;
    assert forall k | 0 <= k < |a| :: s[k] == a[k];
  }

  // ---------------------------------------------------------------------
  // Decimal numerals

  predicate IsDigit(c: char)
  {
    '0' <= c <= '9'
  }

  predicate AllDigits(s: string)
  {
    forall k | 0 <= k < |s| :: IsDigit(s[k])
  }

  function DigitChar(d: nat): (c: char)
    requires d < 10
    ensures IsDigit(c)
  {
    ('0' as int + d) as char
  }

  function DigitValue(c: char): (d: nat)
    requires IsDigit(c)
    ensures d < 10 && DigitChar(d) == c
  {
    c as int - '0' as int
  }

  /** `str(n)` for `n >= 0`: decimal digits without a leading zero. */
  function NatToString(n: nat): (s: string)
    ensures |s| >= 1 && AllDigits(s)
    ensures s[0] == '0' ==> n == 0
    decreases n
  {
    if n < 10 then [DigitChar(n)] else NatToString(n / 10) + [DigitChar(n % 10)]
  }

  /** The number a string of decimal digits denotes. */
  function DigitsValue(s: string): nat
    requires AllDigits(s)
  {
    if s == [] then 0 else DigitsValue(s[..|s| - 1]) * 10 + DigitValue(s[|s| - 1])
  }

  lemma {:induction false} NatToStringRoundTrip(n: nat)
    ensures DigitsValue(NatToString(n)) == n
    decreases n
  {
    if n >= 10 {
      var s := NatToString(n);
      assert s[..|s| - 1] == NatToString(n / 10);
      NatToStringRoundTrip(n / 10);
    }
  }

  /** `str(i)`: a minus sign for negative numbers, then the digits. */
  function IntToString(i: int): (s: string)
    ensures |s| >= 1 && (IsDigit(s[0]) || s[0] == '-') && AllDigits(s[1..])
  {
    if i < 0 then "-" + NatToString(-i) else NatToString(i)
  }

  /** `int(s)` on the strings `str` produces. */
  function ParseInt(s: string): Option<int>
  {
    if |s| >= 2 && s[0] == '-' && AllDigits(s[1..]) then Some(-(DigitsValue(s[1..]) as int))
    else if |s| >= 1 && AllDigits(s) then Some(DigitsValue(s))
    else None
  }

  lemma IntToStringRoundTrip(i: int)
    ensures ParseInt(IntToString(i)) == Some(i)
  {
    if i < 0 {
      assert IntToString(i)[1..] == NatToString(-i);
      NatToStringRoundTrip(-i);
    } else {
      NatToStringRoundTrip(i);
    }
  }

  lemma IntToStringInjective(i: int, j: int)
    requires IntToString(i) == IntToString(j)
    ensures i == j
  {
    IntToStringRoundTrip(i);
    IntToStringRoundTrip(j);
  }

  // ---------------------------------------------------------------------
  // Hexadecimal

  predicate IsLowerHexDigit(c: char)
  {
    '0' <= c <= '9' || 'a' <= c <= 'f'
  }

  function HexDigit(v: nat): (c: char)
    requires v < 16
    ensures IsLowerHexDigit(c)
  {
    if v < 10 then ('0' as int + v) as char else ('a' as int + v - 10) as char
  }

  function HexValue(c: char): (v: nat)
    requires IsLowerHexDigit(c)
    ensures v < 16 && HexDigit(v) == c
  {
    if c <= '9' then c as int - '0' as int else c as int - 'a' as int + 10
  }

  /** `format(x, '02x')` for a byte: exactly two lower-case hex digits,
      high digit first, from which the byte can be read back. */
  function Hex2(x: nat): (s: string)
    requires x < 256
    ensures |s| == 2 && IsLowerHexDigit(s[0]) && IsLowerHexDigit(s[1])
    ensures HexValue(s[0]) * 16 + HexValue(s[1]) == x
  {
    [HexDigit(x / 16), HexDigit(x % 16)]
  }
}
