/** Decimal numbers as the standard library prints and parses them. */
module Decimal {
  import opened Wrappers

  predicate IsDigit(c: char) {
    '0' <= c <= '9'
  }

  function DigitValue(c: char): (v: nat)
    requires IsDigit(c)
    ensures v < 10
  {
    c as int - '0' as int
  }

  function DigitChar(v: nat): (c: char)
    requires v < 10
    ensures IsDigit(c) && DigitValue(c) == v
  {
    ('0' as int + v) as char
  }

  predicate AllDigits(s: string) {
    forall i | 0 <= i < |s| :: IsDigit(s[i])
  }

  function Value(s: string): nat
    requires AllDigits(s)
  {
    if s == "" then 0 else 10 * Value(s[..|s| - 1]) + DigitValue(s[|s| - 1])
  }

  function Digits(n: nat): string {
    if n < 10 then [DigitChar(n)] else Digits(n / 10) + [DigitChar(n % 10)]
  }

  lemma {:induction false} DigitsOf(n: nat)
    ensures Digits(n) != "" && AllDigits(Digits(n)) && Value(Digits(n)) == n
    ensures (n < 100 ==> |Digits(n)| <= 2) && (n < 10000 ==> |Digits(n)| <= 4)
  {
    if n < 10 {
      assert Value([DigitChar(n)][..0]) == 0;
    } else {
      DigitsOf(n / 10);
      if n >= 100 {
        DigitsOf(n / 100);
        assert Digits(n / 10) == Digits(n / 100) + [DigitChar(n / 10 % 10)];
      }
      assert Digits(n)[..|Digits(n)| - 1] == Digits(n / 10);
    }
  }

  function Pad(digits: string, width: nat): string
    decreases if |digits| < width then width - |digits| else 0
  {
    if |digits| >= width then digits else Pad("0" + digits, width)
  }

  lemma {:induction false} Padded(digits: string, width: nat)
    requires digits != "" && AllDigits(digits)
    ensures var s := Pad(digits, width);
      && s != "" && AllDigits(s) && Value(s) == Value(digits)
      && |s| == if |digits| <= width then width else |digits|
    decreases if |digits| < width then width - |digits| else 0
  {
    if |digits| < width {
      LeadingZero(digits);
      Padded("0" + digits, width);
    }
  }

  /** `n` with leading zeros up to `width` characters. */
  function ZeroPadded(n: nat, width: nat): string {
    Pad(Digits(n), width)
  }

  lemma ZeroPaddedOf(n: nat, width: nat)
    ensures var s := ZeroPadded(n, width);
      && s != "" && AllDigits(s) && Value(s) == n
      && ((n < 100 && width == 2) || (n < 10000 && width == 4) ==> |s| == width)
  {
    DigitsOf(n);
    Padded(Digits(n), width);
  }

  lemma {:induction false} DigitCountGrows(m: nat, n: nat)
    requires m <= n
    ensures |Digits(m)| <= |Digits(n)|
    decreases n
  {
    if n >= 10 {
      DigitsOf(n / 10);
      if m >= 10 {
        DigitCountGrows(m / 10, n / 10);
      }
    }
  }

  /** The longer text is the larger number. */
  lemma LongerIsLarger(m: nat, n: nat, width: nat)
    requires |ZeroPadded(m, width)| < |ZeroPadded(n, width)|
    ensures m < n
  {
    DigitsOf(m);
    DigitsOf(n);
    Padded(Digits(m), width);
    Padded(Digits(n), width);
    if n <= m {
      DigitCountGrows(n, m);
    }
  }

  lemma {:induction false} LeadingZero(s: string)
    requires AllDigits(s)
    ensures AllDigits("0" + s) && Value("0" + s) == Value(s)
  {
    if s == "" {
      assert "0" + s == "0" && "0"[..0] == "";
    } else {
      LeadingZero(s[..|s| - 1]);
      assert ("0" + s)[..|s|] == "0" + s[..|s| - 1];
    }
  }

  function ParseNat(s: string): Option<nat> {
    if s == "" || !AllDigits(s) then None else Some(Value(s))
  }

  const I32_MIN := -0x8000_0000
  const I32_MAX := 0x7FFF_FFFF
  const U32_MAX := 0xFFFF_FFFF

  /** A signed 32-bit number: a sign is allowed in front, and at least one digit is needed. */
  function ParseI32(s: string): (r: Option<int>)
    ensures r.Some? ==> I32_MIN <= r.value <= I32_MAX
  {
    var negative := s != "" && s[0] == '-';
    match ParseNat(if s != "" && (s[0] == '-' || s[0] == '+') then s[1..] else s)
    case None => None
    case Some(n) =>
      var size: int := n;
      var v := if negative then -size else size;
      if I32_MIN <= v <= I32_MAX then Some(v) else None
  }

  /** An unsigned 32-bit number: only a plus sign is allowed in front. */
  function ParseU32(s: string): (r: Option<int>)
    ensures r.Some? ==> 0 <= r.value <= U32_MAX
  {
    match ParseNat(if s != "" && s[0] == '+' then s[1..] else s)
    case None => None
    case Some(n) => if n <= U32_MAX then Some(n) else None
  }

  // ---------------------------------------------------------------------
  // Text order
  // ---------------------------------------------------------------------

  /** The order of strings by characters. */
  predicate TextLess(a: string, b: string) {
    b != "" && (a == "" || a[0] < b[0] || (a[0] == b[0] && TextLess(a[1..], b[1..])))
  }

  lemma {:induction false} TextLessConcat(a: string, b: string, x: string, y: string)
    requires |a| == |b|
    ensures TextLess(a + x, b + y) <==> TextLess(a, b) || (a == b && TextLess(x, y))
  {
    if a == "" {
      assert a + x == x && b + y == y;
    } else {
      TextLessConcat(a[1..], b[1..], x, y);
      assert (a + x)[1..] == a[1..] + x && (b + y)[1..] == b[1..] + y;
      assert a == [a[0]] + a[1..] && b == [b[0]] + b[1..];
    }
  }

  lemma {:induction false} TextOrderIsStrict(a: string, b: string)
    ensures TextLess(b, a) ==> !TextLess(a, b)
    ensures !TextLess(a, a)
  {
    if a != "" {
      TextOrderIsStrict(a[1..], if b != "" then b[1..] else b);
    }
  }

  lemma {:induction false} TextOrderIsTotal(a: string, b: string)
    ensures TextLess(a, b) || a == b || TextLess(b, a)
  {
    if a != "" && b != "" {
      TextOrderIsTotal(a[1..], b[1..]);
      assert a == [a[0]] + a[1..] && b == [b[0]] + b[1..];
    }
  }

  /** Digit strings of one length are ordered as their values are. */
  lemma {:induction false} TextOrderIsValueOrder(a: string, b: string)
    requires AllDigits(a) && AllDigits(b) && |a| == |b|
    ensures TextLess(a, b) <==> Value(a) < Value(b)
    ensures a == b <==> Value(a) == Value(b)
  {
    if a != "" {
      var n := |a| - 1;
      TextOrderIsValueOrder(a[..n], b[..n]);
      assert a == a[..n] + [a[n]] && b == b[..n] + [b[n]];
      TextLessConcat(a[..n], b[..n], [a[n]], [b[n]]);
      assert TextLess([a[n]], [b[n]]) <==> a[n] < b[n];
    }
  }
}
