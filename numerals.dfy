/** Decimal text as the source reads and writes it: std::to_string,
    stream output under setw/setfill, and std::stoi. */
module Numerals {
  import opened Results

  predicate IsDigit(c: char) { '0' <= c <= '9' }

  predicate AllDigits(s: string) { forall i :: 0 <= i < |s| ==> IsDigit(s[i]) }

  function DigitValue(c: char): int
    requires IsDigit(c)
  {
    c as int - '0' as int
  }

  function DigitChar(d: int): (c: char)
    requires 0 <= d <= 9
    ensures IsDigit(c) && DigitValue(c) == d
  {
    ('0' as int + d) as char
  }

  function Pow10(k: nat): (p: nat)
    ensures p >= 1
  {
    if k == 0 then 1 else 10 * Pow10(k - 1)
  }

  /** Division is exact on a known quotient and remainder. */
  lemma DivExact(a: int, s: int, q: int, r: int)
    requires s > 0 && a == q * s + r && 0 <= r < s
    ensures a / s == q && a % s == r
  {
    var q2 := a / s;
    var r2 := a % s;
    assert a == q2 * s + r2 && 0 <= r2 < s;
    assert (q - q2) * s == r2 - r;
    ZeroMultiple(q - q2, s);
  }

  /** The only multiple of s strictly between -s and s is zero. */
  lemma ZeroMultiple(x: int, s: int)
    requires s > 0 && -s < x * s < s
    ensures x == 0
  {
  }

  /** a whole multiple of s below b * s lies at least s below it. */
  lemma MultipleBelow(a: int, b: int, s: int)
    requires 0 <= a < b && s > 0
    ensures 0 <= a * s <= s * b - s
  {
    assert s * b - a * s == (b - a) * s;
    assert (b - a - 1) * s >= 0;
  }

  /** A digit at place p followed by a value below p stays below 10 * p. */
  lemma PlaceValue(d: int, p: int, r: int)
    requires 0 <= d <= 9 && 0 <= r < p
    ensures 0 <= d * p + r < 10 * p
  {
    MultipleBelow(d, 10, p);
  }

  /** Moving a leading digit one place up. */
  lemma ShiftPlace(d: int, p: int, x: int, e: int)
    ensures (d * p + x) * 10 + e == d * (10 * p) + (x * 10 + e)
  {
  }

  /** std::to_string of a non-negative integer: its shortest decimal digits. */
  function NatToString(n: nat): string
    decreases n
  {
    if n < 10 then [DigitChar(n)] else NatToString(n / 10) + [DigitChar(n % 10)]
  }

  /** std::to_string of any integer. */
  function IntToString(i: int): string
  {
    if i < 0 then "-" + NatToString(-i) else NatToString(i)
  }

  function Repeat(c: char, n: nat): (s: string)
    ensures |s| == n && forall i :: 0 <= i < n ==> s[i] == c
  {
    seq(n, _ => c)
  }

  /** What `os << setw(width) << setfill(fill) << right << text` writes:
      the text, preceded by fill characters up to the width. */
  function PadLeft(s: string, width: int, fill: char): (r: string)
    ensures |s| >= width ==> r == s
    ensures |s| < width ==> |r| == width && r[width - |s|..] == s
    ensures forall i :: 0 <= i < |r| - |s| ==> r[i] == fill
  {
    if |s| < width then Repeat(fill, width - |s|) + s else s
  }

  /** The value of a string of decimal digits, most significant first. */
  function DigitsValue(s: string): nat
    requires AllDigits(s)
  {
    if s == [] then 0 else DigitsValue(s[..|s| - 1]) * 10 + DigitValue(s[|s| - 1])
  }

  /** Length of the longest prefix made of digits. */
  function DigitRun(s: string): (k: nat)
    ensures k <= |s| && AllDigits(s[..k])
    ensures k < |s| ==> !IsDigit(s[k])
  {
    if s == [] || !IsDigit(s[0]) then 0 else 1 + DigitRun(s[1..])
  }

  /** The characters std::isspace accepts in the C locale. */
  predicate IsSpace(c: char) { c == ' ' || 9 <= c as int <= 13 }

  function SpaceRun(s: string): (k: nat)
    ensures k <= |s|
  {
    if s == [] || !IsSpace(s[0]) then 0 else 1 + SpaceRun(s[1..])
  }

  /** std::stoi: leading white space, an optional sign, then the longest run of
      digits, the rest ignored.  None where stoi throws invalid_argument (no
      digit after the optional sign).  Overflow (out_of_range) is not modelled. */
  function StoI(s: string): (r: Option<int>)
  {
    var t := s[SpaceRun(s)..];
    var negative := |t| > 0 && t[0] == '-';
    var u := if |t| > 0 && (t[0] == '-' || t[0] == '+') then t[1..] else t;
    var k := DigitRun(u);
    var magnitude: int := DigitsValue(u[..k]);
    if k == 0 then None else Some(if negative then -magnitude else magnitude)
  }

  lemma {:induction false} NatToStringDigits(n: nat)
    ensures |NatToString(n)| >= 1 && AllDigits(NatToString(n))
    ensures DigitsValue(NatToString(n)) == n
    decreases n
  {
    if n >= 10 {
      NatToStringDigits(n / 10);
      var s := NatToString(n);
      assert s[..|s| - 1] == NatToString(n / 10);
    }
  }

  lemma {:induction false} NatToStringLength(n: nat, width: nat)
    requires 1 <= width && n < Pow10(width)
    ensures |NatToString(n)| <= width
    decreases n
  {
    if n >= 10 {
      assert width >= 2;
      assert n / 10 < Pow10(width - 1);
      NatToStringLength(n / 10, width - 1);
    }
  }

  lemma {:induction false} LeadingZerosValue(z: nat, s: string)
    requires AllDigits(s)
    ensures AllDigits(Repeat('0', z) + s)
    ensures DigitsValue(Repeat('0', z) + s) == DigitsValue(s)
    decreases |s| + z
  {
    var t := Repeat('0', z) + s;
    if s == [] {
      if z > 0 {
        LeadingZerosValue(z - 1, s);
        assert t[..|t| - 1] == Repeat('0', z - 1) + s;
      }
    } else {
      LeadingZerosValue(z, s[..|s| - 1]);
      assert t[..|t| - 1] == Repeat('0', z) + s[..|s| - 1];
    }
  }

  lemma {:induction false} DigitRunAll(s: string)
    requires AllDigits(s)
    ensures DigitRun(s) == |s|
    decreases |s|
  {
    if s != [] {
      DigitRunAll(s[1..]);
    }
  }

  lemma StoIOfDigits(p: string)
    requires |p| >= 1 && AllDigits(p)
    ensures StoI(p) == Some(DigitsValue(p))
  {
    assert SpaceRun(p) == 0 by { assert IsDigit(p[0]); }
    assert p[0..] == p;
    DigitRunAll(p);
    assert p[..|p|] == p;
  }

  /** Reading back what setw/setfill('0') wrote for a non-negative number gives
      the number: the date and time renderings round-trip through stoi. */
  lemma ParsePadded(n: nat, width: int)
    ensures StoI(PadLeft(NatToString(n), width, '0')) == Some(n)
  {
    NatToStringDigits(n);
    var s := NatToString(n);
    var p := PadLeft(s, width, '0');
    var z := if |s| < width then width - |s| else 0;
    assert p == Repeat('0', z) + s;
    LeadingZerosValue(z, s);
    StoIOfDigits(p);
  }
}
