/** Text formatting used by the student listing: Python's `{:<w}` and `{:>w}`
    padding of strings, and the `.2f` rendering of a scale-2 fixed-point value.

    A GPA is a `Numeric(3, 2)` column, read back as an exact decimal, so it is
    modelled as a whole number of hundredths; `.2f` of such a value renders it
    exactly: an optional minus sign, the integer part, a point and two digits. */
module Format {

  import opened Wrappers

  function Max(a: int, b: int): int {
    if a < b then b else a
  }

  /** `count` space characters. */
  function Spaces(count: nat): (r: string)
    ensures |r| == count
  {
    seq(count, _ => ' ')
  }

  /** `"{:<width}".format(s)`: left-aligned, filled with spaces on the right,
      never truncated. */
  function PadRight(s: string, width: nat): (r: string)
    ensures |r| == Max(|s|, width)
  {
    if |s| >= width then s else s + Spaces(width - |s|)
  }

  /** `"{:>width}".format(s)`: right-aligned, filled with spaces on the left,
      never truncated. */
  function PadLeft(s: string, width: nat): (r: string)
    ensures |r| == Max(|s|, width)
  {
    if |s| >= width then s else Spaces(width - |s|) + s
  }

  /** Left alignment keeps the whole string at the start and adds only
      spaces after it. */
  lemma PadRightShape(s: string, width: nat)
    ensures PadRight(s, width)[..|s|] == s
    ensures forall i :: |s| <= i < |PadRight(s, width)| ==> PadRight(s, width)[i] == ' '
  {
  }

  /** Right alignment keeps the whole string at the end and adds only spaces
      before it. */
  lemma PadLeftShape(s: string, width: nat)
    ensures PadLeft(s, width)[|PadLeft(s, width)| - |s|..] == s
    ensures forall i :: 0 <= i < |PadLeft(s, width)| - |s| ==> PadLeft(s, width)[i] == ' '
  {
  }

  /** Drops the leading spaces of `s`: the inverse of `PadLeft` on a string
      that does not itself start with a space. */
  function TrimLeft(s: string): (r: string)
    ensures |r| <= |s|
    ensures forall i :: 0 <= i < |r| ==> r[i] == s[|s| - |r| + i]
  {
    if s != [] && s[0] == ' ' then TrimLeft(s[1..]) else s
  }

  /** What `TrimLeft` drops is all spaces, and what it keeps does not start
      with one. */
  lemma {:induction false} TrimLeftShape(s: string)
    ensures TrimLeft(s) == [] || TrimLeft(s)[0] != ' '
    ensures forall i :: 0 <= i < |s| - |TrimLeft(s)| ==> s[i] == ' '
  {
    if s != [] && s[0] == ' ' {
      TrimLeftShape(s[1..]);
    }
  }

  predicate IsDigit(c: char) {
    '0' <= c <= '9'
  }

  predicate AllDigits(s: string) {
    forall i :: 0 <= i < |s| ==> IsDigit(s[i])
  }

  function DigitChar(d: nat): (c: char)
    requires d < 10
    ensures IsDigit(c) && c as int - '0' as int == d
  {
    ('0' as int + d) as char
  }

  function DigitValue(c: char): (d: nat)
    requires IsDigit(c)
    ensures d < 10 && DigitChar(d) == c
  {
    c as int - '0' as int
  }

  /** Python's `str(n)` for a non-negative integer: decimal digits, most
      significant first, without leading zeros. */
  function NatToString(n: nat): (r: string)
    ensures |r| >= 1 && AllDigits(r)
    ensures r[0] == '0' <==> n == 0
    ensures |r| == 1 <==> n < 10
  {
    if n < 10 then [DigitChar(n)] else NatToString(n / 10) + [DigitChar(n % 10)]
  }

  /** The value of a string of decimal digits, most significant first. */
  function DigitsValue(s: string): nat
    requires AllDigits(s)
  {
    if s == [] then 0 else DigitsValue(s[..|s| - 1]) * 10 + DigitValue(s[|s| - 1])
  }

  lemma {:induction false} NatToStringRoundTrip(n: nat)
    ensures DigitsValue(NatToString(n)) == n
  {
    if n >= 10 {
      var s := NatToString(n);
      assert s[..|s| - 1] == NatToString(n / 10);
      NatToStringRoundTrip(n / 10);
    }
  }

  /** Python's `"{:.2f}"` of a decimal holding `hundredths / 100` exactly. */
  function Fmt2(hundredths: int): (r: string)
    ensures |r| >= 4 && r[|r| - 3] == '.'
    ensures IsDigit(r[|r| - 2]) && IsDigit(r[|r| - 1])
    ensures r[0] == '-' <==> hundredths < 0
  {
    if hundredths < 0 then "-" + Unsigned2(-hundredths) else Unsigned2(hundredths)
  }

  /** The digits of `a / 100`, a point, and the two digits of `a % 100`. */
  function Unsigned2(a: nat): (r: string)
    ensures |r| >= 4 && r[|r| - 3] == '.' && IsDigit(r[0])
    ensures IsDigit(r[|r| - 2]) && IsDigit(r[|r| - 1])
  {
    NatToString(a / 100) + "." + [DigitChar(a % 100 / 10), DigitChar(a % 100 % 10)]
  }

  /** The rendering holds only digits, the point and the minus sign. */
  lemma Fmt2Chars(hundredths: int)
    ensures forall i :: 0 <= i < |Fmt2(hundredths)| ==> var c := Fmt2(hundredths)[i]; IsDigit(c) || c == '.' || c == '-'
  {
    var a := if hundredths < 0 then -hundredths else hundredths;
    var u := Unsigned2(a);
    assert forall i :: 0 <= i < |u| ==> IsDigit(u[i]) || u[i] == '.';
  }

  /** Reads back `[-]digits.dd` as a number of hundredths: an independent
      reference for what `Fmt2` is meant to render. */
  function ParseFixed2(s: string): Option<int> {
    if |s| > 0 && s[0] == '-' then
      match ParseUnsigned(s[1..])
      case Some(v) => Some(-v)
      case None => None
    else
      ParseUnsigned(s)
  }

  function ParseUnsigned(s: string): Option<int> {
    if |s| >= 4 && s[|s| - 3] == '.' && AllDigits(s[..|s| - 3]) && AllDigits(s[|s| - 2..]) then
      Some(DigitsValue(s[..|s| - 3]) * 100 + DigitsValue(s[|s| - 2..]))
    else
      None
  }

  lemma TwoDigitsValue(hi: nat, lo: nat)
    requires hi < 10 && lo < 10
    ensures DigitsValue([DigitChar(hi), DigitChar(lo)]) == hi * 10 + lo
  {
    var s := [DigitChar(hi), DigitChar(lo)];
    assert s[..1] == [DigitChar(hi)];
    assert [DigitChar(hi)][..0] == [];
    assert DigitsValue([DigitChar(hi)]) == hi;
    assert DigitsValue(s) == DigitsValue(s[..1]) * 10 + DigitValue(s[1]);
  }

  lemma SplitHundredths(a: nat)
    ensures (a / 100) * 100 + (a % 100 / 10) * 10 + a % 100 % 10 == a
  {
    var r := a % 100;
    assert a == (a / 100) * 100 + r;
    assert r == (r / 10) * 10 + r % 10;
  }

  lemma {:induction false} UnsignedRoundTrip(a: nat)
    ensures ParseUnsigned(Unsigned2(a)) == Some(a)
  {
    var whole := NatToString(a / 100);
    var frac := [DigitChar(a % 100 / 10), DigitChar(a % 100 % 10)];
    var u := Unsigned2(a);
    assert u == whole + "." + frac;
    assert u[..|u| - 3] == whole;
    assert u[|u| - 2..] == frac;
    NatToStringRoundTrip(a / 100);
    TwoDigitsValue(a % 100 / 10, a % 100 % 10);
    SplitHundredths(a);
  }

  /** `.2f` loses nothing: the rendered text reads back as the same value. */
  lemma Fmt2RoundTrip(hundredths: int)
    ensures ParseFixed2(Fmt2(hundredths)) == Some(hundredths)
  {
    if hundredths < 0 {
      assert Fmt2(hundredths) == "-" + Unsigned2(-hundredths);
      NegativeRoundTrip(-hundredths);
    } else {
      assert Fmt2(hundredths) == Unsigned2(hundredths);
      UnsignedRoundTrip(hundredths);
    }
  }

  lemma NegativeRoundTrip(a: nat)
    requires a > 0
    ensures ParseFixed2("-" + Unsigned2(a)) == Some(-(a as int))
  {
    var u := Unsigned2(a);
    UnsignedRoundTrip(a);
    assert ("-" + u)[1..] == u;
  }

  /** Different values never render alike. */
  lemma Fmt2Injective(x: int, y: int)
    requires Fmt2(x) == Fmt2(y)
    ensures x == y
  {
    Fmt2RoundTrip(x);
    Fmt2RoundTrip(y);
  }

  /** A value that fits `Numeric(3, 2)` renders in at most five characters,
      so the GPA column of width 5 is never overrun. */
  lemma Fmt2Width(hundredths: int)
    requires -999 <= hundredths <= 999
    ensures |Fmt2(hundredths)| == if hundredths < 0 then 5 else 4
  {
  }
}
