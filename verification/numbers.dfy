/** `String#to_i` (base 10) and `Integer#to_s`, the two conversions behind the
    "Figure N" labels of the LaTeX and chart tags. */
module Numbers {

  predicate IsDigit(c: char) {
    '0' <= c <= '9'
  }

  predicate AllDigits(s: string) {
    forall i :: 0 <= i < |s| ==> IsDigit(s[i])
  }

  function DigitValue(c: char): nat
    requires IsDigit(c)
  {
    (c as int) - ('0' as int)
  }

  function DigitChar(d: nat): (c: char)
    requires d < 10
    ensures IsDigit(c) && DigitValue(c) == d
  {
    (('0' as int) + d) as char
  }

  /** Value of a decimal digit string, most significant digit first. */
  function DecimalValue(s: string): nat
    requires AllDigits(s)
    decreases |s|
  {
    if |s| == 0 then 0 else DecimalValue(s[..|s| - 1]) * 10 + DigitValue(s[|s| - 1])
  }

  /** The whitespace `to_i` skips before the number: space, tab, line feed, vertical
      tab, form feed, carriage return (unlike `strip`, not NUL). */
  predicate IsIntSpace(c: char) {
    c == ' ' || ('\t' <= c <= '\r')
  }

  function SkipIntSpace(s: string): (r: string)
    ensures |r| <= |s| && r == s[|s| - |r|..]
    ensures |r| == 0 || !IsIntSpace(r[0])
    decreases |s|
  {
    if |s| > 0 && IsIntSpace(s[0]) then SkipIntSpace(s[1..]) else s
  }

  /** The digits read after the first one: further digits, each of which may be
      preceded by a single underscore; reading stops at anything else. */
  function MoreDigits(t: string): (r: string)
    ensures AllDigits(r)
    ensures |r| <= |t|
    decreases |t|
  {
    if |t| > 0 && IsDigit(t[0]) then [t[0]] + MoreDigits(t[1..])
    else if |t| > 1 && t[0] == '_' && IsDigit(t[1]) then [t[1]] + MoreDigits(t[2..])
    else []
  }

  /** The digit run `to_i` reads at the start of `s`, underscores dropped; empty when
      `s` does not begin with a digit. */
  function LeadingDigits(s: string): (r: string)
    ensures AllDigits(r)
  {
    if |s| > 0 && IsDigit(s[0]) then [s[0]] + MoreDigits(s[1..]) else []
  }

  /** `u` without a leading `0d`/`0D` radix prefix. */
  function DropRadixPrefix(u: string): (r: string)
    ensures |r| <= |u| && r == u[|u| - |r|..]
  {
    if |u| >= 2 && u[0] == '0' && (u[1] == 'd' || u[1] == 'D') then u[2..] else u
  }

  /** The unsigned number `to_i` reads after the sign. */
  function Magnitude(u: string): nat
  {
    DecimalValue(LeadingDigits(DropRadixPrefix(u)))
  }

  /** `String#to_i`: skip whitespace, read an optional sign and an optional `0d`
      radix prefix, then the leading digit run; 0 when there is none. */
  function ToI(s: string): int
  {
    var t := SkipIntSpace(s);
    if |t| > 0 && t[0] == '-' then -(Magnitude(t[1..]) as int)
    else if |t| > 0 && t[0] == '+' then Magnitude(t[1..])
    else Magnitude(t)
  }

  /** `Integer#to_s` of a non-negative number: its decimal digits, no leading zero. */
  function NatToS(n: nat): (r: string)
    ensures |r| >= 1 && AllDigits(r)
    ensures DecimalValue(r) == n
    ensures r[0] == '0' ==> n == 0 && |r| == 1
    decreases n
  {
    if n < 10 then [DigitChar(n)]
    else
      var r := NatToS(n / 10) + [DigitChar(n % 10)];
      assert r[..|r| - 1] == NatToS(n / 10);
      r
  }

  /** `Integer#to_s`. */
  function ToS(n: int): string
  {
    if n < 0 then "-" + NatToS(-n) else NatToS(n)
  }

  /** The "Figure N" label both figure tags put in `alt`: `"Figure #{figno.to_i}"`. */
  function FigureLabel(figno: string): string
  {
    "Figure " + ToS(ToI(figno))
  }

  lemma {:induction false} MoreDigitsOfDigits(t: string)
    requires AllDigits(t)
    ensures MoreDigits(t) == t
    decreases |t|
  {
    if |t| > 0 {
      MoreDigitsOfDigits(t[1..]);
      assert [t[0]] + t[1..] == t;
    }
  }

  /** Nothing is skipped before a character that is not whitespace. */
  lemma SkipIntSpaceOfNonSpace(s: string)
    requires |s| > 0 && !IsIntSpace(s[0])
    ensures SkipIntSpace(s) == s
  {
  }

  /** A string that starts with a digit is read from its first character on. */
  lemma ToIOfDigitLed(s: string)
    requires |s| > 0 && IsDigit(s[0])
    ensures ToI(s) == Magnitude(s)
  {
    SkipIntSpaceOfNonSpace(s);
    assert s[0] != '-' && s[0] != '+';
  }

  /** A string that starts with '-' is read as the negated magnitude of the rest. */
  lemma ToIOfMinus(s: string)
    requires |s| > 0 && s[0] == '-'
    ensures ToI(s) == -(Magnitude(s[1..]) as int)
  {
    SkipIntSpaceOfNonSpace(s);
  }

  /** The leading digit run of a digit string is the whole string. */
  lemma LeadingDigitsOfDigits(d: string)
    requires |d| >= 1 && AllDigits(d)
    ensures LeadingDigits(d) == d
  {
    MoreDigitsOfDigits(d[1..]);
    assert [d[0]] + d[1..] == d;
  }

  /** A digit string that does not start "0d" is read back whole. */
  lemma MagnitudeOfDigits(d: string)
    requires |d| >= 1 && AllDigits(d)
    ensures Magnitude(d) == DecimalValue(d)
  {
    assert DropRadixPrefix(d) == d by {
      assert |d| >= 2 ==> IsDigit(d[1]);
    }
    LeadingDigitsOfDigits(d);
  }

  /** `to_i` reads back every number `to_s` prints. */
  lemma ToIOfToS(n: int)
    ensures ToI(ToS(n)) == n
  {
    var m: nat := if n < 0 then -n else n;
    var d := NatToS(m);
    MagnitudeOfDigits(d);
    if n < 0 {
      var s := ToS(n);
      assert s[1..] == d;
      ToIOfMinus(s);
    } else {
      ToIOfDigitLed(d);
    }
  }

  /** Two digits read as a decimal number. */
  lemma DecimalValueOfTwo(a: char, b: char)
    requires IsDigit(a) && IsDigit(b)
    ensures DecimalValue([a, b]) == 10 * DigitValue(a) + DigitValue(b)
  {
    var s := [a, b];
    assert s[..1] == [a];
    assert [a][..0] == [];
    assert DecimalValue([a]) == DigitValue(a);
    assert DecimalValue(s) == DecimalValue(s[..1]) * 10 + DigitValue(s[1]);
  }

  /** `to_i` of a two-digit figure number is its value, leading zero ignored. */
  lemma ToIOfTwoDigits(a: char, b: char)
    requires IsDigit(a) && IsDigit(b)
    ensures ToI([a, b]) == 10 * DigitValue(a) + DigitValue(b)
  {
    ToIOfDigitLed([a, b]);
    MagnitudeOfDigits([a, b]);
    DecimalValueOfTwo(a, b);
  }

  /** A two-digit figure number is labelled with its value, leading zero dropped. */
  lemma FigureLabelOfTwoDigits(figno: string)
    requires |figno| == 2 && AllDigits(figno)
    ensures FigureLabel(figno) == "Figure " + NatToS(10 * DigitValue(figno[0]) + DigitValue(figno[1]))
  {
    assert figno == [figno[0], figno[1]];
    ToIOfTwoDigits(figno[0], figno[1]);
  }

  /** A figure number "0d" is labelled with the digit d alone. */
  lemma FigureLabelOfLeadingZero(figno: string)
    requires |figno| == 2 && figno[0] == '0' && IsDigit(figno[1])
    ensures FigureLabel(figno) == "Figure " + [figno[1]]
  {
    FigureLabelOfTwoDigits(figno);
    var d := DigitValue(figno[1]);
    assert 10 * DigitValue(figno[0]) + d == d;
    assert NatToS(d) == [DigitChar(d)];
    assert DigitChar(d) == figno[1];
  }
}
