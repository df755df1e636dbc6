/** Text forms of calendar days.

    The busy-day map is keyed by the RFC 3339 `full-date` form `YYYY-MM-DD`
    (section 5.6 of RFC 3339: a four-digit year, a two-digit month and a
    two-digit day, each zero-padded), which is what the date part of an ISO
    timestamp looks like. The month bounds of the calendar query are built
    with JavaScript's integer-to-text conversion and `padStart(2, '0')`,
    modelled here by `Decimal` and `PadStart`. */
module DateText {
  import opened Dates
  import opened Wrappers

  predicate IsDigit(c: char) {
    '0' <= c <= '9'
  }

  predicate AllDigits(s: string) {
    forall i :: 0 <= i < |s| ==> IsDigit(s[i])
  }

  function DigitChar(v: int): (c: char)
    requires 0 <= v <= 9
    ensures IsDigit(c)
  {
    (48 + v) as char
  }

  function DigitValue(c: char): (v: int)
    requires IsDigit(c)
    ensures 0 <= v <= 9 && DigitChar(v) == c
  {
    c as int - 48
  }

  function Pow10(k: nat): (p: nat)
    ensures p >= 1
  {
    if k == 0 then 1 else 10 * Pow10(k - 1)
  }

  /** The `k` least significant decimal digits of `v`, zero-padded on the left. */
  function FixedDigits(v: nat, k: nat): (s: string)
    ensures |s| == k && AllDigits(s)
  {
    if k == 0 then "" else FixedDigits(v / 10, k - 1) + [DigitChar(v % 10)]
  }

  /** The number a string of decimal digits denotes. */
  function DigitsValue(s: string): (v: nat)
    requires AllDigits(s)
    ensures v < Pow10(|s|)
  {
    if s == [] then 0 else 10 * DigitsValue(s[..|s| - 1]) + DigitValue(s[|s| - 1])
  }

  /** Reading back fixed-width digits gives the number, when it fits. */
  lemma {:induction false} ValueOfFixedDigits(v: nat, k: nat)
    requires v < Pow10(k)
    ensures DigitsValue(FixedDigits(v, k)) == v
  {
    if k > 0 {
      var s := FixedDigits(v, k);
      assert s[..k - 1] == FixedDigits(v / 10, k - 1);
      ValueOfFixedDigits(v / 10, k - 1);
    }
  }

  /** Writing a digit string's value back at the same width gives the string. */
  lemma {:induction false} FixedDigitsOfValue(s: string)
    requires AllDigits(s)
    ensures FixedDigits(DigitsValue(s), |s|) == s
  {
    if s != [] {
      var init := s[..|s| - 1];
      var v := DigitsValue(s);
      assert v / 10 == DigitsValue(init) && v % 10 == DigitValue(s[|s| - 1]);
      FixedDigitsOfValue(init);
      assert s == init + [s[|s| - 1]];
    }
  }

  /** JavaScript's decimal text of a non-negative integer (no leading zeros). */
  function Decimal(n: nat): (s: string)
    ensures 1 <= |s| && AllDigits(s)
    ensures DigitsValue(s) == n
    ensures s[0] == '0' ==> s == "0"
  {
    if n < 10 then [DigitChar(n)]
    else
      var s := Decimal(n / 10) + [DigitChar(n % 10)];
      assert s[..|s| - 1] == Decimal(n / 10);
      s
  }

  /** JavaScript's text of an integer in a template literal: an optional minus sign,
      then the digits of the magnitude with no leading zero. */
  function IntText(n: int): (s: string)
    ensures n >= 0 ==> |s| >= 1 && AllDigits(s) && DigitsValue(s) == n && (s[0] == '0' ==> s == "0")
    ensures n < 0 ==> |s| >= 2 && s[0] == '-' && AllDigits(s[1..]) && DigitsValue(s[1..]) == -n && s[1] != '0'
  {
    if n < 0 then
      assert ("-" + Decimal(-n))[1..] == Decimal(-n);
      "-" + Decimal(-n)
    else Decimal(n)
  }

  /** `s.padStart(width, '0')`: left-pad with zeros up to `width` characters. */
  function PadStart(s: string, width: nat): (r: string)
    ensures |r| == if |s| < width then width else |s|
    ensures r[|r| - |s|..] == s
    ensures forall i :: 0 <= i < |r| - |s| ==> r[i] == '0'
  {
    if |s| < width then seq(width - |s|, _ => '0') + s else s
  }

  /** A number with exactly `k` digits is written by `Decimal` as its `k` fixed digits. */
  lemma {:induction false} DecimalIsFixed(n: nat, k: nat)
    requires 1 <= k && Pow10(k - 1) <= n < Pow10(k)
    ensures Decimal(n) == FixedDigits(n, k)
  {
    if k == 1 {
      assert n < 10;
      assert FixedDigits(n, 1) == FixedDigits(n / 10, 0) + [DigitChar(n % 10)];
    } else {
      assert Pow10(k - 1) == 10 * Pow10(k - 2);
      assert n >= 10;
      DecimalIsFixed(n / 10, k - 1);
    }
  }

  /** The two-digit month or day text `padStart` produces for 1..99. */
  lemma PadStartTwoDigits(n: nat)
    requires 1 <= n <= 99
    ensures PadStart(Decimal(n), 2) == FixedDigits(n, 2)
  {
    if n < 10 {
      assert FixedDigits(n, 2) == FixedDigits(0, 1) + [DigitChar(n)];
      assert FixedDigits(0, 1) == ['0'];
    } else {
      DecimalIsFixed(n, 2);
    }
  }

  /** Years RFC 3339 can write: four digits. */
  predicate FourDigitYear(d: Date) {
    0 <= d.year <= 9999
  }

  /** The RFC 3339 `full-date` text `YYYY-MM-DD` of a day. */
  function FullDate(d: Date): (s: string)
    requires ValidDate(d) && FourDigitYear(d)
    ensures |s| == 10 && s[4] == '-' && s[7] == '-'
  {
    FixedDigits(d.year, 4) + "-" + FixedDigits(d.month, 2) + "-" + FixedDigits(d.day, 2)
  }

  /** Parse `YYYY-MM-DD`; anything else, or a day that does not exist, is `None`. */
  function ParseFullDate(s: string): (r: Option<Date>)
    ensures r.Some? ==> ValidDate(r.value) && FourDigitYear(r.value)
  {
    if |s| == 10 && s[4] == '-' && s[7] == '-'
       && AllDigits(s[..4]) && AllDigits(s[5..7]) && AllDigits(s[8..])
    then
      var d := Date(DigitsValue(s[..4]), DigitsValue(s[5..7]), DigitsValue(s[8..]));
      if ValidDate(d) then Some(d) else None
    else None
  }

  /** Parsing the text of a day gives the day back. */
  lemma FullDateParses(d: Date)
    requires ValidDate(d) && FourDigitYear(d)
    ensures ParseFullDate(FullDate(d)) == Some(d)
  {
    var s := FullDate(d);
    assert s[..4] == FixedDigits(d.year, 4);
    assert s[5..7] == FixedDigits(d.month, 2);
    assert s[8..] == FixedDigits(d.day, 2);
    assert Pow10(4) == 10000 && Pow10(2) == 100;
    ValueOfFixedDigits(d.year, 4);
    ValueOfFixedDigits(d.month, 2);
    ValueOfFixedDigits(d.day, 2);
  }

  /** Every text that parses is the canonical text of the day it denotes. */
  lemma ParsedTextIsCanonical(s: string)
    requires ParseFullDate(s).Some?
    ensures FullDate(ParseFullDate(s).value) == s
  {
    FixedDigitsOfValue(s[..4]);
    FixedDigitsOfValue(s[5..7]);
    FixedDigitsOfValue(s[8..]);
    assert s == s[..4] + "-" + s[5..7] + "-" + s[8..];
  }

  /** Distinct days have distinct texts, so the text is a faithful map key. */
  lemma FullDateInjective(a: Date, b: Date)
    requires ValidDate(a) && FourDigitYear(a) && ValidDate(b) && FourDigitYear(b)
    ensures FullDate(a) == FullDate(b) <==> a == b
  {
    FullDateParses(a);
    FullDateParses(b);
  }
}
