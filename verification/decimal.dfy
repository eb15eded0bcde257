/**
 Zero-padded decimal rendering of naturals, as Rust's `{:0N}` format and
 chrono's two-digit writer produce it, and the reading that undoes it.
 */
module Decimal {

  predicate IsDigit(c: char) {
    '0' <= c <= '9'
  }

  predicate AllDigits(s: string) {
    forall i :: 0 <= i < |s| ==> IsDigit(s[i])
  }

  function Pow10(k: nat): (p: nat)
    ensures p >= 1
  {
    if k == 0 then 1 else 10 * Pow10(k - 1)
  }

  function DigitChar(d: int): (c: char)
    requires 0 <= d < 10
    ensures IsDigit(c) && c as int - '0' as int == d
  {
    (48 + d) as char
  }

  function DigitValue(c: char): int {
    c as int - '0' as int
  }

  /** The value a string of decimal digits denotes, most significant first. */
  function DecimalValue(s: string): int
  {
    if s == [] then 0
    else 10 * DecimalValue(s[..|s| - 1]) + DigitValue(s[|s| - 1])
  }

  /** `n` in decimal, left-padded with zeros to at least `width` digits. */
  function PadDecimal(n: nat, width: nat): (s: string)
    ensures AllDigits(s)
    ensures |s| >= 1 && |s| >= width
    decreases n, width
  {
    var prefix := if n < 10 && width <= 1 then "" else PadDecimal(n / 10, if width > 0 then width - 1 else 0);
    prefix + [DigitChar(n % 10)]
  }

  /** Reading the rendered digits back gives the number rendered. */
  lemma {:induction false} DecimalValueOfPad(n: nat, width: nat)
    ensures DecimalValue(PadDecimal(n, width)) == n
    decreases n, width
  {
    var s := PadDecimal(n, width);
    if n < 10 && width <= 1 {
      assert s == [DigitChar(n)];
      assert s[..|s| - 1] == [];
    } else {
      var w' := if width > 0 then width - 1 else 0;
      var prefix := PadDecimal(n / 10, w');
      assert s == prefix + [DigitChar(n % 10)];
      assert s[..|s| - 1] == prefix;
      DecimalValueOfPad(n / 10, w');
    }
  }

  /** A number below 10^width renders in exactly `width` digits. */
  lemma {:induction false} PadDecimalLength(n: nat, width: nat)
    requires width >= 1 && n < Pow10(width)
    ensures |PadDecimal(n, width)| == width
    decreases width
  {
    if n < 10 && width <= 1 {
    } else {
      assert width >= 2;
      PadDecimalLength(n / 10, width - 1);
    }
  }

  /** Padding to a width the number already exceeds changes nothing. */
  lemma {:induction false} PadDecimalWiden(n: nat, width: nat)
    requires n >= Pow10(width)
    ensures PadDecimal(n, width) == PadDecimal(n, width + 1)
    decreases width
  {
    if width > 0 {
      assert n >= 10;
      PadDecimalWiden(n / 10, width - 1);
    }
  }

  /** Exactly two digits, as chrono's `write_hundreds` writes them. */
  function TwoDigits(n: nat): (s: string)
    requires n < 100
    ensures |s| == 2 && AllDigits(s)
  {
    [DigitChar(n / 10), DigitChar(n % 10)]
  }

  /** Exactly four digits, the high and low hundreds. */
  function FourDigits(n: nat): (s: string)
    requires n < 10000
    ensures |s| == 4 && AllDigits(s)
  {
    TwoDigits(n / 100) + TwoDigits(n % 100)
  }

  /** Two digits read back as the number written. */
  lemma TwoDigitsRoundTrip(n: nat)
    requires n < 100
    ensures 10 * DigitValue(TwoDigits(n)[0]) + DigitValue(TwoDigits(n)[1]) == n
  {
  }
}
