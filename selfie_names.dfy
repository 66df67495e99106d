/** File names of the saved photos: `selfie_{n}.png`, where `{n}` is the
    image counter written in plain decimal (no padding, no sign). */
module SelfieNames {

  /** The character for a decimal digit. */
  function DigitChar(d: nat): (c: char)
    requires d < 10
    ensures '0' <= c <= '9'
  {
    ('0' as int + d) as char
  }

  /** The value of a decimal digit character. */
  function DigitValue(c: char): (d: nat)
    requires '0' <= c <= '9'
    ensures d < 10
  {
    c as int - '0' as int
  }

  predicate IsDigits(s: string) {
    forall i :: 0 <= i < |s| ==> '0' <= s[i] <= '9'
  }

  /** Reads a string of decimal digits, most significant digit first.
      This is the reference that `DecimalRoundTrip` proves `Decimal` against. */
  function ParseDecimal(s: string): nat
    requires IsDigits(s)
  {
    if s == [] then 0 else ParseDecimal(s[..|s| - 1]) * 10 + DigitValue(s[|s| - 1])
  }

  /** The decimal text of `n`, as Python's `f'{n}'` writes a non-negative
      int: at least one digit and no leading zero. */
  function Decimal(n: nat): (r: string)
    ensures |r| >= 1 && IsDigits(r)
    ensures r[0] == '0' ==> r == "0"
    decreases n
  {
    if n < 10 then [DigitChar(n)] else Decimal(n / 10) + [DigitChar(n % 10)]
  }

  /** The decimal text reads back as the number it was made from. */
  lemma {:induction false} DecimalRoundTrip(n: nat)
    ensures ParseDecimal(Decimal(n)) == n
    decreases n
  {
    if n >= 10 {
      var prefix := Decimal(n / 10);
      var r := Decimal(n);
      assert r == prefix + [DigitChar(n % 10)];
      assert r[..|r| - 1] == prefix;
      DecimalRoundTrip(n / 10);
    }
  }

  /** Distinct counters have distinct decimal texts. */
  lemma DecimalInjective(a: nat, b: nat)
    requires Decimal(a) == Decimal(b)
    ensures a == b
  {
    DecimalRoundTrip(a);
    DecimalRoundTrip(b);
  }

  /** `selfie_{n}.png` (auto_selfie.py line 72). */
  function SelfieName(n: nat): (name: string)
    ensures |name| > 11
    ensures name[..7] == "selfie_" && name[|name| - 4..] == ".png"
    ensures name[7..|name| - 4] == Decimal(n)
  {
    "selfie_" + Decimal(n) + ".png"
  }

  /** No file name is ever reused for a different counter value. */
  lemma SelfieNameInjective(a: nat, b: nat)
    requires SelfieName(a) == SelfieName(b)
    ensures a == b
  {
    DecimalInjective(a, b);
  }
}
