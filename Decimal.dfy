/** Decimal text of integers: what `sprintf`'s `%d` conversion produces in
    `main.c`, for the padding width and for the stack index. */
module DecimalText {
  import opened Bytes

  predicate IsDigit(c: char)
  {
    '0' <= c <= '9'
  }

  function DigitChar(d: nat): (c: char)
    requires d < 10
    ensures IsDigit(c)
  {
    (48 + d) as char
  }

  function DigitValue(c: char): nat
    requires IsDigit(c)
  {
    c as int - 48
  }

  /** The shortest decimal rendering of n: digits only, no leading zero. */
  function Decimal(n: nat): (s: string)
    ensures 1 <= |s|
    ensures forall i :: 0 <= i < |s| ==> IsDigit(s[i])
  {
    if n < 10 then [DigitChar(n)] else Decimal(n / 10) + [DigitChar(n % 10)]
  }

  /** The number a string of digits denotes. */
  function DecimalValue(s: string): nat
    requires forall i :: 0 <= i < |s| ==> IsDigit(s[i])
  {
    if s == [] then 0 else 10 * DecimalValue(s[..|s| - 1]) + DigitValue(s[|s| - 1])
  }

  /** Reading the rendering back gives the number. */
  lemma {:induction false} DecimalRoundTrip(n: nat)
    ensures DecimalValue(Decimal(n)) == n
  {
    if n >= 10 {
      var s := Decimal(n);
      assert s[..|s| - 1] == Decimal(n / 10);
      DecimalRoundTrip(n / 10);
    }
  }

  /** The rendering has no leading zero: it is "0" only for zero. */
  lemma {:induction false} DecimalCanonical(n: nat)
    ensures Decimal(n)[0] == '0' <==> n == 0
  {
    if n >= 10 {
      DecimalCanonical(n / 10);
    }
  }

  function Pow10(k: nat): (p: nat)
    ensures p >= 1
  {
    if k == 0 then 1 else 10 * Pow10(k - 1)
  }

  /** A number below 10^k takes at most k digits. */
  lemma {:induction false} DecimalLength(n: nat, k: nat)
    requires 1 <= k && n < Pow10(k)
    ensures |Decimal(n)| <= k
  {
    if n >= 10 {
      DecimalLength(n / 10, k - 1);
    }
  }

  const INT32_MIN_MAGNITUDE: nat := 0x8000_0000

  /** `int` reading of a 32-bit pattern: how `%d` sees an `unsigned int`. */
  function Signed32(v: u32): int
  {
    if v < INT32_MIN_MAGNITUDE then v else v - UINT32_RANGE
  }

  /** `%d` applied to the 32-bit pattern v. */
  function FormatInt32(v: u32): (s: string)
    ensures 1 <= |s| <= 11
    ensures forall i :: 0 <= i < |s| ==> s[i] == '-' || IsDigit(s[i])
  {
    if v < INT32_MIN_MAGNITUDE then
      DecimalLength(v, 10);
      Decimal(v)
    else
      DecimalLength(UINT32_RANGE - v, 10);
      "-" + Decimal(UINT32_RANGE - v)
  }

  /** Reading back decimal text with an optional leading minus sign. */
  function SignedValue(s: string): int
  {
    if |s| > 0 && s[0] == '-' && (forall i :: 1 <= i < |s| ==> IsDigit(s[i])) then
      -(DecimalValue(s[1..]) as int)
    else if forall i :: 0 <= i < |s| ==> IsDigit(s[i]) then
      DecimalValue(s)
    else
      0
  }

  /** The text `%d` produces denotes the signed value of the pattern. */
  lemma FormatInt32RoundTrip(v: u32)
    ensures SignedValue(FormatInt32(v)) == Signed32(v)
  {
    var s := FormatInt32(v);
    if v < INT32_MIN_MAGNITUDE {
      DecimalRoundTrip(v);
      assert s[0] != '-';
    } else {
      DecimalRoundTrip(UINT32_RANGE - v);
      assert s[1..] == Decimal(UINT32_RANGE - v);
    }
  }
}
