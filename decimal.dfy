/** Decimal numerals in ASCII bytes: what `format!("{length}")` writes for a `usize`,
    and the `1*DIGIT` value of a `Content-Length` field (section 8.6 of RFC 9110). */
module Decimal {
  import opened Wrappers
  import opened Utf8

  const ZERO: byte := 0x30

  predicate IsDigit(b: byte) {
    ZERO <= b <= ZERO + 9
  }

  predicate AllDigits(s: seq<byte>) {
    forall i :: 0 <= i < |s| ==> IsDigit(s[i])
  }

  /** Digits as Rust prints an unsigned integer: at least one, no leading zero. */
  predicate Canonical(s: seq<byte>) {
    |s| > 0 && AllDigits(s) && (s[0] == ZERO ==> |s| == 1)
  }

  function DigitByte(d: nat): (b: byte)
    requires d < 10
    ensures IsDigit(b) && (b - ZERO) as int == d
  {
    ZERO + d as byte
  }

  /** The decimal numeral of `n`, most significant digit first. */
  function DecimalDigits(n: nat): (r: seq<byte>)
    ensures Canonical(r)
    ensures r[|r| - 1] == DigitByte(n % 10)
  {
    if n < 10 then [DigitByte(n)] else DecimalDigits(n / 10) + [DigitByte(n % 10)]
  }

  /** The number a string of digits denotes (leading zeros allowed). */
  function DigitsValue(s: seq<byte>): nat
    requires AllDigits(s)
  {
    if s == [] then 0 else DigitsValue(s[..|s| - 1]) * 10 + (s[|s| - 1] - ZERO) as int
  }

  /** Reads a field value of one or more digits; None for anything else. */
  function ParseDecimal(s: seq<byte>): (r: Option<nat>)
    ensures r.Some? <==> |s| > 0 && AllDigits(s)
  {
    if |s| > 0 && AllDigits(s) then Some(DigitsValue(s)) else None
  }

  /** Round trip: reading back the printed numeral gives the number. */
  lemma {:induction false} ParseDecimalDigits(n: nat)
    ensures ParseDecimal(DecimalDigits(n)) == Some(n)
  {
    if n >= 10 {
      var r := DecimalDigits(n);
      assert r[..|r| - 1] == DecimalDigits(n / 10);
      ParseDecimalDigits(n / 10);
      assert DigitsValue(r) == n / 10 * 10 + n % 10;
    }
  }

  lemma {:induction false} LeadingDigitPositive(s: seq<byte>)
    requires AllDigits(s) && |s| > 0 && s[0] != ZERO
    ensures DigitsValue(s) > 0
    decreases |s|
  {
    if |s| > 1 {
      LeadingDigitPositive(s[..|s| - 1]);
    }
  }

  /** The other direction: a canonical numeral is the one printed for its value,
      so the printer and the reader are inverse on canonical numerals. */
  lemma {:induction false} DecimalDigitsOfParse(s: seq<byte>)
    requires Canonical(s)
    ensures DecimalDigits(DigitsValue(s)) == s
    decreases |s|
  {
    if |s| > 1 {
      var p := s[..|s| - 1];
      var d := (s[|s| - 1] - ZERO) as int;
      LeadingDigitPositive(p);
      DecimalDigitsOfParse(p);
      var v := DigitsValue(s);
      assert v == DigitsValue(p) * 10 + d;
      assert v / 10 == DigitsValue(p) && v % 10 == d;
      assert s == p + [s[|s| - 1]];
    }
  }
}
