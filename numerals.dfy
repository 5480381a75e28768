/**
 * Decimal notation of a non-negative integer, as Rust's `{}` formatting of a
 * `usize` writes it (no sign, no leading zeros), and the digit-string reading
 * that a client applies to a Content-Length value (1*DIGIT, section 8.6 of RFC 9110).
 */
module Numerals {
  import opened Wrappers
  import opened Bytes

  function DigitByte(d: nat): (b: byte)
    requires d < 10
    ensures IsDigit(b)
  {
    48 + d
  }

  function DigitValue(b: byte): (d: nat)
    requires IsDigit(b)
    ensures d < 10 && DigitByte(d) == b
  {
    b - 48
  }

  /** The canonical decimal spelling of `n`: only digits, and no leading zero unless `n` is 0. */
  function Decimal(n: nat): (r: seq<byte>)
    ensures |r| > 0 && AllDigits(r)
    ensures r[0] == DigitByte(0) <==> n == 0
    ensures n == 0 ==> r == [DigitByte(0)]
    decreases n
  {
    if n < 10 then [DigitByte(n)] else Decimal(n / 10) + [DigitByte(n % 10)]
  }

  /** Value of a digit string, most significant digit first. */
  function Value(s: seq<byte>): nat
    requires AllDigits(s)
  {
    if s == [] then 0 else Value(s[..|s| - 1]) * 10 + DigitValue(s[|s| - 1])
  }

  /** Reads a non-empty digit string; anything else is refused. */
  function ParseDecimal(s: seq<byte>): (r: Option<nat>)
    ensures r.Some? <==> |s| > 0 && AllDigits(s)
  {
    if |s| > 0 && AllDigits(s) then Some(Value(s)) else None
  }

  predicate Canonical(s: seq<byte>) {
    |s| > 0 && AllDigits(s) && (|s| == 1 || s[0] != DigitByte(0))
  }

  /** Reading back what Decimal wrote gives the number. */
  lemma {:induction false} ParseDecimalOfDecimal(n: nat)
    ensures ParseDecimal(Decimal(n)) == Some(n)
    decreases n
  {
    var d := Decimal(n);
    if n < 10 {
      assert d[..|d| - 1] == [];
      assert Value(d) == Value([]) * 10 + DigitValue(d[0]);
    } else {
      ParseDecimalOfDecimal(n / 10);
      assert d[..|d| - 1] == Decimal(n / 10);
    }
  }

  lemma {:induction false} ValuePositive(s: seq<byte>)
    requires |s| > 0 && AllDigits(s) && s[0] != DigitByte(0)
    ensures Value(s) > 0
    decreases |s|
  {
    if |s| > 1 {
      ValuePositive(s[..|s| - 1]);
    }
  }

  /** Conversely, every canonical digit string is the spelling of its value. */
  lemma {:induction false} DecimalOfValue(s: seq<byte>)
    requires Canonical(s)
    ensures Decimal(Value(s)) == s
    decreases |s|
  {
    if |s| > 1 {
      var p := s[..|s| - 1];
      ValuePositive(p);
      DecimalOfValue(p);
      assert s == p + [s[|s| - 1]];
    }
  }

  /** A three-digit number is spelled with exactly three digits. */
  lemma ThreeDigits(n: nat)
    requires 100 <= n < 1000
    ensures |Decimal(n)| == 3
  {
    assert Decimal(n) == Decimal(n / 10) + [DigitByte(n % 10)];
    assert Decimal(n / 10) == Decimal(n / 100) + [DigitByte(n / 10 % 10)];
  }
}
