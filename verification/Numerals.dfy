/**
 The number formatting of `printf` in c/common.c: the `%d` and `%x` loops.
 */
module Numerals {

  const INT_MAX: int := 0x7FFF_FFFF
  const INT_MIN: int := -0x8000_0000
  const TWO_32: int := 0x1_0000_0000

  /** C's `int`: Dafny checks that no operation on it leaves this range. */
  newtype Int32 = x: int | -0x8000_0000 <= x <= 0x7FFF_FFFF

  // ------------------------------------------------------------------ reading

  predicate IsDigit(c: char)
  {
    '0' <= c <= '9'
  }

  function DigitValue(c: char): int
  {
    c as int - '0' as int
  }

  function DigitChar(d: nat): char
    requires d < 10
  {
    ('0' as int + d) as char
  }

  predicate Digits(s: string)
  {
    forall i :: 0 <= i < |s| ==> IsDigit(s[i])
  }

  /** The number a string of decimal digits denotes. */
  function Value(s: string): (v: int)
    requires Digits(s)
    ensures v >= 0
  {
    if s == "" then 0 else 10 * Value(s[..|s| - 1]) + DigitValue(s[|s| - 1])
  }

  /** Digits without a leading zero, or the single digit zero. */
  predicate Canonical(s: string)
  {
    s != "" && Digits(s) && (s[0] == '0' ==> |s| == 1)
  }

  /** The usual decimal numeral of n. */
  function Numeral(n: nat): string
  {
    if n < 10 then [DigitChar(n)] else Numeral(n / 10) + [DigitChar(n % 10)]
  }

  lemma {:induction false} NumeralReadsBack(n: nat)
    ensures Canonical(Numeral(n)) && Value(Numeral(n)) == n
  {
    if n < 10 {
      var s := Numeral(n);
      assert s[..0] == "";
      assert Value(s) == 10 * Value(s[..|s| - 1]) + DigitValue(s[|s| - 1]);
    } else {
      NumeralReadsBack(n / 10);
      var s := Numeral(n);
      assert s[..|s| - 1] == Numeral(n / 10);
      var front := Numeral(n / 10);
      if |front| == 1 { assert front[..0] == ""; }
    }
  }

  /** A canonical string is the numeral of its value: there is only one. */
  lemma {:induction false} CanonicalIsNumeral(s: string)
    requires Canonical(s)
    ensures s == Numeral(Value(s))
  {
    var n := |s| - 1;
    var front := s[..n];
    var d := DigitValue(s[n]);
    if n == 0 {
      assert Value(front) == 0;
      assert s == [s[0]];
    } else {
      PositiveValue(front);
      CanonicalIsNumeral(front);
      assert s == front + [s[n]];
      assert Value(s) / 10 == Value(front) && Value(s) % 10 == d;
    }
  }

  lemma {:induction false} PositiveValue(s: string)
    requires s != "" && Digits(s) && s[0] != '0'
    ensures Value(s) >= 1 && Canonical(s)
  {
    var n := |s| - 1;
    if n == 0 {
      assert s[..0] == "";
    } else {
      PositiveValue(s[..n]);
    }
  }

  /** What a signed decimal string denotes. */
  function Signed(s: string): int
    requires s != "" && (if s[0] == '-' then Digits(s[1..]) else Digits(s))
  {
    if s[0] == '-' then -Value(s[1..]) else Value(s)
  }

  // ----------------------------------------------------------------------- %d

  /** Negation of a 32-bit int; the least one is its own negative. */
  function Negate(v: int): int
  {
    if v == INT_MIN then INT_MIN else -v
  }

  /** C division and remainder, which truncate towards zero. */
  function Quot(a: int, b: int): int
    requires b > 0
  {
    if a >= 0 then a / b else -((-a) / b)
  }

  function Rem(a: int, b: int): int
    requires b > 0
  {
    a - Quot(a, b) * b
  }

  /** Truncation: the quotient is odd in the dividend, and the remainder is smaller than the divisor. */
  lemma QuotTruncates(a: int, b: int)
    requires b > 0
    ensures Quot(-a, b) == -Quot(a, b) && -b < Rem(a, b) < b
    ensures a >= 0 ==> 0 <= Rem(a, b)
  {
    if a < 0 { assert -a == (-a) / b * b + (-a) % b; } else { assert a == a / b * b + a % b; }
  }

  /** `putchar` keeps the low eight bits. */
  function AsChar(c: int): char
  {
    (c % 256) as char
  }

  /**
   The `%d` loop.  It prints the numeral of every int but the least, whose negation
   overflows and which comes out as "-0".
   */
  method PrintDecimal(v: int) returns (out: string)
    requires INT_MIN <= v <= INT_MAX
    ensures v != INT_MIN ==> out == (if v < 0 then "-" + Numeral(-v) else Numeral(v))
    ensures v == INT_MIN ==> out == "-0"
  {
    out := "";
    var value := v;
    if value < 0 {
      out := out + "-";
      value := Negate(value);
    }
    var digits := PrintDigits(value as Int32);
    out := out + digits;
  }

  function Pow10(k: nat): (p: nat)
    ensures p >= 1
  {
    if k == 0 then 1 else 10 * Pow10(k - 1)
  }

  /** The place value of the last digit printed. */
  function Scale(divisor: int): int
  {
    if divisor > 0 then 10 * divisor else 1
  }

  /** What the printing loop keeps true of a value that is not negative. */
  ghost predicate Printing(v: int, value: int, divisor: int, k: nat, out: string)
  {
    && Digits(out) && divisor >= 0
    && 0 <= value < Scale(divisor) && Value(out) * Scale(divisor) + value == v
    && (divisor > 0 ==> divisor == Pow10(k))
    && (out == "" ==> divisor > 0 && (divisor == 1 || divisor <= v))
    && (out != "" ==> if v == 0 then out == "0" && divisor == 0 else out[0] != '0')
  }

  /**
   The two loops, on 32-bit ints.  On a value that is not negative `divisor` stays at
   most the value (or 1), so it does not overflow; the least int passes through with one
   round.
   */
  method PrintDigits(v: Int32) returns (out: string)
    requires v as int == INT_MIN || v >= 0
    ensures out == if v < 0 then "0" else Numeral(v as int)
  {
    var value: Int32, divisor: Int32 := v, 1;
    ghost var k: nat := 0;
    while Quot(value as int, divisor as int) > 9
      invariant divisor as int == Pow10(k) && (divisor == 1 || divisor <= value)
      decreases value as int - divisor as int
    {
      Tenfold(value as int, divisor as int);
      divisor := divisor * 10;
      k := k + 1;
    }
    out := "";
    if v >= 0 { SmallQuotient(value as int, divisor as int); }
    while divisor > 0
      invariant v >= 0 ==> Printing(v as int, value as int, divisor as int, k, out)
      invariant v < 0 ==> if divisor > 0 then divisor == 1 && value == v && out == "" else divisor == 0 && out == "0"
      decreases divisor
    {
      if v >= 0 { PrintingStep(v as int, value as int, divisor as int, k, out); }
      out := out + [AsChar('0' as int + Quot(value as int, divisor as int))];
      value := Rem(value as int, divisor as int) as Int32;
      divisor := divisor / 10;
      k := if k > 0 then k - 1 else 0;
    }
    if v >= 0 {
      assert Value(out) * 1 == v as int;
      CanonicalIsNumeral(out);
    }
  }

  /** One round of the printing loop. */
  lemma PrintingStep(v: int, value: int, divisor: int, k: nat, out: string)
    requires v >= 0 && divisor > 0 && Printing(v, value, divisor, k, out)
    ensures Printing(v, Rem(value, divisor), divisor / 10, if k > 0 then k - 1 else 0,
                     out + [AsChar('0' as int + Quot(value, divisor))])
  {
    var q := Quot(value, divisor);
    OneDigit(Value(out), value, divisor, v);
    var more := out + [AsChar('0' as int + q)];
    assert more[..|out|] == out && DigitValue(more[|out|]) == q;
    assert Value(more) == 10 * Value(out) + q;
    assert out == "" ==> value == v;
    if k > 0 {
      assert divisor / 10 == Pow10(k - 1) && 10 * (divisor / 10) == divisor;
    } else {
      assert divisor == 1;
    }
    hide Quot, Rem, Value;
  }

  lemma Tenfold(value: int, divisor: int)
    requires 0 <= value && divisor >= 1 && Quot(value, divisor) > 9
    ensures divisor * 10 <= value
  {
    var q := value / divisor;
    assert value == q * divisor + value % divisor;
    assert (q - 10) * divisor >= 0;
  }

  lemma SmallQuotient(value: int, divisor: int)
    requires 0 <= value && divisor >= 1 && Quot(value, divisor) <= 9
    ensures value < 10 * divisor
  {
    var q := value / divisor;
    assert value == q * divisor + value % divisor;
    assert (9 - q) * divisor >= 0;
  }

  /** One round of the printing loop peels off one digit. */
  lemma OneDigit(done: int, value: int, divisor: int, v: int)
    requires done >= 0 && divisor >= 1 && 0 <= value < 10 * divisor
    requires done * (10 * divisor) + value == v
    ensures 0 <= Quot(value, divisor) <= 9
    ensures 0 <= Rem(value, divisor) < divisor
    ensures (10 * done + Quot(value, divisor)) * divisor + Rem(value, divisor) == v
    ensures value >= divisor ==> Quot(value, divisor) >= 1
  {
    var q := value / divisor;
    assert value == q * divisor + value % divisor;
    assert q >= 10 ==> (q - 10) * divisor >= 0;
    assert (10 * done + q) * divisor == done * (10 * divisor) + q * divisor;
  }

  /** `%d` denotes the value it was given exactly when that is not the least int. */
  method DecimalReadsBack(v: int) returns (out: string)
    requires INT_MIN <= v <= INT_MAX
    ensures out != "" && (if out[0] == '-' then Digits(out[1..]) else Digits(out))
    ensures Signed(out) == v <==> v != INT_MIN
  {
    out := PrintDecimal(v);
    NumeralReadsBack(if v < 0 then -v else v);
    if v == INT_MIN {
      assert out[1..] == "0";
      assert "0"[..0] == "";
    } else if v < 0 {
      assert out[1..] == Numeral(-v);
    }
  }

  // ----------------------------------------------------------------------- %x

  const HEX_DIGITS: string := "0123456789abcdef"

  /** The 32-bit two's-complement pattern of an int. */
  function Unsigned(v: int): int
  {
    if v < 0 then v + TWO_32 else v
  }

  function Pow16(k: nat): (p: nat)
    ensures p >= 1
  {
    if k == 0 then 1 else 16 * Pow16(k - 1)
  }

  predicate HexDigits(s: string)
  {
    forall i :: 0 <= i < |s| ==> s[i] in HEX_DIGITS
  }

  function HexDigitValue(c: char): int
  {
    if '0' <= c <= '9' then c as int - '0' as int else c as int - 'a' as int + 10
  }

  /** The number a string of hexadecimal digits denotes. */
  function HexValue(s: string): int
  {
    if s == "" then 0 else 16 * HexValue(s[..|s| - 1]) + HexDigitValue(s[|s| - 1])
  }

  /** `value >> (i * 4)`, an arithmetic shift: each four places divide by 16 and round down. */
  function ArithShift(v: int, i: nat): int
    decreases i
  {
    if i == 0 then v else ArithShift(v / 16, i - 1)
  }

  /** The `%x` loop: eight digits that denote the two's-complement pattern of any int. */
  method PrintHex(v: int) returns (out: string)
    requires INT_MIN <= v <= INT_MAX
    ensures |out| == 8 && HexDigits(out) && HexValue(out) == Unsigned(v)
  {
    out := "";
    ghost var u := Unsigned(v);
    assert Pow16(8) == TWO_32;
    ShiftedOut(u, 8);
    var i := 7;
    while i >= 0
      invariant -1 <= i <= 7 && |out| == 7 - i
      invariant HexDigits(out) && HexValue(out) == ArithShift(u, i + 1)
    {
      var nibble := ArithShift(v, i) % 16;
      if v < 0 { SameNibble(v, u, 8, i); }
      NextNibble(u, i);
      assert (out + [HEX_DIGITS[nibble]])[..|out|] == out;
      HexDigit(nibble);
      out := out + [HEX_DIGITS[nibble]];
      i := i - 1;
    }
  }

  lemma HexDigit(d: int)
    requires 0 <= d < 16
    ensures HexDigitValue(HEX_DIGITS[d]) == d && HEX_DIGITS[d] in HEX_DIGITS
  {
  }

  /** Shifting the signed value and shifting its bit pattern give the same nibble. */
  lemma {:induction false} SameNibble(v: int, u: int, j: nat, i: nat)
    requires u == v + Pow16(j) && i < j
    ensures ArithShift(v, i) % 16 == ArithShift(u, i) % 16
    decreases i
  {
    if i > 0 { SameNibble(v / 16, u / 16, j - 1, i - 1); }
  }

  lemma {:induction false} NextNibble(u: int, i: nat)
    ensures ArithShift(u, i) == 16 * ArithShift(u, i + 1) + ArithShift(u, i) % 16
    decreases i
  {
    if i > 0 { NextNibble(u / 16, i - 1); }
  }

  lemma {:induction false} ShiftedOut(u: int, j: nat)
    requires 0 <= u < Pow16(j)
    ensures ArithShift(u, j) == 0
    decreases j
  {
    if j > 0 { ShiftedOut(u / 16, j - 1); }
  }
}
