/** Decimal text: util::long2string, and the C functions atol and atoi with their widths. */
module Decimal {

  const INT_MAX: int := 0x7FFF_FFFF
  const LONG_MAX: int := 0x7FFF_FFFF_FFFF_FFFF

  predicate IsInt(n: int) {
    -INT_MAX - 1 <= n <= INT_MAX
  }

  predicate IsDigit(c: char) {
    '0' <= c <= '9'
  }

  predicate AllDigits(s: string) {
    forall i | 0 <= i < |s| :: IsDigit(s[i])
  }

  // Writing

  /** One digit, as the characters from '0' on: in bases above ten not the usual letters. */
  function DigitChar(d: nat): (c: char)
    requires d < 16
    ensures d < 10 ==> IsDigit(c)
  {
    '0' + d as char
  }

  function NumeralIn(n: nat, base: nat): (s: string)
    requires 2 <= base <= 16
    ensures s != ""
    decreases n
  {
    if n < base then [DigitChar(n)] else NumeralIn(n / base, base) + [DigitChar(n % base)]
  }

  /** The decimal numeral of `n`, without leading zeros. */
  function Numeral(n: nat): (s: string)
    ensures s != ""
  {
    NumeralIn(n, 10)
  }

  lemma {:induction false} NumeralDigits(n: nat)
    ensures AllDigits(Numeral(n))
    decreases n
  {
    if n < 10 {
      assert Numeral(n) == [DigitChar(n)];
    } else {
      NumeralDigits(n / 10);
    }
  }

  /** What long2string gives: a sign and the numeral; zero where the base is none it knows. */
  function LongText(value: int, base: int): string {
    if base < 2 || base > 16 || value == 0 then "0"
    else if value < 0 then "-" + NumeralIn(-value, base)
    else NumeralIn(value, base)
  }

  function IntText(value: int): string {
    LongText(value, 10)
  }

  /** util::long2string. */
  method Long2String(value: int, base: int) returns (text: string)
    ensures text == LongText(value, base)
  {
    hide NumeralIn;
    if base < 2 || base > 16 || value == 0 {
      return "0";
    }
    var output, sign, v := "", "", value;
    if v < 0 {
      sign := sign + "-";
      v := -v;
    }
    ghost var n := v;
    assert NumeralIn(v, base) + output == NumeralIn(n, base);
    while output == "" || v > 0
      invariant 0 <= v
      invariant v == 0 ==> output == NumeralIn(n, base)
      invariant v > 0 ==> NumeralIn(v, base) + output == NumeralIn(n, base)
      decreases v
    {
      DigitMoved(v, base, output);
      output := [DigitChar(v % base)] + output;
      v := v / base;
    }
    return sign + output;
  }

  lemma Divided(v: nat, base: nat, q: int, r: int)
    requires v > 0 && base >= 2 && v == base * q + r && 0 <= r < base
    ensures 0 <= q < v
    ensures v < base <==> q == 0
  {
    assert q < 0 ==> base * q <= 0 - base;
    assert q > 0 ==> base * q >= 2 * q && base * q >= base;
  }

  lemma DigitMoved(v: nat, base: nat, output: string)
    requires v > 0 && 2 <= base <= 16
    ensures 0 <= v / base < v
    ensures NumeralIn(v, base) + output ==
            if v < base then [DigitChar(v % base)] + output
            else NumeralIn(v / base, base) + ([DigitChar(v % base)] + output)
    ensures v < base <==> v / base == 0
  {
    hide DigitChar;
    Divided(v, base, v / base, v % base);
    if v < base {
      assert v % base == v;
    } else {
      var a, b := NumeralIn(v / base, base), [DigitChar(v % base)];
      assert a + b + output == a + (b + output);
    }
  }

  // Reading

  /** The number that a prefix of digits spells, `acc` being what was read so far. */
  function ReadDigits(s: string, acc: nat): nat {
    if s == "" || !IsDigit(s[0]) then acc
    else ReadDigits(s[1..], 10 * acc + (s[0] - '0') as nat)
  }

  /** The white space of the C locale. */
  predicate IsSpace(c: char) {
    c == ' ' || '\t' <= c <= '\r'
  }

  function Trimmed(s: string): string {
    if s != "" && IsSpace(s[0]) then Trimmed(s[1..]) else s
  }

  function ReadSigned(s: string): int {
    if s != "" && s[0] == '-' then 0 - ReadDigits(s[1..], 0)
    else if s != "" && s[0] == '+' then ReadDigits(s[1..], 0)
    else ReadDigits(s, 0)
  }

  /** A number beyond the type long becomes the one next to it. */
  function Clamped(n: int): int {
    if n > LONG_MAX then LONG_MAX else if n < -LONG_MAX - 1 then -LONG_MAX - 1 else n
  }

  /** atol: white space is skipped, a sign is read, and what follows the digits does not count. */
  function Atol(s: string): int {
    Clamped(ReadSigned(Trimmed(s)))
  }

  /** atoi: the low 32 bits of what atol reads. */
  function Atoi(s: string): (r: int)
    ensures IsInt(r)
  {
    (Atol(s) + INT_MAX + 1) % (2 * (INT_MAX + 1)) - INT_MAX - 1
  }

  lemma AtoiOfAtol(s: string)
    ensures IsInt(Atol(s)) ==> Atoi(s) == Atol(s)
  {
    hide ReadSigned, Trimmed;
    var n := Atol(s);
    if IsInt(n) {
      assert (n + INT_MAX + 1) % (2 * (INT_MAX + 1)) == n + INT_MAX + 1;
    }
  }

  lemma {:induction false} ReadDigitsAppend(s: string, t: string, acc: nat)
    requires AllDigits(s)
    ensures ReadDigits(s + t, acc) == ReadDigits(t, ReadDigits(s, acc))
  {
    if s == "" {
      assert s + t == t;
    } else {
      assert (s + t)[1..] == s[1..] + t && IsDigit(s[0]);
      ReadDigitsAppend(s[1..], t, 10 * acc + (s[0] - '0') as nat);
    }
  }

  lemma {:induction false} NumeralValue(n: nat)
    ensures ReadDigits(Numeral(n), 0) == n
  {
    if n < 10 {
      assert ReadDigits(Numeral(n), 0) == ReadDigits("", n);
    } else {
      NumeralValue(n / 10);
      NumeralDigits(n / 10);
      ReadDigitsAppend(Numeral(n / 10), [DigitChar(n % 10)], 0);
      assert ReadDigits([DigitChar(n % 10)], n / 10) == ReadDigits("", n);
    }
  }

  lemma NumeralRead(n: nat, rest: string)
    requires rest == "" || !IsDigit(rest[0])
    ensures ReadDigits(Numeral(n) + rest, 0) == n
  {
    hide Numeral;
    NumeralDigits(n);
    NumeralValue(n);
    ReadDigitsAppend(Numeral(n), rest, 0);
  }

  lemma DigitsStart(n: nat, rest: string)
    ensures Trimmed(Numeral(n) + rest) == Numeral(n) + rest
    ensures ReadSigned(Numeral(n) + rest) == ReadDigits(Numeral(n) + rest, 0)
  {
    hide Numeral;
    NumeralDigits(n);
    assert IsDigit((Numeral(n) + rest)[0]);
  }

  /** A numeral is read back, whatever other than a digit follows it, up to the largest number. */
  lemma AtolNumeral(n: nat, rest: string)
    requires rest == "" || !IsDigit(rest[0])
    ensures Atol(Numeral(n) + rest) == if n <= LONG_MAX then n else LONG_MAX
  {
    hide Numeral, ReadDigits, Trimmed, ReadSigned;
    DigitsStart(n, rest);
    NumeralRead(n, rest);
  }

  /** A numeral is read back as an int if and only if it is one. */
  lemma AtoiNumeral(n: nat, rest: string)
    requires rest == "" || !IsDigit(rest[0])
    ensures Atoi(Numeral(n) + rest) == n <==> n <= INT_MAX
  {
    hide Numeral, ReadDigits, Trimmed, ReadSigned, Atoi, Atol;
    AtolNumeral(n, rest);
    AtoiOfAtol(Numeral(n) + rest);
  }

  /** What int2string writes is read back, negative numbers too. */
  lemma AtoiIntText(value: int, rest: string)
    requires IsInt(value) && (rest == "" || !IsDigit(rest[0]))
    ensures Atoi(IntText(value) + rest) == value
  {
    hide Numeral, ReadDigits, Atoi, Atol;
    if value == 0 {
      Zero();
      AtoiNumeral(0, rest);
    } else if value > 0 {
      assert IntText(value) == Numeral(value) by { TextOfNumeral(value); }
      AtoiNumeral(value, rest);
    } else {
      assert IntText(value) == "-" + Numeral(-value) by { TextOfNumeral(value); }
      NumeralRead(-value, rest);
      MinusRead(Numeral(-value) + rest, -value);
      assert "-" + Numeral(-value) + rest == "-" + (Numeral(-value) + rest);
      AtoiOfAtol(IntText(value) + rest);
    }
  }

  lemma Zero()
    ensures IntText(0) == Numeral(0)
  {
  }

  lemma TextOfNumeral(value: int)
    ensures value > 0 ==> IntText(value) == Numeral(value)
    ensures value < 0 ==> IntText(value) == "-" + Numeral(-value)
  {
  }

  lemma MinusRead(s: string, n: nat)
    requires ReadDigits(s, 0) == n && n <= LONG_MAX
    ensures Atol("-" + s) == 0 - n
  {
    assert ("-" + s)[1..] == s;
  }
}
