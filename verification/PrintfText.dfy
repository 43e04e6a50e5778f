/** Text the printf engine is made of: runs of a character, digits, and the flags of a directive. */
module PrintfText {
  import opened Basics

  /** The length bits of printf_flags_t: FLAGS_CHAR stands before FLAGS_SHORT, FLAGS_LONG_LONG before FLAGS_LONG. */
  datatype Size = NoSize | Char | Short | Int | Long | LongLong

  /** printf_flags_t; `prec` is FLAGS_PRECISION. */
  datatype Flags = Flags(zeropad: bool, left: bool, plus: bool, space: bool, hash: bool, upper: bool, prec: bool,
                         pointer: bool, size: Size)

  const NO_FLAGS := Flags(false, false, false, false, false, false, false, false, NoSize)

  const BUFFER_SIZE: nat := 32

  function Rep(c: char, n: int): (s: string)
    ensures |s| == if n > 0 then n else 0
    ensures forall i :: 0 <= i < |s| ==> s[i] == c
  {
    if n <= 0 then "" else seq(n, _ => c)
  }

  function Reverse(s: string): (r: string)
    ensures |r| == |s|
    ensures forall i :: 0 <= i < |s| ==> r[i] == s[|s| - 1 - i]
  {
    seq(|s|, i requires 0 <= i < |s| => s[|s| - 1 - i])
  }

  function DigitChar(d: nat, upper: bool): (c: char)
    requires d < 16
    ensures c != ' ' && (d < 10 <==> '0' <= c <= '9')
  {
    if d < 10 then ('0' as int + d) as char else ((if upper then 'A' else 'a') as int + d - 10) as char
  }

  lemma QuotientSmaller(v: nat, b: nat)
    requires 2 <= b <= v
    ensures 1 <= v / b < v && v % b < b
  {
  }

  lemma QuotientZero(v: nat, b: nat)
    requires v < b
    ensures v / b == 0 && v % b == v
  {
  }

  /** The digits of a number, most significant first. */
  function Digits(v: nat, base: nat, upper: bool): (s: string)
    requires 2 <= base <= 16
    ensures |s| >= 1
    ensures forall i :: 0 <= i < |s| ==> s[i] != ' '
  {
    if v < base then [DigitChar(v, upper)] else
      QuotientSmaller(v, base);
      Digits(v / base, base, upper) + [DigitChar(v % base, upper)]
  }

  function DigitValue(c: char): nat {
    if '0' <= c <= '9' then c as nat - '0' as nat
    else if 'a' <= c <= 'f' then c as nat - 'a' as nat + 10
    else if 'A' <= c <= 'F' then c as nat - 'A' as nat + 10
    else 0
  }

  /** What a numeral stands for. */
  function Value(s: string, base: nat): nat {
    if s == "" then 0 else Value(s[..|s| - 1], base) * base + DigitValue(s[|s| - 1])
  }

  lemma NoDigits(base: nat)
    ensures Value("", base) == 0
  {
  }

  lemma DigitMeans(d: nat, upper: bool)
    requires d < 16
    ensures DigitValue(DigitChar(d, upper)) == d
  {
  }

  /** One more digit behind a numeral. */
  lemma LastDigit(s: string, q: nat, d: nat, base: nat, upper: bool)
    requires d < base <= 16 && Value(s, base) == q
    ensures Value(s + [DigitChar(d, upper)], base) == q * base + d
  {
    var t := s + [DigitChar(d, upper)];
    assert t[..|t| - 1] == s;
    DigitMeans(d, upper);
    hide DigitChar, DigitValue;
  }

  /** `Digits` writes the number down. */
  lemma {:induction false} DigitsMean(v: nat, base: nat, upper: bool)
    requires 2 <= base <= 16
    ensures Value(Digits(v, base, upper), base) == v
  {
    hide Value, DigitChar;
    NoDigits(base);
    if v < base {
      LastDigit("", 0, v, base, upper);
      assert "" + [DigitChar(v, upper)] == [DigitChar(v, upper)];
    } else {
      QuotientSmaller(v, base);
      DigitsMean(v / base, base, upper);
      LastDigit(Digits(v / base, base, upper), v / base, v % base, base, upper);
      Rejoin(v, base);
    }
  }

  /** And without leading zeros. */
  lemma {:induction false} NoLeadingZero(v: nat, base: nat, upper: bool)
    requires 2 <= base <= 16 && v > 0
    ensures Digits(v, base, upper)[0] != '0'
  {
    if v >= base {
      QuotientSmaller(v, base);
      NoLeadingZero(v / base, base, upper);
    }
  }

  /** A number below base^n has at most n digits. */
  lemma {:induction false} DigitsBound(v: nat, base: nat, upper: bool, n: nat)
    requires 2 <= base <= 16 && n >= 1 && v < Pow(base, n)
    ensures |Digits(v, base, upper)| <= n
  {
    if v >= base {
      assert Pow(base, 1) == base * Pow(base, 0) == base;
      QuotientBelow(v, base, Pow(base, n - 1));
      DigitsBound(v / base, base, upper, n - 1);
    }
  }

  /** 30 binary, 22 octal, 20 decimal or 16 hexadecimal digits. */
  lemma PowValues()
    ensures Pow(2, 30) == 0x4000_0000
    ensures Pow(8, 22) == 4 * U64
    ensures Pow(10, 20) == 100_000_000_000_000_000_000
    ensures Pow(16, 16) == U64
  {
    assert Pow(2, 3) == 2 * Pow(2, 2) && Pow(2, 2) == 2 * Pow(2, 1) && Pow(2, 1) == 2 * Pow(2, 0);
    PowAdd(2, 3, 3); PowAdd(2, 6, 6); PowAdd(2, 12, 3); PowAdd(2, 15, 15);
    assert Pow(8, 2) == 8 * Pow(8, 1) && Pow(8, 1) == 8 * Pow(8, 0);
    PowAdd(8, 2, 2); PowAdd(8, 4, 4); PowAdd(8, 8, 8); PowAdd(8, 16, 4); PowAdd(8, 20, 2);
    assert Pow(10, 2) == 10 * Pow(10, 1) && Pow(10, 1) == 10 * Pow(10, 0);
    PowAdd(10, 2, 2); PowAdd(10, 4, 1); PowAdd(10, 5, 5); PowAdd(10, 10, 10);
    assert Pow(16, 1) == 16 * Pow(16, 0);
    PowAdd(16, 1, 1); PowAdd(16, 2, 2); PowAdd(16, 4, 4); PowAdd(16, 8, 8);
  }
}
