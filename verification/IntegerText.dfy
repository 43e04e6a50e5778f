/** print_integer as a text, against the text the C standard asks for. */
module IntegerText {
  import opened Basics
  import opened PrintfText

  /** The arguments of print_integer. */
  datatype Conversion = Conversion(value: nat, negative: bool, base: nat, precision: nat, width: nat, flags: Flags)

  const PTR_WIDTH: nat := 18

  /** What every call from the format loop guarantees. */
  predicate Callable(c: Conversion) {
    && c.base in {2, 8, 10, 16}
    && (c.flags.prec && !c.flags.pointer ==> !c.flags.zeropad)
    && (!c.flags.prec ==> c.precision == 0)
    && (c.base == 10 ==> !c.flags.hash)
    && (c.flags.pointer ==> c.base == 16 && 0 < c.value < U64 && c.flags.zeropad && c.width == PTR_WIDTH)
  }

  /** The same, but that zeros never fill a field with a precision, as %p asks for. */
  predicate Regular(c: Conversion) {
    && c.base in {2, 8, 10, 16}
    && (c.flags.prec ==> !c.flags.zeropad)
    && (!c.flags.prec ==> c.precision == 0)
    && (c.base == 10 ==> !c.flags.hash)
    && (c.flags.pointer ==> c.base == 16 && c.value > 0)
  }

  // What the code builds, written left to right (the 32-cell buffer holds it backwards).

  /** The last 32 digits; none for a zero with a precision. */
  function Kept(c: Conversion): (s: string)
    requires 2 <= c.base <= 16
    ensures |s| <= BUFFER_SIZE
  {
    if c.value == 0 then (if c.flags.prec then "" else "0")
    else
      var d := Digits(c.value, c.base, c.flags.upper);
      if |d| <= BUFFER_SIZE then d else d[|d| - BUFFER_SIZE..]
  }

  predicate KeepsHash(c: Conversion) { c.flags.hash && !(c.value == 0 && (!c.flags.prec || c.base == 16)) }

  predicate WantsSign(c: Conversion) { c.negative || c.flags.plus || c.flags.space }

  /** The width left once a sign has its cell, when zeros are to fill it. */
  function SignedWidth(c: Conversion): nat {
    if !c.flags.left && c.width > 0 && c.flags.zeropad && WantsSign(c) then c.width - 1 else c.width
  }

  function ZerosTo(s: string, n: nat): (r: string)
    ensures |r| == Max(|s|, Min(n, BUFFER_SIZE))
    ensures r == Rep('0', |r| - |s|) + s
  {
    Rep('0', Min(n, BUFFER_SIZE) - |s|) + s
  }

  function Padded(c: Conversion): string
    requires 2 <= c.base <= 16
  {
    var k := Kept(c);
    ZerosTo(if c.flags.zeropad && !c.flags.left then ZerosTo(k, SignedWidth(c)) else k, c.precision)
  }

  /** Whether a prefix is still to be written: zeros already satisfy the octal one. */
  predicate Alternate(c: Conversion)
    requires 2 <= c.base <= 16
  {
    c.flags.pointer || (KeepsHash(c) && !(c.base == 8 && |Padded(c)| > |Kept(c)|))
  }

  /** One padding zero taken back, if there is one. */
  function Shave(s: string, k: nat): string { if k < |s| then s[1..] else s }

  function Trimmed(c: Conversion): string
    requires 2 <= c.base <= 16
  {
    var p, k := Padded(c), |Kept(c)|;
    if Alternate(c) && !c.flags.prec && |p| > 0 && (|p| == c.precision || |p| == SignedWidth(c)) then
      (if c.base == 16 || c.base == 2 then Shave(Shave(p, k), k) else Shave(p, k))
    else p
  }

  function Push(s: string, ch: char): string { if |s| < BUFFER_SIZE then [ch] + s else s }

  function PrefixChar(c: Conversion): char { if c.base == 2 then 'b' else if c.flags.upper then 'X' else 'x' }

  function Prefixed(c: Conversion): string
    requires 2 <= c.base <= 16
  {
    if !Alternate(c) then Padded(c)
    else Push(if c.base == 16 || c.base == 2 then Push(Trimmed(c), PrefixChar(c)) else Trimmed(c), '0')
  }

  function SignChar(c: Conversion): char { if c.negative then '-' else if c.flags.plus then '+' else ' ' }

  function Body(c: Conversion): string
    requires 2 <= c.base <= 16
  {
    if WantsSign(c) then Push(Prefixed(c), SignChar(c)) else Prefixed(c)
  }

  /** out_rev_: a text in its field. */
  function Placed(s: string, width: nat, flags: Flags): (r: string)
    ensures |r| == if flags.left || !flags.zeropad then Max(|s|, width) else |s|
  {
    if flags.left then s + Rep(' ', width - |s|)
    else if flags.zeropad then s
    else Rep(' ', width - |s|) + s
  }

  function Rendered(c: Conversion): string
    requires 2 <= c.base <= 16
  {
    Placed(Body(c), SignedWidth(c), c.flags)
  }

  // What ISO C asks for (section 7.21.6.1 of C11, with the 0b prefix of C23).

  /** A number in the digits 0 to 9 and abcdef or ABCDEF; it is what the code's digits are. */
  function Numeral(v: nat, base: nat, upper: bool): (s: string)
    requires 2 <= base <= 16
    ensures s == Digits(v, base, upper)
  {
    var digit := (if upper then "0123456789ABCDEF" else "0123456789abcdef")[v % base];
    if v < base then
      QuotientZero(v, base);
      [digit]
    else
      QuotientSmaller(v, base);
      Numeral(v / base, base, upper) + [digit]
  }

  function IsoSign(c: Conversion): string {
    if c.negative then "-" else if c.flags.plus then "+" else if c.flags.space then " " else ""
  }

  function IsoPrefix(c: Conversion): string {
    if c.value == 0 || !(c.flags.hash || c.flags.pointer) then ""
    else if c.base == 16 then (if c.flags.upper then "0X" else "0x")
    else if c.base == 2 then "0b"
    else ""
  }

  /** The precision is a minimum number of digits, 1 by default; `#` adds a leading zero in octal. */
  function IsoDigits(c: Conversion): string
    requires 2 <= c.base <= 16
  {
    var least := if c.flags.prec then c.precision else 1;
    var digits := if c.value == 0 && least == 0 then "" else Numeral(c.value, c.base, c.flags.upper);
    var all := Rep('0', least - |digits|) + digits;
    if c.base == 8 && c.flags.hash && (all == "" || all[0] != '0') then "0" + all else all
  }

  function IsoZeros(c: Conversion): nat
    requires 2 <= c.base <= 16
  {
    if c.flags.zeropad && !c.flags.left && !c.flags.prec
    then Max(0, c.width - |IsoSign(c)| - |IsoPrefix(c)| - |IsoDigits(c)|) else 0
  }

  function IsoUnsigned(c: Conversion): string
    requires 2 <= c.base <= 16
  {
    IsoPrefix(c) + (Rep('0', IsoZeros(c)) + IsoDigits(c))
  }

  function IsoBody(c: Conversion): string
    requires 2 <= c.base <= 16
  {
    IsoSign(c) + IsoUnsigned(c)
  }

  function InField(s: string, width: nat, left: bool): (r: string)
    ensures |r| == Max(|s|, width)
  {
    var pad := Rep(' ', width - |s|);
    if left then s + pad else pad + s
  }

  function IsoText(c: Conversion): string
    requires 2 <= c.base <= 16
  {
    InField(IsoBody(c), c.width, c.flags.left)
  }

  // The two agree.

  /** `%#.0b` and its like: the prefix of a binary zero is written although the value is zero. */
  predicate BinaryZero(c: Conversion) {
    c.base == 2 && c.value == 0 && c.flags.hash && c.flags.prec && c.precision != BUFFER_SIZE
  }

  lemma ZerosJoin(m: nat, n: nat, s: string)
    ensures Rep('0', m) + (Rep('0', n) + s) == Rep('0', m + n) + s
  {
    assert Rep('0', m) + Rep('0', n) == Rep('0', m + n);
    assert Rep('0', m) + (Rep('0', n) + s) == Rep('0', m) + Rep('0', n) + s;
  }

  lemma Shaved(n: nat, s: string)
    ensures Shave(Rep('0', n) + s, |s|) == Rep('0', Max(n - 1, 0)) + s
  {
    if n > 0 {
      assert (Rep('0', n) + s)[1..] == Rep('0', n - 1) + s;
    } else {
      assert Rep('0', n) + s == s;
    }
  }

  /** Nothing but zeros is put before the digits, and taken back. */
  lemma PaddedShape(c: Conversion)
    requires Regular(c)
    ensures |Padded(c)| >= |Kept(c)|
    ensures Padded(c) == Rep('0', |Padded(c)| - |Kept(c)|) + Kept(c)
    ensures |Padded(c)| == Max(|Kept(c)|, Min(BUFFER_SIZE,
              if c.flags.zeropad && !c.flags.left then SignedWidth(c) else c.precision))
  {
    var k := Kept(c);
    if c.flags.zeropad && !c.flags.left {
      var q := ZerosTo(k, SignedWidth(c));
      assert ZerosTo(q, 0) == q;
    }
  }

  /** Zeros taken back: as many as the prefix will need, where there are so many. */
  function Surplus(c: Conversion): nat
    requires 2 <= c.base <= 16
  {
    if Alternate(c) && c.flags.zeropad && !c.flags.left && |Padded(c)| == SignedWidth(c)
    then Min(|Padded(c)| - |Kept(c)|, 2) else 0
  }

  lemma TrimmedShape(c: Conversion)
    requires Regular(c)
    ensures |Padded(c)| - |Kept(c)| >= Surplus(c)
    ensures Trimmed(c) == Rep('0', |Padded(c)| - |Kept(c)| - Surplus(c)) + Kept(c)
  {
    PaddedShape(c);
    var k, n := Kept(c), |Padded(c)| - |Kept(c)|;
    Shaved(n, k);
    Shaved(Max(n - 1, 0), k);
    if Alternate(c) && c.base == 8 {
      assert n == 0;
    }
  }

  /** The prefix the code writes when there is room for it. */
  function Prefix(c: Conversion): string
    requires 2 <= c.base <= 16
  {
    if !Alternate(c) then ""
    else if c.base == 16 || c.base == 2 then ['0', PrefixChar(c)]
    else ['0']
  }

  lemma PushTwo(t: string, a: char, b: char)
    requires |t| + 2 <= BUFFER_SIZE
    ensures Push(Push(t, b), a) == [a, b] + t
  {
    assert [a] + ([b] + t) == [a, b] + t;
  }

  lemma PrefixedShape(c: Conversion)
    requires Regular(c) && |Prefix(c)| + |Trimmed(c)| <= BUFFER_SIZE
    ensures Prefixed(c) == Prefix(c) + Trimmed(c)
  {
    var t := Trimmed(c);
    if !Alternate(c) {
      assert t == Padded(c);
    } else if c.base == 16 || c.base == 2 {
      PushTwo(t, '0', PrefixChar(c));
    }
  }

  /** The digits of ISO C are the kept digits behind some zeros. */
  function IsoExtra(c: Conversion): nat
    requires 2 <= c.base <= 16
  {
    var k := |Kept(c)|;
    var n := if c.flags.prec then Max(c.precision - k, 0) else 0;
    if c.base == 8 && n == 0 && KeepsHash(c) then 1 else n
  }

  lemma IsoDigitsOfZero(c: Conversion)
    requires Regular(c) && c.value == 0
    ensures IsoDigits(c) == Rep('0', IsoExtra(c)) + Kept(c)
  {
    assert Digits(0, c.base, c.flags.upper) == "0";
    var k := Kept(c);
    assert Rep('0', 0) + k == k;
    if c.flags.prec {
      assert c.precision > 0 ==> Rep('0', c.precision - 1) + "0" == Rep('0', c.precision) + "";
      assert ['0'] + "" == Rep('0', 1) + "";
    }
  }

  lemma IsoDigitsShape(c: Conversion)
    requires Regular(c) && |IsoDigits(c)| <= BUFFER_SIZE
    ensures IsoDigits(c) == Rep('0', IsoExtra(c)) + Kept(c)
  {
    hide Numeral;
    if c.value == 0 {
      IsoDigitsOfZero(c);
    } else {
      hide Digits;
      var d := Digits(c.value, c.base, c.flags.upper);
      NoLeadingZero(c.value, c.base, c.flags.upper);
      assert ['0'] + d == Rep('0', 1) + d;
      assert Rep('0', 0) + d == d;
    }
  }

  /** Zeros between prefix and digits. */
  function Zeros(c: Conversion): int
    requires 2 <= c.base <= 16
  {
    |Padded(c)| - |Kept(c)| - Surplus(c)
  }

  predicate FullBinaryZero(c: Conversion) {
    c.base == 2 && c.value == 0 && c.flags.hash && c.flags.prec && c.precision == BUFFER_SIZE
  }

  lemma SamePrefix(c: Conversion)
    requires Regular(c) && c.base != 8 && !BinaryZero(c) && !FullBinaryZero(c)
    ensures Prefix(c) == IsoPrefix(c)
  {
    assert ['0', PrefixChar(c)] == "0b" || ['0', PrefixChar(c)] == "0x" || ['0', PrefixChar(c)] == "0X";
  }

  /** Nothing is lost before the sign is written. */
  predicate Unclipped(c: Conversion)
    requires 2 <= c.base <= 16
  {
    |IsoUnsigned(c)| <= BUFFER_SIZE && (c.flags.zeropad ==> |IsoBody(c)| <= BUFFER_SIZE)
  }

  /** The padding, the zeros taken back and the prefix come to the count of zeros ISO C asks for. */
  lemma SameZeros(c: Conversion)
    requires Regular(c) && !BinaryZero(c) && !FullBinaryZero(c) && Unclipped(c)
    ensures Zeros(c) >= 0
    ensures Zeros(c) + (if c.base == 8 then |Prefix(c)| else 0) == IsoZeros(c) + IsoExtra(c)
  {
    IsoDigitsShape(c);
    PaddedShape(c);
    if c.base != 8 {
      SamePrefix(c);
    }
  }

  lemma IsoUnsignedShape(c: Conversion)
    requires Regular(c) && |IsoDigits(c)| <= BUFFER_SIZE
    ensures IsoUnsigned(c) == IsoPrefix(c) + (Rep('0', IsoZeros(c) + IsoExtra(c)) + Kept(c))
    ensures |IsoUnsigned(c)| == |IsoPrefix(c)| + IsoZeros(c) + IsoExtra(c) + |Kept(c)|
  {
    hide Numeral, Digits;
    IsoDigitsShape(c);
    ZerosJoin(IsoZeros(c), IsoExtra(c), Kept(c));
  }

  lemma UnsignedShape(c: Conversion)
    requires Regular(c) && |Prefix(c)| + |Kept(c)| + Zeros(c) <= BUFFER_SIZE
    ensures Prefixed(c) == Prefix(c) + (Rep('0', Zeros(c)) + Kept(c))
    ensures c.base == 8 ==> Prefixed(c) == Rep('0', |Prefix(c)| + Zeros(c)) + Kept(c)
  {
    TrimmedShape(c);
    PrefixedShape(c);
    if c.base == 8 {
      assert Prefix(c) == Rep('0', |Prefix(c)|);
      ZerosJoin(|Prefix(c)|, Zeros(c), Kept(c));
    }
  }

  lemma SameFullZero(c: Conversion)
    requires Regular(c) && FullBinaryZero(c)
    ensures Prefixed(c) == IsoUnsigned(c)
  {
    PaddedShape(c);
    IsoDigitsOfZero(c);
    assert Rep('0', 0) + IsoDigits(c) == IsoDigits(c);
  }

  lemma SameOctal(c: Conversion)
    requires Regular(c) && c.base == 8 && Unclipped(c)
    ensures Prefixed(c) == IsoUnsigned(c)
  {
    hide Prefixed, Kept, Padded, IsoDigits, Zeros, IsoZeros, IsoExtra;
    IsoUnsignedShape(c);
    SameZeros(c);
    UnsignedShape(c);
    assert IsoPrefix(c) == "";
  }

  lemma SameShape(c: Conversion, p: string, z: nat)
    requires Regular(c) && |Prefix(c)| + |Kept(c)| + Zeros(c) <= BUFFER_SIZE && p == Prefix(c) && z == Zeros(c)
    ensures Prefixed(c) == p + (Rep('0', z) + Kept(c))
  {
    hide Prefixed, Kept, Padded, Zeros, Prefix;
    UnsignedShape(c);
  }

  lemma SameOther(c: Conversion)
    requires Regular(c) && c.base != 8 && !BinaryZero(c) && !FullBinaryZero(c) && Unclipped(c)
    ensures Prefixed(c) == IsoUnsigned(c)
  {
    hide Prefixed, Kept, Padded, IsoDigits, Zeros, IsoZeros, IsoExtra, Prefix, IsoPrefix;
    IsoUnsignedShape(c);
    SameZeros(c);
    SamePrefix(c);
    SameShape(c, IsoPrefix(c), IsoZeros(c) + IsoExtra(c));
  }

  /** Up to the sign, a text of ISO C that fits the buffer is what the code builds. */
  lemma SameUnsigned(c: Conversion)
    requires Regular(c) && !BinaryZero(c) && Unclipped(c)
    ensures Prefixed(c) == IsoUnsigned(c)
  {
    if FullBinaryZero(c) {
      SameFullZero(c);
    } else if c.base == 8 {
      SameOctal(c);
    } else {
      SameOther(c);
    }
  }

  lemma SameBody(c: Conversion)
    requires Regular(c) && !BinaryZero(c) && |IsoBody(c)| <= BUFFER_SIZE
    ensures Body(c) == IsoBody(c)
  {
    hide Prefixed, IsoUnsigned;
    SameUnsigned(c);
    assert IsoSign(c) == if WantsSign(c) then [SignChar(c)] else "";
  }

  /** The buffer holds the text; or it loses just a blank sign, which the padding blanks make up for. */
  predicate Fits(c: Conversion)
    requires 2 <= c.base <= 16
  {
    || |IsoBody(c)| <= BUFFER_SIZE
    || (|IsoBody(c)| == BUFFER_SIZE + 1 && IsoSign(c) == " " && !c.flags.left && !c.flags.zeropad
        && c.width > BUFFER_SIZE)
  }

  lemma PlacedSame(s: string, width: nat, flags: Flags)
    requires flags.zeropad && !flags.left ==> width <= |s|
    ensures Placed(s, width, flags) == InField(s, width, flags.left)
  {
    assert Rep(' ', 0) + s == s;
  }

  lemma BlankSign(u: string, width: nat)
    requires width > |u|
    ensures InField(" " + u, width, false) == InField(u, width, false)
  {
    assert Rep(' ', width - |u|) == Rep(' ', width - |u| - 1) + " ";
    assert Rep(' ', width - |u| - 1) + " " + u == Rep(' ', width - |u| - 1) + (" " + u);
  }

  lemma FilledWidth(c: Conversion)
    requires Regular(c) && c.flags.zeropad && !c.flags.left
    ensures c.width <= |IsoBody(c)|
  {
  }

  lemma FitsIsSame(c: Conversion)
    requires Regular(c) && !BinaryZero(c) && Fits(c)
    ensures Rendered(c) == IsoText(c)
  {
    if |IsoBody(c)| <= BUFFER_SIZE {
      SameBody(c);
      if c.flags.zeropad && !c.flags.left {
        FilledWidth(c);
      }
      PlacedSame(Body(c), SignedWidth(c), c.flags);
    } else {
      SameUnsigned(c);
      BlankSign(IsoUnsigned(c), c.width);
      PlacedSame(Body(c), c.width, c.flags);
    }
  }

  lemma BodyBound(c: Conversion)
    requires Regular(c)
    ensures |Body(c)| <= BUFFER_SIZE
  {
    PaddedShape(c);
    TrimmedShape(c);
  }

  lemma NoBlanks(c: Conversion)
    requires Regular(c)
    ensures forall i :: 0 <= i < |IsoUnsigned(c)| ==> IsoUnsigned(c)[i] != ' '
  {
    assert forall i :: 0 <= i < |IsoDigits(c)| ==> IsoDigits(c)[i] != ' ';
  }

  lemma LongerShowsLeft(b: string, s: string, width: nat, flags: Flags)
    requires |b| < |s| && flags.left && s[|s| - 1] != ' '
    ensures Placed(b, width, flags) != InField(s, width, true)
  {
    if |s| <= width {
      assert Placed(b, width, flags)[|s| - 1] == ' ';
      assert InField(s, width, true)[|s| - 1] == s[|s| - 1];
    }
  }

  lemma LongerShowsRight(b: string, s: string, width: nat, flags: Flags, at: nat)
    requires |b| + at < |s| && !flags.left && !flags.zeropad && s[at] != ' '
    ensures Placed(b, width, flags) != InField(s, width, false)
  {
    if |s| <= width {
      assert Placed(b, width, flags)[width - |s| + at] == ' ';
      assert InField(s, width, false)[width - |s| + at] == s[at];
    }
  }

  lemma SignThenText(sign: string, u: string)
    requires u != ""
    ensures (sign + u)[|sign|] == u[0] && (sign + u)[|sign| + |u| - 1] == u[|u| - 1]
  {
  }

  lemma OverflowShortens(c: Conversion)
    requires Regular(c) && |IsoBody(c)| > BUFFER_SIZE && !c.flags.left && (c.flags.zeropad || c.width <= BUFFER_SIZE)
    ensures |Rendered(c)| <= BUFFER_SIZE < |IsoText(c)|
  {
    BodyBound(c);
  }

  lemma OverflowBlanks(c: Conversion)
    requires Regular(c) && !Fits(c) && !c.flags.left && !c.flags.zeropad && c.width > BUFFER_SIZE
    ensures Rendered(c) != IsoText(c)
  {
    BodyBound(c);
    NoBlanks(c);
    SignThenText(IsoSign(c), IsoUnsigned(c));
    LongerShowsRight(Body(c), IsoBody(c), c.width, c.flags, if IsoSign(c) == " " then 1 else 0);
  }

  lemma OverflowTrails(c: Conversion)
    requires Regular(c) && |IsoBody(c)| > BUFFER_SIZE && c.flags.left
    ensures Rendered(c) != IsoText(c)
  {
    BodyBound(c);
    NoBlanks(c);
    SignThenText(IsoSign(c), IsoUnsigned(c));
    LongerShowsLeft(Body(c), IsoBody(c), c.width, c.flags);
  }

  /** A text too long for the buffer shows. */
  lemma OverflowShows(c: Conversion)
    requires Regular(c) && !Fits(c)
    ensures Rendered(c) != IsoText(c)
  {
    if c.flags.left {
      OverflowTrails(c);
    } else if c.flags.zeropad || c.width <= BUFFER_SIZE {
      OverflowShortens(c);
    } else {
      OverflowBlanks(c);
    }
  }

  lemma BinaryZeroPrefixed(c: Conversion)
    requires Regular(c) && BinaryZero(c) && c.precision < BUFFER_SIZE
    ensures 'b' in Rendered(c)
  {
    PaddedShape(c);
    var p := Padded(c);
    assert Prefixed(c) == Push(['b'] + p, '0');
    assert (['b'] + p)[0] == 'b';
    assert 'b' in Prefixed(c);
    assert 'b' in Body(c);
  }

  lemma NoLetter(c: Conversion)
    requires Regular(c) && c.value == 0
    ensures 'b' !in IsoText(c)
  {
    IsoDigitsOfZero(c);
    assert 'b' !in Kept(c);
    assert 'b' !in IsoSign(c);
    assert 'b' !in IsoBody(c);
  }

  lemma BinaryZeroShows(c: Conversion)
    requires Regular(c) && BinaryZero(c) && Fits(c)
    ensures Rendered(c) != IsoText(c)
  {
    BinaryZeroPrefixed(c);
    NoLetter(c);
  }

  lemma RegularExactly(c: Conversion)
    requires Regular(c)
    ensures Rendered(c) == IsoText(c) <==> !BinaryZero(c) && Fits(c)
  {
    if !Fits(c) {
      OverflowShows(c);
    } else if BinaryZero(c) {
      BinaryZeroShows(c);
    } else {
      FitsIsSame(c);
    }
  }

  // A pointer with a precision: the field is filled with zeros all the same.

  /** The zeros reach further than the precision. */
  predicate Overfilled(c: Conversion) {
    c.flags.pointer && c.flags.prec && !c.flags.left && c.precision < SignedWidth(c)
  }

  lemma PointerDigits(c: Conversion)
    requires Callable(c) && c.flags.pointer
    ensures Kept(c) == Digits(c.value, 16, c.flags.upper) && |Kept(c)| <= 16
  {
    PowValues();
    DigitsBound(c.value, 16, c.flags.upper, 16);
  }

  /** The standard has the text two or three characters shorter. */
  lemma OverfilledShows(c: Conversion)
    requires Callable(c) && Overfilled(c)
    ensures |Rendered(c)| == PTR_WIDTH + 2 > |IsoText(c)|
  {
    PointerDigits(c);
    var w := SignedWidth(c);
    assert |Padded(c)| == w;
    assert Trimmed(c) == Padded(c);
    assert |Prefixed(c)| == w + 2;
  }

  function Unfilled(c: Conversion): Conversion { c.(flags := c.flags.(zeropad := false)) }

  lemma FilledTwice(k: string, m: nat, n: nat)
    requires m <= n
    ensures ZerosTo(ZerosTo(k, m), n) == ZerosTo(k, n)
  {
    var t := ZerosTo(k, m);
    ZerosJoin(|ZerosTo(t, n)| - |t|, |t| - |k|, k);
  }

  lemma SameUnfilled(c: Conversion)
    requires Callable(c) && c.flags.pointer && c.flags.prec && !Overfilled(c)
    ensures Body(Unfilled(c)) == Body(c)
  {
    PointerDigits(c);
    var k := Kept(c);
    if !c.flags.left {
      assert ZerosTo(ZerosTo(k, SignedWidth(c)), c.precision) == ZerosTo(k, c.precision) by {
        FilledTwice(k, SignedWidth(c), c.precision);
      }
    }
    assert Padded(Unfilled(c)) == Padded(c);
  }

  lemma WideEnough(c: Conversion)
    requires Callable(c) && c.flags.pointer && c.flags.prec && !Overfilled(c) && !c.flags.left
    ensures |Body(c)| >= PTR_WIDTH
  {
    PointerDigits(c);
    assert |Padded(c)| >= Min(SignedWidth(c), BUFFER_SIZE);
  }

  lemma SameIsoUnfilled(c: Conversion)
    requires 2 <= c.base <= 16 && c.flags.prec
    ensures IsoBody(Unfilled(c)) == IsoBody(c) && IsoText(Unfilled(c)) == IsoText(c)
  {
    assert IsoDigits(Unfilled(c)) == IsoDigits(c) && IsoZeros(Unfilled(c)) == IsoZeros(c);
  }

  lemma SamePlaced(s: string, w: nat, v: nat, f: Flags, g: Flags)
    requires f.left == g.left && !g.zeropad && (if f.left then w == v else f.zeropad && |s| >= v)
    ensures Placed(s, w, f) == Placed(s, v, g)
  {
    assert Rep(' ', 0) + s == s;
  }

  lemma PointerUnfilled(c: Conversion)
    requires Callable(c) && c.flags.pointer && c.flags.prec && !Overfilled(c)
    ensures Regular(Unfilled(c))
    ensures Rendered(Unfilled(c)) == Rendered(c)
    ensures IsoText(Unfilled(c)) == IsoText(c) && (Fits(Unfilled(c)) <==> Fits(c))
  {
    hide Body, IsoBody, IsoText, Placed;
    var o := Unfilled(c);
    SameIsoUnfilled(c);
    SameUnfilled(c);
    if !c.flags.left {
      WideEnough(c);
    }
    SamePlaced(Body(c), SignedWidth(c), SignedWidth(o), c.flags, o.flags);
  }

  /** print_integer writes what ISO C asks for exactly when its buffer holds the text, `%#.0b` of zero and a
      `%p` whose precision does not cover its field aside. */
  lemma PrintIntegerExactly(c: Conversion)
    requires Callable(c)
    ensures Rendered(c) == IsoText(c) <==> !BinaryZero(c) && !Overfilled(c) && Fits(c)
  {
    if c.flags.pointer && c.flags.prec {
      if Overfilled(c) {
        OverfilledShows(c);
      } else {
        PointerUnfilled(c);
        RegularExactly(Unfilled(c));
      }
    } else {
      RegularExactly(c);
    }
  }

  /** The values, precisions and widths for which every text fits. */
  predicate Moderate(c: Conversion) {
    && c.value < (if c.base == 2 then 0x4000_0000 else U64)
    && c.precision <= 30
    && (c.flags.zeropad && !c.flags.left ==> c.width <= BUFFER_SIZE)
    && (c.base != 10 && !c.flags.pointer ==> !WantsSign(c))
    && (c.flags.pointer ==> !c.flags.prec)
  }

  lemma ModerateDigits(c: Conversion)
    requires Regular(c) && Moderate(c)
    ensures |Digits(c.value, c.base, c.flags.upper)| <=
              if c.base == 2 then 30 else if c.base == 8 then 22 else if c.base == 10 then 20 else 16
  {
    PowValues();
    DigitsBound(c.value, c.base, c.flags.upper,
      if c.base == 2 then 30 else if c.base == 8 then 22 else if c.base == 10 then 20 else 16);
  }

  lemma ModerateFits(c: Conversion)
    requires Regular(c) && Moderate(c)
    ensures Fits(c)
  {
    ModerateDigits(c);
    assert |IsoSign(c) + IsoPrefix(c)| + |IsoDigits(c)| <= BUFFER_SIZE;
  }

  /** Every 64-bit value in base 8, 10 and 16, with any width of blanks, comes out as ISO C says. */
  lemma PrintIntegerIsIso(c: Conversion)
    requires Regular(c) && Moderate(c) && !BinaryZero(c)
    ensures Rendered(c) == IsoText(c)
  {
    ModerateFits(c);
    RegularExactly(c);
  }

  /** `%#.0b` of 0 is to be empty and comes out as "0b". */
  lemma BinaryZeroComesOut()
    ensures var c := Conversion(0, false, 2, 0, 0, NO_FLAGS.(hash := true, prec := true));
            Callable(c) && Fits(c) && Rendered(c) == "0b" && IsoText(c) == ""
  {
    var c := Conversion(0, false, 2, 0, 0, NO_FLAGS.(hash := true, prec := true));
    assert Padded(c) == "";
    assert Rendered(c) == Prefixed(c) == "0b";
  }

  /** `%033u` of 5 is to have 33 characters and gets 32. */
  lemma BufferEnds()
    ensures var c := Conversion(5, false, 10, 0, 33, NO_FLAGS.(zeropad := true));
            Callable(c) && |Rendered(c)| == 32 && |IsoText(c)| == 33
  {
    var c := Conversion(5, false, 10, 0, 33, NO_FLAGS.(zeropad := true));
    assert Kept(c) == "5" == IsoDigits(c);
    assert |Padded(c)| == 32;
  }
}
