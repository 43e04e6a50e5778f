/** Laws of formatting: formats compose, directives meet ISO C, and the printer and the parser undo each other. */
module FormatTheorems {
  import opened Basics
  import opened FormatText
  import opened Gadgets
  import opened IntegerText
  import opened IsoDirectives
  import opened PrintfText

  // Parsing looks at nothing behind what it parses.

  lemma {:induction false} AtouAppend(s: string, t: string, i: nat)
    requires i < U32 && Atou(s, i).1 != ""
    ensures Atou(s + t, i) == (Atou(s, i).0, Atou(s, i).1 + t)
  {
    if IsDigit(First(s)) {
      assert (s + t)[1..] == s[1..] + t;
      AtouAppend(s[1..], t, (i * 10 + (s[0] as nat - '0' as nat)) % U32);
    }
  }

  lemma {:induction false} FlagsAppend(s: string, t: string, f: Flags)
    requires ParseFlags(s, f).1 != ""
    ensures ParseFlags(s + t, f) == (ParseFlags(s, f).0, ParseFlags(s, f).1 + t)
  {
    if IsFlag(First(s)) {
      assert (s + t)[1..] == s[1..] + t;
      FlagsAppend(s[1..], t, SetFlag(s[0], f));
    }
  }

  lemma AmountAppend(s: string, t: string)
    requires ParseAmount(s).1 != ""
    ensures ParseAmount(s + t) == (ParseAmount(s).0, ParseAmount(s).1 + t)
  {
    if IsDigit(First(s)) {
      AtouAppend(s, t, 0);
    } else if First(s) == '*' {
      assert (s + t)[1..] == s[1..] + t;
    }
  }

  lemma Slices(s: string, t: string)
    ensures |s| >= 1 ==> (s + t)[1..] == s[1..] + t
    ensures |s| >= 2 ==> (s + t)[2..] == s[2..] + t
  {
  }

  predicate Appended(r: Option<(Flags, string)>, q: Option<(Flags, string)>, t: string) {
    r.Some? && r.value.1 != "" ==> q == Some((r.value.0, r.value.1 + t))
  }

  lemma PairAppend(s: string, t: string, second: char, f: Flags, sized: Flags, checked: bool)
    requires s != ""
    ensures Appended(ParsePair(s, second, f, sized, checked), ParsePair(s + t, second, f, sized, checked), t)
  {
    Slices(s, t);
  }

  lemma BitsAppend(s: string, t: string, f: Flags)
    requires s != ""
    ensures Appended(ParseBits(s, f), ParseBits(s + t, f), t)
  {
    Slices(s, t);
    assert (s + t)[0] == s[0];
    if s[0] == '1' {
      PairAppend(s, t, '6', f, f.(size := Short), false);
    } else if s[0] == '3' {
      PairAppend(s, t, '2', f, f.(size := Int), true);
    } else if s[0] == '6' {
      PairAppend(s, t, '4', f, f.(size := Long), true);
    }
  }

  lemma TwiceAppend(s: string, t: string, c: char, once: Flags, twice: Flags)
    requires s != ""
    ensures Appended(ParseTwice(s, c, once, twice), ParseTwice(s + t, c, once, twice), t)
  {
    Slices(s, t);
  }

  lemma LengthAppend(s: string, t: string, f: Flags)
    ensures Appended(ParseLength(s, f), ParseLength(s + t, f), t)
  {
    if s != "" {
      Slices(s, t);
      assert First(s + t) == s[0];
      if s[0] == 'I' {
        if |s| > 1 {
          BitsAppend(s[1..], t, f);
        }
      } else if s[0] == 'l' {
        TwiceAppend(s, t, 'l', f.(size := Long), f.(size := LongLong));
      } else if s[0] == 'h' {
        TwiceAppend(s, t, 'h', f.(size := Short), f.(size := Char));
      }
    }
  }

  lemma EndAppend(f: Flags, w: Amount, p: Amount, s: string, t: string)
    requires ParseEnd(f, w, p, s).Whole?
    ensures ParseEnd(f, w, p, s + t) == ParseEnd(f, w, p, s).(rest := ParseEnd(f, w, p, s).rest + t)
  {
    LengthAppend(s, t, f);
    Slices(ParseLength(s, f).value.1, t);
  }

  lemma PrecisionAppend(f: Flags, w: Amount, s: string, t: string)
    requires ParsePrecision(f, w, s).Whole?
    ensures ParsePrecision(f, w, s + t) == ParsePrecision(f, w, s).(rest := ParsePrecision(f, w, s).rest + t)
  {
    if First(s) != '.' {
      EndAppend(f, w, Absent, s, t);
    } else {
      Slices(s, t);
      AmountAppend(s[1..], t);
      var (p, u) := ParseAmount(s[1..]);
      EndAppend(f.(prec := true), w, p, u, t);
    }
  }

  /** A complete directive is read the same whatever follows. */
  lemma DirectiveAppend(s: string, t: string)
    requires ParseDirective(s).Whole?
    ensures ParseDirective(s + t) == ParseDirective(s).(rest := ParseDirective(s).rest + t)
  {
    var (f, u) := ParseFlags(s, NO_FLAGS);
    FlagsAppend(s, t, NO_FLAGS);
    var (w, v) := ParseAmount(u);
    AmountAppend(u, t);
    PrecisionAppend(f, w, v, t);
  }

  // Formats compose.

  lemma SuitsAppend(d: Directive, a: seq<Arg>, b: seq<Arg>)
    requires Suits(d, a)
    ensures Suits(d, a + b) && (a + b)[..Uses(d)] == a[..Uses(d)] && (a + b)[Uses(d)..] == a[Uses(d)..] + b
  {
    assert forall i :: 0 <= i < |a| ==> (a + b)[i] == a[i];
  }

  lemma DirectiveComposes(f: string, g: string, a: seq<Arg>, b: seq<Arg>, d: Directive, rest: string)
    requires f != "" && f[0] == '%' && ParseDirective(f[1..]) == Whole(d, rest) && Supplied(f, a)
    requires Supplied(rest + g, a[Uses(d)..] + b)
    ensures Supplied(f + g, a + b)
    ensures Pieces(f + g, a + b) == [Item(d, a[..Uses(d)])] + Pieces(rest + g, a[Uses(d)..] + b)
  {
    Slices(f, g);
    DirectiveAppend(f[1..], g);
    SuitsAppend(d, a, b);
  }

  lemma PlainComposes(f: string, g: string, a: seq<Arg>, b: seq<Arg>)
    requires f != "" && f[0] != '%' && Supplied(f[1..] + g, a + b)
    ensures Supplied(f + g, a + b)
    ensures Pieces(f + g, a + b) == [Plain(f[0])] + Pieces(f[1..] + g, a + b)
  {
    Slices(f, g);
  }

  lemma ConsAppend(x: Piece, p: seq<Piece>, q: seq<Piece>)
    ensures [x] + (p + q) == [x] + p + q
  {
  }

  lemma {:induction false} PiecesCompose(f: string, g: string, a: seq<Arg>, b: seq<Arg>)
    requires Complete(f) && Supplied(f, a) && |a| == ArgCount(f) && Supplied(g, b)
    ensures Supplied(f + g, a + b)
    ensures Pieces(f + g, a + b) == Pieces(f, a) + Pieces(g, b)
    decreases |f|
  {
    if f == "" {
      assert f + g == g && a + b == b;
    } else if f[0] != '%' {
      PiecesCompose(f[1..], g, a, b);
      PlainComposes(f, g, a, b);
      ConsAppend(Plain(f[0]), Pieces(f[1..], a), Pieces(g, b));
    } else {
      var d, rest := ParseDirective(f[1..]).d, ParseDirective(f[1..]).rest;
      var own, others := a[..Uses(d)], a[Uses(d)..];
      PiecesCompose(rest, g, others, b);
      DirectiveComposes(f, g, a, b, d, rest);
      OwnArguments(d, a);
      ConsAppend(Item(d, own), Pieces(rest, others), Pieces(g, b));
    }
  }

  lemma {:induction false} TextAppend(p: seq<Piece>, q: seq<Piece>)
    ensures Text(p + q) == Text(p) + Text(q)
  {
    if p == [] {
      assert p + q == q;
    } else {
      assert (p + q)[1..] == p[1..] + q;
      TextAppend(p[1..], q);
    }
  }

  /** Two formats in one come out as their texts in a row. */
  lemma FormatsCompose(f: string, g: string, a: seq<Arg>, b: seq<Arg>)
    requires Complete(f) && Supplied(f, a) && |a| == ArgCount(f) && Supplied(g, b)
    ensures Supplied(f + g, a + b)
    ensures Formatted(f + g, a + b) == Formatted(f, a) + Formatted(g, b)
  {
    PiecesCompose(f, g, a, b);
    TextAppend(Pieces(f, a), Pieces(g, b));
  }

  /** And so does what ends well: completeness and the count of arguments. */
  lemma {:induction false} CompleteFormatsCompose(f: string, g: string)
    requires Complete(f)
    ensures Complete(f + g) == Complete(g) && Contained(f + g) == Contained(g)
    ensures ArgCount(f + g) == ArgCount(f) + ArgCount(g)
    decreases |f|
  {
    if f == "" {
      assert f + g == g;
    } else if f[0] != '%' {
      Slices(f, g);
      CompleteFormatsCompose(f[1..], g);
    } else {
      Slices(f, g);
      DirectiveAppend(f[1..], g);
      CompleteFormatsCompose(ParseDirective(f[1..]).rest, g);
    }
  }

  // The printer and the parser.

  lemma {:induction false} DigitsAreNumeric(v: nat, upper: bool)
    ensures Numeric(Digits(v, 10, upper))
  {
    if v >= 10 {
      QuotientSmaller(v, 10);
      DigitsAreNumeric(v / 10, upper);
    }
  }

  lemma WrapStep(n: nat, d: nat)
    ensures (n % U32 * 10 + d) % U32 == (n * 10 + d) % U32
  {
    var q := n / U32;
    assert n * 10 + d == q * 10 * U32 + (n % U32 * 10 + d);
  }

  /** atou_ reads a run of digits as the number they stand for, modulo 2^32, and stops behind it. */
  lemma {:induction false} AtouReads(s: string, t: string)
    requires Numeric(s)
    ensures Atou(s + t, 0) == Atou(t, Value(s, 10) % U32)
  {
    if s == "" {
      assert s + t == t;
    } else {
      var n := |s| - 1;
      var c := [s[n]];
      assert s + t == s[..n] + (c + t);
      AtouReads(s[..n], c + t);
      WrapStep(Value(s[..n], 10), DigitValue(s[n]));
      assert (c + t)[1..] == t;
    }
  }

  /** What a plain decimal directive is rendered as. */
  lemma PlainNumeric(v: nat, f: Flags)
    requires v < U64 && f.(upper := false) == NO_FLAGS
    ensures Rendered(Conversion(v, false, 10, 0, 0, f)) == Digits(v, 10, f.upper)
  {
    var c := Conversion(v, false, 10, 0, 0, f);
    PowValues();
    DigitsBound(v, 10, f.upper, 20);
    var k := Kept(c);
    assert Rep('0', 0) + k == k;
    assert Rep(' ', 0) + k == k;
  }

  /** Printing a number in base 10 and reading it back gives it modulo 2^32, and the text behind it. */
  lemma PrintThenRead(v: nat, f: Flags, t: string)
    requires v < U64 && f.(upper := false) == NO_FLAGS && !IsDigit(First(t))
    ensures Atou(Rendered(Conversion(v, false, 10, 0, 0, f)) + t, 0) == (v % U32, t)
  {
    PlainNumeric(v, f);
    DigitsAreNumeric(v, f.upper);
    DigitsMean(v, 10, f.upper);
    AtouReads(Digits(v, 10, f.upper), t);
  }

  // Widths.

  /** `%s` emits as many characters as the wider of its field and the part of the string shown. */
  lemma StringWidth(s: CString, width: nat, precision: nat, f: Flags)
    requires |s| <= INT_MAX && (!f.prec ==> precision == 0)
    ensures |StringText(Some(s), width, precision, f)| == Max(width, if f.prec then Min(|s|, precision) else |s|)
    ensures var t, n := StringText(Some(s), width, precision, f), if f.prec then Min(|s|, precision) else |s|;
            if f.left then t[..n] == s[..n] && t[n..] == Rep(' ', width - n)
            else t[|t| - n..] == s[..n] && t[..|t| - n] == Rep(' ', width - n)
  {
    var n := if f.prec then Min(|s|, precision) else |s|;
    assert (if f.prec then s[..Min(|s|, precision)] else s) == s[..n];
  }

  lemma CharWidth(bits: Slot, width: nat, left: bool)
    ensures |CharText(bits, width, left)| == Max(width, 1)
    ensures var at := if left then 0 else Max(width, 1) - 1;
            forall i :: 0 <= i < Max(width, 1) ==>
              CharText(bits, width, left)[i] == if i == at then (bits % 256) as char else ' '
  {
  }

  // Integer directives against ISO C.

  function Code(d: Directive, args: seq<Arg>): Conversion
    requires Suits(d, args) && IsInteger(d.specifier)
  {
    IntegerConversion(d.specifier, DirectiveFlags(d, args), Width(d, args), Precision(d, args), args[Stars(d)].bits)
  }

  lemma ModEqual(b: nat, v: int, m: nat)
    requires 0 < m && (b - v) % m == 0 && -(m as int) <= v < m
    ensures b % m == if v >= 0 then v else v + m
  {
    var k := (b - v) / m;
    assert b - v == m * k;
    if v >= 0 {
      QuotientUnique(b, m, k, v);
    } else {
      assert b == m * (k - 1) + (v + m);
      QuotientUnique(b, m, k - 1, v + m);
    }
  }

  /** An argument of the type the length and the specifier ask for is read as its value. */
  lemma ArgumentRead(c: char, f: Flags, bits: Slot, v: int)
    requires IntegerChar(c) && InRange(c, f.size, v) && (bits - v) % Values(f.size) == 0
    ensures IntegerValue(c, f, bits) == v
  {
    ModEqual(bits, v, Values(f.size));
  }

  /** Where a precision of 0 is not the same as none: at zero, and where zeros were to fill the field. */
  predicate PrecisionShows(c: Conversion, zeropad: bool)
    requires 2 <= c.base <= 16
  {
    || (c.value == 0 && !(c.base == 8 && c.flags.hash))
    || (zeropad && !c.flags.left && c.width > |IsoBody(c)|)
  }

  /** A precision of 0 against none: the two conversions of one directive. */
  predicate Omitted(c: Conversion, o: Conversion, zeropad: bool) {
    && Regular(c) && !c.flags.pointer && c.flags.prec && c.precision == 0 && (c.base != 10 ==> !WantsSign(c))
    && o == c.(flags := c.flags.(prec := false, zeropad := zeropad))
  }

  lemma OmittedDigits(c: Conversion, o: Conversion, zeropad: bool)
    requires Omitted(c, o, zeropad)
    ensures IsoSign(o) == IsoSign(c) && IsoPrefix(o) == IsoPrefix(c) && IsoZeros(c) == 0
    ensures c.value == 0 && !(c.base == 8 && c.flags.hash) ==> IsoDigits(c) == "" && IsoDigits(o) == "0"
    ensures c.value > 0 || (c.base == 8 && c.flags.hash) ==> IsoDigits(o) == IsoDigits(c)
  {
    var d := Digits(c.value, c.base, c.flags.upper);
    assert Rep('0', 0) + d == d;
    assert Rep('0', 0) + "" == "";
  }

  lemma OmittedSame(c: Conversion, o: Conversion, zeropad: bool)
    requires Omitted(c, o, zeropad) && !PrecisionShows(c, zeropad)
    ensures IsoText(o) == IsoText(c)
  {
    OmittedDigits(c, o, zeropad);
    assert |IsoBody(c)| == |IsoSign(c)| + |IsoPrefix(c)| + |IsoDigits(c)|;
    assert IsoZeros(o) == 0;
  }

  lemma OmittedZeroShows(c: Conversion, o: Conversion, zeropad: bool)
    requires Omitted(c, o, zeropad) && c.value == 0 && !(c.base == 8 && c.flags.hash)
    ensures IsoText(o) != IsoText(c)
  {
    OmittedDigits(c, o, zeropad);
    assert IsoPrefix(c) == "";
    assert '0' !in IsoBody(c);
    assert '0' !in IsoText(c);
    assert IsoBody(o)[|IsoBody(o)| - 1] == '0';
    assert '0' in IsoBody(o);
    assert '0' in IsoText(o);
  }

  lemma OmittedPadShows(c: Conversion, o: Conversion)
    requires Omitted(c, o, true) && (c.value > 0 || (c.base == 8 && c.flags.hash))
    requires !c.flags.left && c.width > |IsoBody(c)|
    ensures IsoText(o) != IsoText(c)
  {
    OmittedDigits(c, o, true);
    assert |IsoBody(o)| == c.width;
    var at := if IsoSign(c) == " " then 1 else 0;
    assert IsoText(o)[at] != ' ' by {
      assert IsoText(o)[at] == IsoBody(o)[at];
      NoBlanks(o);
    }
    assert IsoText(c)[at] == ' ';
  }

  lemma BinaryZeroOmitted(c: Conversion, o: Conversion, zeropad: bool)
    requires Omitted(c, o, zeropad) && BinaryZero(c)
    ensures Rendered(c) != IsoText(o)
  {
    OmittedDigits(c, o, zeropad);
    BinaryZeroPrefixed(c);
    NoLetter(o);
  }

  /** What the grammar gives. */
  predicate Parsed(d: Directive) { !d.flags.pointer && !d.flags.upper && (!d.flags.prec ==> d.precision == Absent) }

  lemma IntegerIsCallable(c: char, f: Flags, width: nat, precision: nat, bits: Slot)
    requires IsInteger(c) && !f.pointer && (!f.prec ==> precision == 0)
    ensures var v := IntegerConversion(c, f, width, precision, bits);
            Callable(v) && Regular(v) && !v.flags.pointer && (v.base != 10 ==> !WantsSign(v))
  {
  }

  lemma CodeIsCallable(d: Directive, args: seq<Arg>)
    requires Parsed(d) && Suits(d, args) && IsInteger(d.specifier)
    ensures Callable(Code(d, args)) && Regular(Code(d, args)) && !Code(d, args).flags.pointer
    ensures (Code(d, args).base != 10 ==> !WantsSign(Code(d, args)))
  {
    IntegerIsCallable(d.specifier, DirectiveFlags(d, args), Width(d, args), Precision(d, args), args[Stars(d)].bits);
  }

  lemma OmittedFlags(c: char, f: Flags)
    requires f.prec
    ensures IntegerFlags(c, f.(prec := false)) == IntegerFlags(c, f).(prec := false, zeropad := f.zeropad)
  {
  }

  lemma NegativeIsOmitted(d: Directive, args: seq<Arg>)
    requires Parsed(d) && Suits(d, args) && IsInteger(d.specifier) && NegativePrecision(d, args)
    ensures Omitted(Code(d, args), Iso(d, args), d.flags.zeropad)
  {
    CodeIsCallable(d, args);
    OmittedFlags(d.specifier, DirectiveFlags(d, args));
  }

  /** More binary digits than the buffer has cells: no padding hides that. */
  lemma ClippedShows(c: Conversion, o: Conversion, zeropad: bool)
    requires Omitted(c, o, zeropad) && c.value < U64 && !Fits(c)
    ensures Rendered(c) != IsoText(o)
  {
    if c.base != 2 {
      ModerateFits(c);
    }
    OmittedDigits(c, o, zeropad);
    BodyBound(c);
    NoBlanks(o);
    SignThenText("", IsoUnsigned(o));
    assert IsoBody(o) == IsoUnsigned(o);
    if c.flags.left {
      LongerShowsLeft(Body(c), IsoBody(o), c.width, c.flags);
    } else {
      LongerShowsRight(Body(c), IsoBody(o), c.width, c.flags, 0);
    }
  }

  /** Where an integer directive does not come out as ISO C says. */
  predicate Deviates(d: Directive, args: seq<Arg>)
    requires Suits(d, args) && IsInteger(d.specifier)
  {
    var c := Code(d, args);
    BinaryZero(c) || !Fits(c) || (NegativePrecision(d, args) && PrecisionShows(c, d.flags.zeropad))
  }

  lemma PrecisionHidesZeros(c: Conversion, zeropad: bool)
    requires 2 <= c.base <= 16 && (c.flags.prec || zeropad == c.flags.zeropad)
    ensures IsoText(c.(flags := c.flags.(zeropad := zeropad))) == IsoText(c)
  {
    hide Numeral, Digits;
    var o := c.(flags := c.flags.(zeropad := zeropad));
    assert IsoDigits(o) == IsoDigits(c) && IsoZeros(o) == IsoZeros(c);
  }

  lemma IsoIsCode(d: Directive, args: seq<Arg>)
    requires Parsed(d) && Suits(d, args) && IsInteger(d.specifier) && !NegativePrecision(d, args)
    ensures IsoText(Iso(d, args)) == IsoText(Code(d, args))
  {
    var c := Code(d, args);
    assert Iso(d, args) == c.(flags := c.flags.(zeropad := d.flags.zeropad));
    PrecisionHidesZeros(c, d.flags.zeropad);
  }

  lemma NegativeExactly(d: Directive, args: seq<Arg>)
    requires Parsed(d) && Suits(d, args) && IsInteger(d.specifier) && NegativePrecision(d, args)
    ensures DirectiveText(d, args) == IsoText(Iso(d, args)) <==> !Deviates(d, args)
  {
    var c, o, z := Code(d, args), Iso(d, args), d.flags.zeropad;
    NegativeIsOmitted(d, args);
    PrintIntegerExactly(c);
    if !Fits(c) {
      ClippedShows(c, o, z);
    } else if BinaryZero(c) {
      BinaryZeroOmitted(c, o, z);
    } else if !PrecisionShows(c, z) {
      OmittedSame(c, o, z);
    } else if c.value == 0 && !(c.base == 8 && c.flags.hash) {
      OmittedZeroShows(c, o, z);
    } else {
      OmittedPadShows(c, o);
    }
  }

  /**
   * An integer directive comes out as ISO C says exactly when the buffer holds its text, it is not a
   * binary zero with a prefix, and it has no precision ISO C takes as omitted where that shows.
   */
  lemma DirectiveExactly(d: Directive, args: seq<Arg>)
    requires Parsed(d) && Suits(d, args) && IntegerChar(d.specifier)
    ensures DirectiveText(d, args) == IsoText(Iso(d, args)) <==> !Deviates(d, args)
  {
    CodeIsCallable(d, args);
    PrintIntegerExactly(Code(d, args));
    if NegativePrecision(d, args) {
      NegativeExactly(d, args);
    } else {
      IsoIsCode(d, args);
    }
  }

  /** In particular for every 64-bit value (30 bits in binary), precision up to 30 and zero-filled
      width up to 32, unless the precision is negative or a binary zero is to have a prefix. */
  lemma DirectiveIsIso(d: Directive, args: seq<Arg>)
    requires Parsed(d) && Suits(d, args) && IntegerChar(d.specifier) && Moderate(Code(d, args))
    requires !BinaryZero(Code(d, args)) && !NegativePrecision(d, args)
    ensures DirectiveText(d, args) == IsoText(Iso(d, args))
  {
    CodeIsCallable(d, args);
    ModerateFits(Code(d, args));
    DirectiveExactly(d, args);
  }

  /** `%.*d` of -1 and 0 comes out empty, where ISO C asks for "0". */
  lemma NegativePrecisionComesOut()
    ensures var d, args := Directive(NO_FLAGS.(prec := true), Absent, Star, 'd'), [Word(0xFFFF_FFFF), Word(0)];
            ParseDirective(".*d") == Whole(d, "") && Suits(d, args)
            && DirectiveText(d, args) == "" && IsoText(Iso(d, args)) == "0"
  {
    var d, args := Directive(NO_FLAGS.(prec := true), Absent, Star, 'd'), [Word(0xFFFF_FFFF), Word(0)];
    assert ParseDirective(".*d") == Whole(d, "") by {
      assert ".*d"[1..] == "*d" && "*d"[1..] == "d" && "d"[1..] == "";
    }
    assert Suits(d, args);
    hide ParseDirective, ParseFlags, ParseAmount, ParsePrecision, Suits;
    var c, o := Code(d, args), Iso(d, args);
    assert c == Conversion(0, false, 10, 0, 0, c.flags) && DirectiveText(d, args) == Rendered(c);
    assert o == Conversion(0, false, 10, 0, 0, NO_FLAGS);
    hide Code, Iso, DirectiveText;
    assert Body(c) == Padded(c) == "";
    assert IsoDigits(o) == "0";
    assert IsoBody(o) == "0";
  }

  // String directives against ISO C.

  predicate AllBlank(s: string) { forall i :: 0 <= i < |s| ==> s[i] == ' ' }

  /** Where a string directive does not come out as ISO C says: a negative precision shows nothing of the
      string, and beyond INT_MAX characters the string's length is not counted. */
  predicate StringDeviates(d: Directive, args: seq<Arg>)
    requires Suits(d, args) && d.specifier == 's' && args[ValueAt(d)].text.Some?
  {
    var s, w := args[ValueAt(d)].text.value, IsoWidth(d, args);
    if NegativePrecision(d, args) then !(|s| <= w && AllBlank(s))
    else !d.flags.prec && |s| > 2147483647 && w > 2147483647
  }

  lemma ShownInField(s: CString, width: nat, precision: nat, f: Flags)
    requires !f.prec ==> precision == 0
    ensures var shown := if f.prec then s[..Min(|s|, precision)] else s;
            StringText(Some(s), width, precision, f) == InField(shown, width, f.left)
            <==> f.prec || |s| <= INT_MAX || width <= INT_MAX
  {
    var shown := if f.prec then s[..Min(|s|, precision)] else s;
    if !f.prec && |s| > INT_MAX && width > INT_MAX {
      assert |StringText(Some(s), width, precision, f)| == |s| + (width - INT_MAX);
      assert |InField(shown, width, f.left)| == Max(|s|, width);
    }
  }

  lemma HiddenInField(s: CString, width: nat, f: Flags)
    requires f.prec
    ensures StringText(Some(s), width, 0, f) == InField(s, width, f.left) <==> |s| <= width && AllBlank(s)
  {
    var code, iso := StringText(Some(s), width, 0, f), InField(s, width, f.left);
    assert code == Rep(' ', width);
    if |s| <= width {
      var at := if f.left then 0 else width - |s|;
      assert forall i :: 0 <= i < |s| ==> iso[at + i] == s[i];
      assert |iso| == width;
    }
  }

  /** A string directive comes out as ISO C says exactly unless its precision is a negative argument and the
      string shows, or string and field are both longer than INT_MAX. */
  lemma StringExactly(d: Directive, args: seq<Arg>)
    requires Parsed(d) && Suits(d, args) && d.specifier == 's' && args[ValueAt(d)].text.Some?
    ensures DirectiveText(d, args) == IsoString(d, args) <==> !StringDeviates(d, args)
  {
    hide InField, StringText, AllBlank;
    var s, w, f := args[Stars(d)].text.value, Width(d, args), DirectiveFlags(d, args);
    if NegativePrecision(d, args) {
      HiddenInField(s, w, f);
    } else {
      ShownInField(s, w, Precision(d, args), f);
    }
  }

  /** `%.*s` of -1 and "abc" comes out empty, where ISO C asks for "abc". */
  lemma NegativeStringComesOut()
    ensures var d, args := Directive(NO_FLAGS.(prec := true), Absent, Star, 's'), [Word(0xFFFF_FFFF), Str(Some("abc"))];
            ParseDirective(".*s") == Whole(d, "") && Suits(d, args)
            && DirectiveText(d, args) == "" && IsoString(d, args) == "abc"
  {
    assert ".*s"[1..] == "*s" && "*s"[1..] == "s" && "s"[1..] == "";
  }

  /** A string of 2^31 characters in a field of 2^32 - 1 comes out one character too long. */
  lemma LongStringComesOut()
    ensures var s, w: nat := Rep('a', 0x8000_0000), 0xFFFF_FFFF;
            |StringText(Some(s), w, 0, NO_FLAGS)| == w + 1 && |InField(s, w, false)| == w
  {
  }

  /** A character directive always does. */
  lemma CharIsIso(d: Directive, args: seq<Arg>)
    requires Suits(d, args) && d.specifier == 'c'
    ensures DirectiveText(d, args) == IsoChar(d, args)
  {
    var c := [(args[ValueAt(d)].bits % 256) as char];
    assert CharText(args[ValueAt(d)].bits, IsoWidth(d, args), IsoLeft(d, args))
        == InField(c, IsoWidth(d, args), IsoLeft(d, args));
  }

  /** What a `%p` asks for: a precision given as a negative argument counts as 0. */
  function PointerAsked(d: Directive, args: seq<Arg>): Conversion
    requires Suits(d, args) && d.specifier == 'p'
  {
    var p := if d.flags.prec && NegativePrecision(d, args) then Some(0) else IsoPrecision(d, args);
    IsoPointer(args[ValueAt(d)].bits, p, d.flags.(left := IsoLeft(d, args)))
  }

  lemma PointerIsAsked(d: Directive, args: seq<Arg>)
    requires Parsed(d) && Suits(d, args) && d.specifier == 'p' && args[ValueAt(d)].bits > 0
    ensures var c := PointerAsked(d, args);
            DirectiveText(d, args) == Rendered(c) && Callable(c) && c.flags.prec == d.flags.prec && c.flags.pointer
  {
    var c := PointerConversion(args[Stars(d)].bits, Precision(d, args), DirectiveFlags(d, args));
    assert c == PointerAsked(d, args);
    hide Rendered, PointerAsked;
    assert DirectiveText(d, args) == Rendered(c);
  }

  /** It comes out as a prefixed hexadecimal number of 18 characters filled with zeros, unless a precision that
      does not cover the field is given: then zeros fill it nevertheless. */
  lemma PointerExactly(d: Directive, args: seq<Arg>)
    requires Parsed(d) && Suits(d, args) && d.specifier == 'p' && args[ValueAt(d)].bits > 0
    ensures var c := PointerAsked(d, args);
            && (DirectiveText(d, args) == IsoText(c) <==> !Overfilled(c) && Fits(c))
            && (!d.flags.prec ==> DirectiveText(d, args) == IsoText(c))
  {
    hide PointerAsked, DirectiveText, Rendered, IsoText, Fits;
    var c := PointerAsked(d, args);
    PointerIsAsked(d, args);
    PrintIntegerExactly(c);
    if !d.flags.prec {
      ModerateFits(c);
    }
  }

  /** `%.3p` of 1 comes out in 20 characters, where ISO C asks for 18. */
  lemma PointerComesOut()
    ensures var f := NO_FLAGS.(prec := true);
            |PointerText(1, 3, f)| == 20 && |IsoText(IsoPointer(1, Some(3), f))| == 18
  {
  }

  /** A plain `%p`: 0x and sixteen digits. */
  lemma PointerWidth(bits: Slot)
    requires bits > 0
    ensures var n := Numeral(bits, 16, false);
            |n| <= 16 && PointerText(bits, 0, NO_FLAGS) == "0x" + (Rep('0', 16 - |n|) + n)
  {
    hide Numeral, Digits, Rendered;
    var c, n := PointerConversion(bits, 0, NO_FLAGS), Numeral(bits, 16, false);
    PrintIntegerIsIso(c);
    ModerateDigits(c);
    assert IsoDigits(c) == Rep('0', 1 - |n|) + n == n;
    assert IsoZeros(c) == 16 - |n|;
    var u := "0x" + (Rep('0', 16 - |n|) + n);
    assert IsoBody(c) == "" + u == u;
    assert Rep(' ', 0) + u == u;
  }

  /** NULL is named, in its field unless zeros were to fill that. */
  lemma NullsComeOut(width: nat, precision: nat, f: Flags)
    ensures PointerText(0, precision, f) == InField("(nil)", if f.left then 18 else 0, f.left)
    ensures StringText(None, width, precision, f)
         == InField("(null)", if f.left || !f.zeropad then width else 0, f.left)
  {
    assert Rep(' ', -5) == "" && Rep(' ', -6) == "";
    assert "" + "(nil)" == "(nil)" && "" + "(null)" == "(null)";
  }

  /** `%%`, and any character the code does not know, stands for itself. */
  lemma OthersComeOut(d: Directive, args: seq<Arg>)
    requires Suits(d, args) && d.specifier !in "diuxXobcsp"
    ensures DirectiveText(d, args) == [d.specifier]
  {
  }
}
