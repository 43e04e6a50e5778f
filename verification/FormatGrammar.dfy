/** Directives as they are written, and that the loop's parser reads them back. */
module FormatGrammar {
  import opened Basics
  import opened FormatText
  import opened FormatTheorems
  import opened IsoDirectives
  import opened PrintfText

  /** Flags in any order, width, precision behind a point, length, specifier. */
  datatype Written = Written(flags: string, width: Amount, precision: Option<Amount>, length: string, specifier: char)

  predicate IsLength(s: string) {
    || s == "" || s == "h" || s == "hh" || s == "l" || s == "ll" || s == "t" || s == "j" || s == "z"
    || s == "I8" || s == "I16" || s == "I32" || s == "I64"
  }

  predicate IsSpecifier(c: char) { c in "diuxXobcsp%" }

  /** A width is not written with a leading zero, which would be a flag. */
  predicate Legal(w: Written) {
    && (forall i :: 0 <= i < |w.flags| ==> FlagChar(w.flags[i]))
    && (w.width.Number? ==> 0 < w.width.n < U32)
    && (w.precision.Some? && w.precision.value.Number? ==> w.precision.value.n < U32)
    && IsLength(w.length) && IsSpecifier(w.specifier)
  }

  function AmountText(a: Amount): string {
    match a
    case Absent => ""
    case Number(n) => Digits(n, 10, false)
    case Star => "*"
  }

  function EndText(w: Written): string { w.length + [w.specifier] }

  function PointText(w: Written): string {
    (match w.precision
     case None => ""
     case Some(p) => "." + AmountText(p)) + EndText(w)
  }

  function WrittenText(w: Written): string {
    w.flags + (AmountText(w.width) + PointText(w))
  }

  // What is meant by it.

  predicate Occurs(c: char, s: string) { s != "" && (s[0] == c || Occurs(c, s[1..])) }

  lemma {:induction false} OccursMeans(c: char, s: string)
    ensures Occurs(c, s) <==> c in s
  {
    if s != "" {
      OccursMeans(c, s[1..]);
      assert s == [s[0]] + s[1..];
    }
  }

  /** `g` has the flags of `f` and those whose characters occur in `s`. */
  predicate RaisedBy(g: Flags, f: Flags, s: string) {
    && (g.zeropad <==> f.zeropad || Occurs('0', s)) && (g.left <==> f.left || Occurs('-', s))
    && (g.plus <==> f.plus || Occurs('+', s))
    && (g.space <==> f.space || Occurs(' ', s)) && (g.hash <==> f.hash || Occurs('#', s))
    && g.upper == f.upper && g.prec == f.prec && g.pointer == f.pointer && g.size == f.size
  }

  function SizeMeant(s: string): Size {
    if s == "" then NoSize
    else if s == "h" || s == "I16" then Short
    else if s == "hh" || s == "I8" then Char
    else if s == "I32" then Int
    else if s == "ll" then LongLong
    else Long
  }

  /** Every flag is up exactly if it is written. */
  predicate FlagsOf(f: Flags, w: Written) {
    && (f.zeropad <==> '0' in w.flags) && (f.left <==> '-' in w.flags) && (f.plus <==> '+' in w.flags)
    && (f.space <==> ' ' in w.flags) && (f.hash <==> '#' in w.flags) && (f.prec <==> w.precision.Some?)
    && f.size == SizeMeant(w.length) && !f.upper && !f.pointer
  }

  predicate Means(d: Directive, w: Written) {
    && d.width == w.width && d.specifier == w.specifier && FlagsOf(d.flags, w)
    && d.precision == match w.precision case None => Absent case Some(p) => p
  }

  // Reading it back.

  lemma RaisedStep(g: Flags, f: Flags, s: string)
    requires s != "" && IsFlag(s[0]) && RaisedBy(g, SetFlag(s[0], f), s[1..])
    ensures RaisedBy(g, f, s)
  {
  }

  lemma {:induction false} FlagsRead(s: string, t: string, f: Flags)
    requires (forall i :: 0 <= i < |s| ==> FlagChar(s[i])) && !FlagChar(First(t))
    ensures ParseFlags(s + t, f).1 == t && RaisedBy(ParseFlags(s + t, f).0, f, s)
  {
    if s == "" {
      assert s + t == t;
    } else {
      assert (s + t)[0] == s[0] && (s + t)[1..] == s[1..] + t;
      FlagsRead(s[1..], t, SetFlag(s[0], f));
      RaisedStep(ParseFlags(s + t, f).0, f, s);
    }
  }

  lemma NumberRead(n: nat, t: string)
    requires n < U32 && !IsDigit(First(t))
    ensures IsDigit(First(Digits(n, 10, false) + t)) && Atou(Digits(n, 10, false) + t, 0) == (n, t)
  {
    var d := Digits(n, 10, false);
    DigitsAreNumeric(n, false);
    DigitsMean(n, 10, false);
    AtouReads(d, t);
    QuotientUnique(n, U32, 0, n);
    assert (d + t)[0] == d[0];
  }

  lemma AmountRead(a: Amount, t: string)
    requires (a.Number? ==> a.n < U32) && !IsDigit(First(t)) && First(t) != '*'
    ensures ParseAmount(AmountText(a) + t) == (a, t)
  {
    match a
    case Absent => assert "" + t == t;
    case Number(n) => NumberRead(n, t);
    case Star => assert ("*" + t)[1..] == t;
  }

  lemma SingleRead(length: string, f: Flags, c: string)
    requires f.size.NoSize? && IsLength(length) && |length| == 1 && c != "" && IsSpecifier(c[0])
    ensures ParseLength(length + c, f) == Some((f.(size := SizeMeant(length)), c))
  {
    var s := length + c;
    assert s[0] == length[0] && s[1] == c[0] && s[1..] == c;
  }

  lemma DoubleRead(length: string, f: Flags, c: string)
    requires f.size.NoSize? && IsLength(length) && |length| == 2 && length[0] != 'I' && c != ""
    ensures ParseLength(length + c, f) == Some((f.(size := SizeMeant(length)), c))
  {
    var s := length + c;
    assert s[0] == length[0] && s[1] == length[1] && s[2..] == c;
  }

  lemma BitsRead(length: string, f: Flags, c: string)
    requires f.size.NoSize? && IsLength(length) && length != "" && length[0] == 'I' && c != ""
    ensures ParseLength(length + c, f) == Some((f.(size := SizeMeant(length)), c))
  {
    var s := length + c;
    var t := s[1..];
    assert s[0] == 'I' && t[0] == length[1];
    if |length| == 2 {
      assert t[1..] == c;
    } else {
      assert t[1] == length[2] && t[2..] == c;
    }
  }

  lemma NoLengthRead(f: Flags, c: string)
    requires f.size.NoSize? && c != "" && IsSpecifier(c[0])
    ensures ParseLength(c, f) == Some((f, c))
  {
  }

  lemma LengthRead(length: string, f: Flags, c: string)
    requires f.size.NoSize? && IsLength(length) && c != "" && IsSpecifier(c[0])
    ensures ParseLength(length + c, f) == Some((f.(size := SizeMeant(length)), c))
  {
    if length == "" {
      assert length + c == c;
      NoLengthRead(f, c);
    } else if length[0] == 'I' {
      BitsRead(length, f, c);
    } else if |length| == 1 {
      SingleRead(length, f, c);
    } else {
      DoubleRead(length, f, c);
    }
  }

  lemma EndRead(w: Written, f: Flags, width: Amount, p: Amount, t: string)
    requires f.size.NoSize? && IsLength(w.length) && IsSpecifier(w.specifier)
    ensures ParseEnd(f, width, p, EndText(w) + t)
         == Whole(Directive(f.(size := SizeMeant(w.length)), width, p, w.specifier), t)
  {
    var c := [w.specifier] + t;
    assert EndText(w) + t == w.length + c;
    LengthRead(w.length, f, c);
    assert c[1..] == t;
  }

  lemma EndStarts(w: Written, t: string)
    requires IsLength(w.length) && IsSpecifier(w.specifier)
    ensures var c := First(EndText(w) + t); !IsDigit(c) && c != '*' && c != '.' && !IsFlag(c)
  {
    assert First(EndText(w) + t) == if w.length == "" then w.specifier else w.length[0];
  }

  lemma PointRead(w: Written, f: Flags, t: string)
    requires Legal(w) && f.size.NoSize?
    ensures ParsePrecision(f, w.width, PointText(w) + t)
         == match w.precision
            case None => Whole(Directive(f.(size := SizeMeant(w.length)), w.width, Absent, w.specifier), t)
            case Some(p) => Whole(Directive(f.(prec := true, size := SizeMeant(w.length)), w.width, p, w.specifier), t)
  {
    var e := EndText(w) + t;
    EndStarts(w, t);
    match w.precision
    case None =>
      assert PointText(w) + t == e;
      EndRead(w, f, w.width, Absent, t);
    case Some(p) =>
      var s := PointText(w) + t;
      assert s[0] == '.' && s[1..] == AmountText(p) + e;
      AmountRead(p, e);
      EndRead(w, f.(prec := true), w.width, p, t);
  }

  lemma PointStarts(w: Written, t: string)
    requires Legal(w)
    ensures var c := First(PointText(w) + t); !IsDigit(c) && c != '*' && !IsFlag(c)
  {
    EndStarts(w, t);
    if w.precision.None? {
      assert PointText(w) + t == EndText(w) + t;
    } else {
      assert First(PointText(w) + t) == '.';
    }
  }

  lemma WidthStarts(w: Written, t: string)
    requires Legal(w)
    ensures !IsFlag(First(AmountText(w.width) + (PointText(w) + t)))
  {
    var p := PointText(w) + t;
    PointStarts(w, t);
    match w.width
    case Absent => assert "" + p == p;
    case Star => assert ("*" + p)[0] == '*';
    case Number(n) =>
      NoLeadingZero(n, 10, false);
      DigitsAreNumeric(n, false);
      assert (Digits(n, 10, false) + p)[0] == Digits(n, 10, false)[0];
  }

  lemma FlagsWritten(w: Written, f: Flags)
    requires RaisedBy(f, NO_FLAGS, w.flags)
    ensures (f.zeropad <==> '0' in w.flags) && (f.left <==> '-' in w.flags) && (f.plus <==> '+' in w.flags)
    ensures (f.space <==> ' ' in w.flags) && (f.hash <==> '#' in w.flags)
  {
    hide Occurs;
    OccursMeans('0', w.flags);
    OccursMeans('-', w.flags);
    OccursMeans('+', w.flags);
    OccursMeans(' ', w.flags);
    OccursMeans('#', w.flags);
  }

  /** The parser reads every directive back as what was meant, and stops behind it. */
  lemma DirectiveRead(w: Written, t: string)
    requires Legal(w)
    ensures var r := ParseDirective(WrittenText(w) + t); r.Whole? && r.rest == t && Means(r.d, w)
  {
    var p := PointText(w) + t;
    var a := AmountText(w.width) + p;
    assert WrittenText(w) + t == w.flags + a;
    WidthStarts(w, t);
    FlagsRead(w.flags, a, NO_FLAGS);
    PointStarts(w, t);
    AmountRead(w.width, p);
    PointRead(w, ParseFlags(w.flags + a, NO_FLAGS).0, t);
    FlagsWritten(w, ParseFlags(w.flags + a, NO_FLAGS).0);
  }
}
