/**
 * Formats that end inside a directive. The loop looks for the terminator only behind the characters it
 * steps over with the advance macro; a format that ends elsewhere makes it step over the terminator.
 */
module FormatEnds {
  import opened Basics
  import opened FormatText
  import opened FormatTheorems
  import opened IsoDirectives
  import opened PrintfText

  // What can stand behind the last `%` when no specifier does.

  predicate AllFlags(s: string) { forall i :: 0 <= i < |s| ==> FlagChar(s[i]) }

  /** A width or a precision: digits, if any, or a star. */
  predicate Field(s: string) { s == "*" || Numeric(s) }

  predicate Point(s: string) { s == "" || (s[0] == '.' && Field(s[1..])) }

  predicate OneChar(c: char) { c == 'I' || c == 'h' || c == 'l' || c == 't' || c == 'j' || c == 'z' }

  predicate TwoChars(c: char, d: char) {
    (c == 'I' && (d == '8' || d == '1' || d == '3' || d == '6')) || ((c == 'h' || c == 'l') && d == c)
  }

  predicate SizeChars(d: char, e: char) { (d == '1' && e == '6') || (d == '3' && e == '2') || (d == '6' && e == '4') }

  /** A length modifier, or the beginning of one. */
  predicate LengthStart(s: string) {
    || s == ""
    || (|s| == 1 && OneChar(s[0]))
    || (|s| == 2 && TwoChars(s[0], s[1]))
    || (|s| == 3 && s[0] == 'I' && SizeChars(s[1], s[2]))
  }

  datatype Ending = Ending(flags: string, width: string, point: string, length: string)

  predicate Unfinished(t: Ending) {
    AllFlags(t.flags) && Field(t.width) && Point(t.point) && LengthStart(t.length)
  }

  function BodyOf(t: Ending): string { t.flags + t.width + t.point }

  function EndingText(t: Ending): string { t.flags + (t.width + (t.point + t.length)) }

  function LastOf(s: string): char { if s == "" then '\0' else s[|s| - 1] }

  /** The end is not looked for behind flags and digits, and behind the size 16. */
  predicate RunsOn(t: Ending) {
    || (t.length == "" && BodyOf(t) != "" && LastOf(BodyOf(t)) != '*' && LastOf(BodyOf(t)) != '.')
    || (|t.length| == 3 && t.length[1] == '1')
  }

  // What the parser makes of it.

  lemma FlagCharIs(c: char)
    ensures FlagChar(c) <==> IsFlag(c)
  {
  }

  lemma {:induction false} FlagsSkip(v: string, x: string, f: Flags) returns (g: Flags)
    requires AllFlags(v)
    ensures ParseFlags(v + x, f) == ParseFlags(x, g)
  {
    g := f;
    if v == "" {
      assert v + x == x;
    } else {
      assert (v + x)[0] == v[0] && (v + x)[1..] == v[1..] + x;
      g := FlagsSkip(v[1..], x, SetFlag(v[0], f));
    }
  }

  lemma {:induction false} AtouRest(y: string, i: nat)
    requires i < U32
    ensures Atou(y, i).1 == Atou(y, 0).1
  {
    if IsDigit(First(y)) {
      AtouRest(y[1..], (i * 10 + (y[0] as nat - '0' as nat)) % U32);
      AtouRest(y[1..], (0 * 10 + (y[0] as nat - '0' as nat)) % U32);
    }
  }

  lemma {:induction false} AtouSkip(d: string, y: string, i: nat)
    requires i < U32 && Numeric(d)
    ensures Atou(d + y, i).1 == Atou(y, 0).1
  {
    if d == "" {
      assert d + y == y;
      AtouRest(y, i);
    } else {
      assert (d + y)[0] == d[0] && (d + y)[1..] == d[1..] + y;
      AtouSkip(d[1..], y, (i * 10 + (d[0] as nat - '0' as nat)) % U32);
    }
  }

  lemma FieldRead(s: string, y: string)
    requires Field(s) && !IsDigit(First(y)) && (s == "" ==> First(y) != '*')
    ensures ParseAmount(s + y).1 == y && (ParseAmount(s + y).0.Star? <==> s == "*")
  {
    if s == "" {
      assert s + y == y;
    } else {
      assert (s + y)[0] == s[0] && (s + y)[1..] == s[1..] + y;
      if s != "*" {
        AtouSkip(s, y, 0);
      } else {
        assert s[1..] + y == y;
      }
    }
  }

  /** The zeros in front of a width are flags to the parser. */
  lemma {:induction false} WidthRead(s: string, y: string, f: Flags) returns (a: Amount)
    requires Field(s) && !IsDigit(First(y)) && First(y) != '*' && !IsFlag(First(y))
    ensures ParseAmount(ParseFlags(s + y, f).1) == (a, y) && (a.Star? <==> s == "*")
  {
    if s != "" && s[0] == '0' {
      assert (s + y)[0] == s[0] && (s + y)[1..] == s[1..] + y;
      a := WidthRead(s[1..], y, SetFlag('0', f));
    } else {
      assert First(s + y) == if s == "" then First(y) else s[0] by {
        assert s == "" ==> s + y == y;
      }
      FieldRead(s, y);
      a := ParseAmount(s + y).0;
    }
  }

  lemma LengthEnds(f: Flags, w: Amount, p: Amount, s: string)
    requires LengthStart(s)
    ensures var r := ParseEnd(f, w, p, s);
            if s == "" || (|s| == 3 && s[1] == '1') then r.Overrun? else r.Stop?
  {
  }

  lemma PointEnds(f: Flags, w: Amount, point: string, length: string)
    requires Point(point) && LengthStart(length)
    ensures var r := ParsePrecision(f, w, point + length);
            if length != "" then (if |length| == 3 && length[1] == '1' then r.Overrun? else r.Stop?)
            else if point == "" || (LastOf(point) != '*' && LastOf(point) != '.') then r.Overrun? else r.Stop?
  {
    if point == "" {
      assert point + length == length;
      LengthEnds(f, w, Absent, length);
    } else {
      var s := point + length;
      assert s[0] == '.' && s[1..] == point[1..] + length;
      FieldRead(point[1..], length);
      var p := ParseAmount(s[1..]).0;
      LengthEnds(f.(prec := true), w, p, length);
      assert LastOf(point) == if |point| == 1 then '.' else LastOf(point[1..]);
      assert point[1..] != "" && point[1..] != "*" ==> IsDigit(LastOf(point[1..]));
    }
  }

  lemma EndingBody(t: Ending)
    ensures t.point != "" ==> LastOf(BodyOf(t)) == LastOf(t.point)
    ensures t.point == "" && t.width != "" ==> LastOf(BodyOf(t)) == LastOf(t.width)
    ensures t.point == "" && t.width == "" ==> LastOf(BodyOf(t)) == LastOf(t.flags)
  {
  }

  /** An unfinished directive makes the loop step over the terminator, or return at it. */
  lemma EndingParsed(t: Ending)
    requires Unfinished(t)
    ensures if RunsOn(t) then ParseDirective(EndingText(t)).Overrun? else ParseDirective(EndingText(t)).Stop?
  {
    hide FlagChar;
    var s, y := EndingText(t), t.point + t.length;
    EndingBody(t);
    if s != "" {
      var g := FlagsSkip(t.flags, t.width + y, NO_FLAGS);
      assert First(y) == if t.point != "" then '.' else First(t.length);
      var a := WidthRead(t.width, y, g);
      PointEnds(ParseFlags(s, NO_FLAGS).0, a, t.point, t.length);
      assert t.width != "" && t.width != "*" ==> IsDigit(LastOf(t.width));
      if t.flags != "" {
        FlagCharIs(LastOf(t.flags));
      }
    }
  }

  // And nothing else.

  lemma {:induction false} FlagsTaken(s: string, f: Flags) returns (v: string)
    ensures AllFlags(v) && s == v + ParseFlags(s, f).1 && !IsFlag(First(ParseFlags(s, f).1))
  {
    v := "";
    if IsFlag(First(s)) {
      v := FlagsTaken(s[1..], SetFlag(s[0], f));
      v := [s[0]] + v;
    }
  }

  lemma {:induction false} DigitsTaken(s: string, i: nat) returns (v: string)
    requires i < U32
    ensures Numeric(v) && s == v + Atou(s, i).1
  {
    v := "";
    if IsDigit(First(s)) {
      v := DigitsTaken(s[1..], (i * 10 + (s[0] as nat - '0' as nat)) % U32);
      v := [s[0]] + v;
    }
  }

  lemma FieldTaken(s: string) returns (v: string)
    ensures Field(v) && s == v + ParseAmount(s).1 && (ParseAmount(s).0.Star? <==> v == "*")
  {
    v := "";
    if IsDigit(First(s)) {
      v := DigitsTaken(s, 0);
    } else if First(s) == '*' {
      v := "*";
    }
  }

  lemma LengthTaken(f: Flags, w: Amount, p: Amount, s: string)
    requires !ParseEnd(f, w, p, s).Whole?
    ensures LengthStart(s)
  {
  }

  lemma PointTaken(f: Flags, w: Amount, s: string) returns (point: string, length: string)
    requires !ParsePrecision(f, w, s).Whole?
    ensures Point(point) && LengthStart(length) && s == point + length
  {
    if First(s) != '.' {
      point, length := "", s;
      LengthTaken(f, w, Absent, s);
    } else {
      var v := FieldTaken(s[1..]);
      point, length := "." + v, ParseAmount(s[1..]).1;
      assert point[1..] == v && s == point + length;
      if |s| > 1 && !(ParseAmount(s[1..]).0.Star? && length == "") {
        LengthTaken(f.(prec := true), w, ParseAmount(s[1..]).0, length);
      } else if |s| == 1 {
        assert length == "";
      }
    }
  }

  lemma EndingTaken(s: string) returns (t: Ending)
    requires !ParseDirective(s).Whole?
    ensures Unfinished(t) && EndingText(t) == s
  {
    t := Ending("", "", "", "");
    if s != "" {
      var v := FlagsTaken(s, NO_FLAGS);
      var (f, x) := ParseFlags(s, NO_FLAGS);
      var d := FieldTaken(x);
      var (w, y) := ParseAmount(x);
      if w.Star? && y == "" {
        t := Ending(v, d, "", "");
        assert d + ("" + "") == x;
      } else {
        var p, l := PointTaken(f, w, y);
        t := Ending(v, d, p, l);
      }
    }
  }

  /** The text behind the last `%` is flags, a width and a precision, not ending in a star or a point, or
      anything unfinished that ends in I16. */
  ghost predicate StepsOver(s: string) {
    exists t :: Unfinished(t) && EndingText(t) == s && RunsOn(t)
  }

  lemma OverrunExactly(s: string)
    ensures ParseDirective(s).Overrun? <==> StepsOver(s)
  {
    if ParseDirective(s).Overrun? {
      var t := EndingTaken(s);
      EndingParsed(t);
    }
    if t :| Unfinished(t) && EndingText(t) == s && RunsOn(t) {
      EndingParsed(t);
    }
  }

  /** Any other unfinished directive makes the loop return. */
  ghost predicate StopsShort(s: string) {
    exists t :: Unfinished(t) && EndingText(t) == s && !RunsOn(t)
  }

  lemma StopExactly(s: string)
    ensures ParseDirective(s).Stop? <==> StopsShort(s)
  {
    if ParseDirective(s).Stop? {
      var t := EndingTaken(s);
      EndingParsed(t);
    }
    if t :| Unfinished(t) && EndingText(t) == s && !RunsOn(t) {
      EndingParsed(t);
    }
  }

  // Whole formats: up to the unfinished directive everything is complete.

  lemma FieldGoesOn(s: string, y: string)
    requires Field(s)
    ensures |ParseAmount(s + y).1| <= |y|
  {
    if s == "" {
      assert s + y == y;
    } else {
      assert (s + y)[0] == s[0] && (s + y)[1..] == s[1..] + y;
      if s != "*" {
        AtouSkip(s, y, 0);
      } else {
        assert s[1..] + y == y;
      }
    }
  }

  lemma {:induction false} WidthGoesOn(s: string, y: string, f: Flags)
    requires Field(s)
    ensures |ParseAmount(ParseFlags(s + y, f).1).1| <= |y|
  {
    if s == "" {
      assert s + y == y;
    } else {
      assert (s + y)[0] == s[0] && (s + y)[1..] == s[1..] + y;
      if s[0] == '0' {
        WidthGoesOn(s[1..], y, SetFlag('0', f));
      } else {
        FieldGoesOn(s, y);
      }
    }
  }

  lemma LengthGoesOn(s: string, y: string, f: Flags)
    requires LengthStart(s) && s != ""
    ensures ParseLength(s + y, f).Some? ==> |ParseLength(s + y, f).value.1| <= |y|
  {
    assert forall i :: 0 <= i < |s| ==> (s + y)[i] == s[i];
  }

  lemma PointGoesOn(f: Flags, w: Amount, point: string, length: string, y: string)
    requires Point(point) && LengthStart(length) && point + length != ""
    ensures var r := ParsePrecision(f, w, point + (length + y)); r.Whole? ==> |r.rest| < |y|
  {
    var z := length + y;
    if length != "" {
      LengthGoesOn(length, y, f);
      LengthGoesOn(length, y, f.(prec := true));
      assert First(z) == length[0];
    } else {
      assert z == y;
    }
    if point == "" {
      assert point + z == z;
    } else {
      assert (point + z)[0] == '.' && (point + z)[1..] == point[1..] + z;
      if length != "" {
        FieldRead(point[1..], z);
      } else {
        FieldGoesOn(point[1..], z);
      }
    }
  }

  /** A directive that is unfinished so far takes at least one character of what follows. */
  lemma UnfinishedGoesOn(t: Ending, y: string)
    requires Unfinished(t)
    ensures var r := ParseDirective(EndingText(t) + y); r.Whole? ==> |r.rest| < |y|
  {
    hide FlagChar, Numeric;
    var z := t.point + (t.length + y);
    var s := EndingText(t) + y;
    assert s == t.flags + (t.width + z);
    var g := FlagsSkip(t.flags, t.width + z, NO_FLAGS);
    if t.point + t.length == "" {
      assert z == y;
      WidthGoesOn(t.width, y, g);
    } else {
      assert First(z) == if t.point != "" then '.' else t.length[0];
      var a := WidthRead(t.width, z, g);
      PointGoesOn(ParseFlags(s, NO_FLAGS).0, a, t.point, t.length, y);
    }
  }

  lemma LengthSplits(s: string, f: Flags) returns (v: string)
    requires ParseLength(s, f).Some?
    ensures s == v + ParseLength(s, f).value.1
  {
    v := s[..|s| - |ParseLength(s, f).value.1|];
  }

  lemma EndSplits(f: Flags, w: Amount, p: Amount, s: string) returns (v: string)
    requires ParseEnd(f, w, p, s).Whole?
    ensures s == v + ParseEnd(f, w, p, s).rest
  {
    v := LengthSplits(s, f);
    var t := ParseLength(s, f).value.1;
    v := v + [t[0]];
    assert t == [t[0]] + t[1..];
  }

  lemma Joined(a: string, b: string, c: string, d: string)
    ensures a + (b + (c + d)) == a + b + c + d
  {
  }

  lemma PointSplits(f: Flags, w: Amount, s: string) returns (v: string)
    requires ParsePrecision(f, w, s).Whole?
    ensures s == v + ParsePrecision(f, w, s).rest
  {
    hide ParseAmount, ParseEnd;
    if First(s) != '.' {
      v := EndSplits(f, w, Absent, s);
    } else {
      var u := FieldTaken(s[1..]);
      var (p, t) := ParseAmount(s[1..]);
      v := EndSplits(f.(prec := true), w, p, t);
      Joined(".", u, v, ParsePrecision(f, w, s).rest);
      assert s == "." + s[1..];
      v := "." + u + v;
    }
  }

  lemma DirectiveTaken(s: string) returns (v: string)
    requires ParseDirective(s).Whole?
    ensures s == v + ParseDirective(s).rest
  {
    hide ParseFlags, ParseAmount, ParsePrecision;
    var u := FlagsTaken(s, NO_FLAGS);
    var (f, x) := ParseFlags(s, NO_FLAGS);
    var d := FieldTaken(x);
    var (w, y) := ParseAmount(x);
    v := PointSplits(f, w, y);
    Joined(u, d, v, ParseDirective(s).rest);
    v := u + d + v;
  }

  /** A directive is a text of its own, with what follows behind it. */
  lemma DirectiveSplits(s: string) returns (v: string)
    requires ParseDirective(s).Whole?
    ensures s == v + ParseDirective(s).rest
    ensures ParseDirective(v) == ParseDirective(s).(rest := "")
  {
    hide ParseDirective, Unfinished, EndingText;
    v := DirectiveTaken(s);
    var rest := ParseDirective(s).rest;
    if !ParseDirective(v).Whole? {
      var t := EndingTaken(v);
      UnfinishedGoesOn(t, rest);
    } else {
      DirectiveAppend(v, rest);
    }
  }

  /** Position `k` is the `%` of a directive with no end, and all before it is complete. */
  predicate OpenAt(f: string, k: nat) {
    k < |f| && f[k] == '%' && Complete(f[..k]) && !ParseDirective(f[k + 1..]).Whole?
  }

  lemma OpenBehindPlain(f: string, j: nat)
    requires f != "" && f[0] != '%' && OpenAt(f[1..], j)
    ensures OpenAt(f, j + 1)
  {
    hide ParseDirective;
    assert f[..j + 1][1..] == f[1..][..j] && f[j + 2..] == f[1..][j + 1..];
  }

  lemma OpenBehindDirective(f: string, v: string, rest: string, j: nat)
    requires f == "%" + (v + rest) && ParseDirective(v).Whole? && ParseDirective(v).rest == "" && OpenAt(rest, j)
    ensures OpenAt(f, 1 + |v| + j)
  {
    hide ParseDirective;
    var k := 1 + |v| + j;
    assert f[..k] == "%" + (v + rest[..j]) && f[..k][1..] == v + rest[..j] && f[k + 1..] == rest[j + 1..];
    DirectiveAppend(v, rest[..j]);
    assert "" + rest[..j] == rest[..j];
  }

  lemma {:induction false} FindOpen(f: string) returns (k: nat)
    requires !Complete(f)
    ensures OpenAt(f, k)
    decreases |f|
  {
    hide ParseDirective;
    k := 0;
    if f[0] != '%' {
      var j := FindOpen(f[1..]);
      OpenBehindPlain(f, j);
      k := j + 1;
    } else if ParseDirective(f[1..]).Whole? {
      var rest := ParseDirective(f[1..]).rest;
      var v := DirectiveSplits(f[1..]);
      assert f == "%" + (v + rest);
      var j := FindOpen(rest);
      OpenBehindDirective(f, v, rest, j);
      k := 1 + |v| + j;
    } else {
      assert f[..0] == "";
    }
  }

  lemma OpenDecides(f: string, k: nat)
    requires OpenAt(f, k)
    ensures !Complete(f) && (Contained(f) <==> ParseDirective(f[k + 1..]).Stop?)
  {
    hide ParseDirective;
    var g := f[k..];
    assert f == f[..k] + g && g[0] == '%' && g[1..] == f[k + 1..];
    CompleteFormatsCompose(f[..k], g);
  }

  lemma {:induction false} CompleteIsContained(f: string)
    requires Complete(f)
    ensures Contained(f)
    decreases |f|
  {
    hide ParseDirective;
    if f != "" {
      if f[0] != '%' {
        CompleteIsContained(f[1..]);
      } else {
        CompleteIsContained(ParseDirective(f[1..]).rest);
      }
    }
  }

  ghost predicate OverrunAt(f: string, k: nat) { k < |f| && f[k] == '%' && Complete(f[..k]) && StepsOver(f[k + 1..]) }
  ghost predicate StopAt(f: string, k: nat) { k < |f| && f[k] == '%' && Complete(f[..k]) && StopsShort(f[k + 1..]) }

  lemma UnfinishedAt(f: string, k: nat)
    requires k < |f| && f[k] == '%' && Complete(f[..k])
    ensures OpenAt(f, k) && ParseDirective(f[k + 1..]).Overrun? <==> OverrunAt(f, k)
    ensures OpenAt(f, k) && ParseDirective(f[k + 1..]).Stop? <==> StopAt(f, k)
  {
    hide ParseDirective, StepsOver, StopsShort, Complete;
    OverrunExactly(f[k + 1..]);
    StopExactly(f[k + 1..]);
  }

  /** The loop steps over the terminator if and only if the format is a complete one, a `%`, and a text that
      breaks off behind flags or digits, or in I16. */
  lemma ContainedExactly(f: string)
    ensures !Contained(f) <==> exists k: nat :: OverrunAt(f, k)
  {
    hide ParseDirective, StepsOver, Complete, Contained;
    if !Contained(f) {
      if Complete(f) {
        CompleteIsContained(f);
      }
      var k := FindOpen(f);
      OpenDecides(f, k);
      UnfinishedAt(f, k);
    }
    if k: nat :| OverrunAt(f, k) {
      UnfinishedAt(f, k);
      OpenDecides(f, k);
    }
  }

  /** `%5` and `%I16` make it do so. */
  lemma WidthRunsOn()
    ensures !Contained("%5")
  {
    assert "%5"[1..] == "5" && "5"[1..] == "";
  }

  lemma SizeRunsOn()
    ensures !Contained("%I16")
  {
    assert "%I16"[1..] == "I16" && "I16"[1..] == "16" && "16"[2..] == "";
  }

  /** It returns early, at the terminator, if and only if the text breaks off anywhere else. */
  lemma EarlyReturnExactly(f: string)
    ensures Contained(f) && !Complete(f) <==> exists k: nat :: StopAt(f, k)
  {
    hide ParseDirective, StopsShort, Complete, Contained;
    if Contained(f) && !Complete(f) {
      var k := FindOpen(f);
      OpenDecides(f, k);
      UnfinishedAt(f, k);
    }
    if k: nat :| StopAt(f, k) {
      UnfinishedAt(f, k);
      OpenDecides(f, k);
    }
  }
}
