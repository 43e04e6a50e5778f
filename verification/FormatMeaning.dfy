/** What a whole format means: characters and directives, each directive with arguments of its own. */
module FormatMeaning {
  import opened Basics
  import opened FormatGrammar
  import opened FormatText
  import opened FormatTheorems
  import opened IntegerText
  import opened IsoDirectives
  import opened PrintfText

  /** A character of the format, or a directive and the arguments given for it. */
  datatype Token = Lit(c: char) | Dir(w: Written, args: seq<Arg>)

  /** The directive a text is written for. */
  function Meant(w: Written): (d: Directive)
    ensures Means(d, w)
  {
    var f := Flags('0' in w.flags, '-' in w.flags, '+' in w.flags, ' ' in w.flags, '#' in w.flags, false,
                   w.precision.Some?, false, SizeMeant(w.length));
    Directive(f, w.width, if w.precision.Some? then w.precision.value else Absent, w.specifier)
  }

  /** An int for each star, and then a string for s, nothing for %, and a word for all others. */
  predicate Given(w: Written, args: seq<Arg>) {
    var stars := (if w.width == Star then 1 else 0) + (if w.precision == Some(Star) then 1 else 0);
    && |args| == stars + (if w.specifier == '%' then 0 else 1)
    && (forall i :: 0 <= i < stars ==> args[i].Word?)
    && (w.specifier == 's' ==> args[stars].Str?)
    && (w.specifier != 's' && w.specifier != '%' ==> args[stars].Word?)
  }

  predicate Proper(t: Token) {
    match t
    case Lit(c) => c != '%'
    case Dir(w, args) => Legal(w) && Given(w, args)
  }

  predicate AllProper(ts: seq<Token>) { forall i :: 0 <= i < |ts| ==> Proper(ts[i]) }

  function TokenText(t: Token): string {
    match t
    case Lit(c) => [c]
    case Dir(w, _) => "%" + WrittenText(w)
  }

  /** The format as it is written. */
  function FormatOf(ts: seq<Token>): string { if ts == [] then "" else TokenText(ts[0]) + FormatOf(ts[1..]) }

  /** The arguments, one behind the other. */
  function ArgsOf(ts: seq<Token>): seq<Arg> {
    if ts == [] then [] else (if ts[0].Dir? then ts[0].args else []) + ArgsOf(ts[1..])
  }

  lemma GivenSuits(w: Written, args: seq<Arg>)
    requires Legal(w) && Given(w, args)
    ensures Suits(Meant(w), args) && Uses(Meant(w)) == |args|
  {
    assert IntegerChar(w.specifier) || w.specifier in "csp%";
  }

  /** What is to come out. */
  function Output(ts: seq<Token>): string
    requires AllProper(ts)
  {
    if ts == [] then ""
    else
      var rest := Output(ts[1..]);
      match ts[0]
      case Lit(c) => [c] + rest
      case Dir(w, args) =>
        GivenSuits(w, args);
        DirectiveText(Meant(w), args) + rest
  }

  lemma SuitsMore(d: Directive, a: seq<Arg>, b: seq<Arg>)
    requires Suits(d, a) && Uses(d) == |a|
    ensures Suits(d, a + b) && (a + b)[..Uses(d)] == a && (a + b)[Uses(d)..] == b
  {
    assert forall i :: 0 <= i < |a| ==> (a + b)[i] == a[i];
  }

  lemma MeansMeant(d: Directive, w: Written)
    requires Means(d, w)
    ensures d == Meant(w)
  {
  }

  lemma DirectiveStep(f: string, w: Written, rest: string, own: seq<Arg>, more: seq<Arg>)
    requires f == "%" + WrittenText(w) + rest && Legal(w) && Given(w, own) && Complete(rest) && Supplied(rest, more)
    ensures Suits(Meant(w), own) && Complete(f) && Supplied(f, own + more)
    ensures Formatted(f, own + more) == DirectiveText(Meant(w), own) + Formatted(rest, more)
  {
    hide ParseDirective, WrittenText, Legal, Given, DirectiveText, Suits, Means;
    assert f[0] == '%' && f[1..] == WrittenText(w) + rest;
    DirectiveRead(w, rest);
    var d := ParseDirective(f[1..]).d;
    MeansMeant(d, w);
    GivenSuits(w, own);
    SuitsMore(d, own, more);
    var ps := Pieces(rest, more);
    assert Pieces(f, own + more) == [Item(d, own)] + ps;
    assert ([Item(d, own)] + ps)[1..] == ps;
  }

  lemma CharacterStep(f: string, c: char, rest: string, args: seq<Arg>)
    requires f == [c] + rest && c != '%' && Complete(rest) && Supplied(rest, args)
    ensures Complete(f) && Supplied(f, args) && Formatted(f, args) == [c] + Formatted(rest, args)
  {
    assert f[1..] == rest;
    var ps := Pieces(rest, args);
    assert ([Plain(c)] + ps)[1..] == ps;
  }

  lemma EmptyFormat()
    ensures Complete("") && Supplied("", []) && Formatted("", []) == ""
  {
  }

  /** Every format that is written as characters and directives, with the arguments each directive asks for,
      comes out as the characters and the directives' texts, in order. */
  lemma {:induction false} FormatMeans(ts: seq<Token>)
    requires AllProper(ts)
    ensures var f := FormatOf(ts);
            Complete(f) && Supplied(f, ArgsOf(ts)) && Formatted(f, ArgsOf(ts)) == Output(ts)
  {
    hide Complete, Supplied, Formatted, WrittenText, DirectiveText;
    if ts == [] {
      EmptyFormat();
    } else {
      var rest, more := FormatOf(ts[1..]), ArgsOf(ts[1..]);
      assert forall i :: 0 <= i < |ts[1..]| ==> ts[1..][i] == ts[i + 1];
      FormatMeans(ts[1..]);
      assert Proper(ts[0]);
      match ts[0]
      case Lit(c) =>
        assert [] + more == more;
        CharacterStep(FormatOf(ts), c, rest, more);
      case Dir(w, args) =>
        DirectiveStep(FormatOf(ts), w, rest, args, more);
    }
  }

  /** No directive is one of those where the code and ISO C part. */
  predicate Agrees(t: Token)
    requires Proper(t)
  {
    match t
    case Lit(_) => true
    case Dir(w, args) =>
      GivenSuits(w, args);
      var d := Meant(w);
      if IntegerChar(w.specifier) then !Deviates(d, args)
      else if w.specifier == 's' then args[ValueAt(d)].text.Some? && !StringDeviates(d, args)
      else if w.specifier == 'p' then w.precision.None? && args[ValueAt(d)].bits > 0
      else true
  }

  /** What ISO C asks for. */
  function IsoToken(t: Token): string
    requires Proper(t) && Agrees(t)
  {
    match t
    case Lit(c) => [c]
    case Dir(w, args) =>
      GivenSuits(w, args);
      var d := Meant(w);
      if IntegerChar(w.specifier) then IsoText(Iso(d, args))
      else if w.specifier == 's' then IsoString(d, args)
      else if w.specifier == 'c' then IsoChar(d, args)
      else if w.specifier == 'p' then IsoText(PointerAsked(d, args))
      else "%"
  }

  function IsoOutput(ts: seq<Token>): string
    requires AllProper(ts) && forall i :: 0 <= i < |ts| ==> Agrees(ts[i])
  {
    if ts == [] then "" else IsoToken(ts[0]) + IsoOutput(ts[1..])
  }

  lemma TokenIsIso(w: Written, args: seq<Arg>)
    requires Proper(Dir(w, args)) && Agrees(Dir(w, args))
    ensures Suits(Meant(w), args) && DirectiveText(Meant(w), args) == IsoToken(Dir(w, args))
  {
    hide DirectiveText, IsoText, Deviates, StringDeviates, IsoString, IsoChar, Iso, PointerAsked;
    GivenSuits(w, args);
    var d := Meant(w);
    if IntegerChar(w.specifier) {
      DirectiveExactly(d, args);
    } else if w.specifier == 's' {
      StringExactly(d, args);
    } else if w.specifier == 'c' {
      CharIsIso(d, args);
    } else if w.specifier == 'p' {
      PointerExactly(d, args);
    } else {
      OthersComeOut(d, args);
    }
  }

  lemma {:induction false} OutputIsIso(ts: seq<Token>)
    requires AllProper(ts) && forall i :: 0 <= i < |ts| ==> Agrees(ts[i])
    ensures Output(ts) == IsoOutput(ts)
  {
    hide DirectiveText, Agrees;
    if ts != [] {
      assert forall i :: 0 <= i < |ts[1..]| ==> ts[1..][i] == ts[i + 1];
      OutputIsIso(ts[1..]);
      if ts[0].Dir? {
        TokenIsIso(ts[0].w, ts[0].args);
      }
    }
  }

  /** Then the whole output is that of ISO C. */
  lemma {:induction false} FormatIsIso(ts: seq<Token>)
    requires AllProper(ts) && forall i :: 0 <= i < |ts| ==> Agrees(ts[i])
    ensures Complete(FormatOf(ts)) && Supplied(FormatOf(ts), ArgsOf(ts))
    ensures Formatted(FormatOf(ts), ArgsOf(ts)) == IsoOutput(ts)
  {
    hide Complete, Supplied, Formatted, DirectiveText, IsoToken, Agrees, Proper;
    FormatMeans(ts);
    OutputIsIso(ts);
  }
}
