/** format_string_loop: the text of FormatText, put into a gadget character by character. */
module FormatLoop {
  import opened Basics
  import opened FormatText
  import opened Gadgets
  import opened IntegerPrinter
  import opened IntegerText
  import opened PrintfText

  /** The character a pointer into a C string sees. */
  function At(f: CString, i: nat): char
    requires i <= |f|
  {
    if i < |f| then f[i] else '\0'
  }

  lemma Tail(f: CString, i: nat)
    requires i <= |f|
    ensures First(f[i..]) == At(f, i)
    ensures i < |f| ==> f[i..][1..] == f[i + 1..] && At(f, i) != '\0'
  {
  }

  /** atou_. */
  method ReadNumber(f: CString, start: nat) returns (n: nat, i: nat)
    requires start <= |f|
    ensures start <= i <= |f| && n < U32 && Atou(f[start..], 0) == (n, f[i..])
  {
    n, i := 0, start;
    while IsDigit(At(f, i))
      invariant start <= i <= |f| && n < U32
      invariant Atou(f[start..], 0) == Atou(f[i..], n)
      decreases |f| - i
    {
      Tail(f, i);
      n := (n * 10 + (f[i] as nat - '0' as nat)) % U32;
      i := i + 1;
    }
    Tail(f, i);
  }

  /** parse_flags. */
  method ReadFlags(f: CString, start: nat) returns (flags: Flags, i: nat)
    requires start <= |f|
    ensures start <= i <= |f| && ParseFlags(f[start..], NO_FLAGS) == (flags, f[i..])
  {
    flags, i := NO_FLAGS, start;
    while IsFlag(At(f, i))
      invariant start <= i <= |f|
      invariant ParseFlags(f[start..], NO_FLAGS) == ParseFlags(f[i..], flags)
      decreases |f| - i
    {
      Tail(f, i);
      flags := SetFlag(f[i], flags);
      i := i + 1;
    }
    Tail(f, i);
  }

  /** The width field. */
  method ReadWidth(f: CString, start: nat, args: seq<Arg>)
    returns (stop: bool, width: nat, leftward: bool, i: nat, used: nat)
    requires start <= |f| && Words(args, StarCount(ParseAmount(f[start..]).0))
    ensures stop ==> i == |f|
    ensures var (a, rest) := ParseAmount(f[start..]);
            && stop == (a.Star? && rest == "")
            && start <= i <= |f|
            && used == StarCount(a)
            && width == Abs(StarWidth(a, args)) < U32
            && leftward == (StarWidth(a, args) < 0)
            && (!stop ==> f[i..] == rest)
  {
    stop, width, leftward, i, used := false, 0, false, start, 0;
    Tail(f, i);
    if IsDigit(At(f, i)) {
      width, i := ReadNumber(f, i);
    } else if At(f, i) == '*' {
      var w := Signed(args[0].bits, U32);
      used := 1;
      if w < 0 {
        leftward := true;
        width := -w;
      } else {
        width := w;
      }
      i := i + 1;
      stop := i == |f|;
    }
  }

  /** The precision field. */
  method ReadPrecision(f: CString, start: nat, args: seq<Arg>)
    returns (stop: bool, precision: nat, i: nat, used: nat)
    requires start <= |f| && Words(args, StarCount(ParseAmount(f[start..]).0))
    ensures stop ==> i == |f|
    ensures var (a, rest) := ParseAmount(f[start..]);
            && stop == (a.Star? && rest == "")
            && start <= i <= |f|
            && used == StarCount(a)
            && precision == Max(StarWidth(a, args), 0) < U32
            && (!stop ==> f[i..] == rest)
  {
    stop, precision, i, used := false, 0, start, 0;
    Tail(f, i);
    if IsDigit(At(f, i)) {
      precision, i := ReadNumber(f, i);
    } else if At(f, i) == '*' {
      var p := Signed(args[0].bits, U32);
      used := 1;
      precision := if p > 0 then p else 0;
      i := i + 1;
      stop := i == |f|;
    }
  }

  lemma Second(f: CString, i: nat)
    requires i < |f|
    ensures |f[i..]| == |f| - i && f[i..][0] == f[i] && f[i..][1..] == f[i + 1..]
    ensures i + 1 < |f| ==> f[i..][1] == f[i + 1] && f[i..][2..] == f[i + 2..]
  {
  }

  /** A modifier that may come doubled. */
  method ReadTwice(f: CString, start: nat, c: char, once: Flags, twice: Flags) returns (stop: bool, g: Flags, i: nat)
    requires start < |f|
    ensures stop ==> i == |f|
    ensures start <= i <= |f|
    ensures ParseTwice(f[start..], c, once, twice) == if stop then None else Some((g, f[i..]))
  {
    Second(f, start);
    stop, g, i := false, once, start + 1;
    if i == |f| { stop := true; return; }
    if f[i] == c {
      g := twice;
      i := i + 1;
      stop := i == |f|;
    }
  }

  method ReadPair(f: CString, start: nat, second: char, flags: Flags, sized: Flags, checked: bool)
    returns (stop: bool, g: Flags, i: nat)
    requires start < |f|
    ensures stop ==> i == |f|
    ensures start <= i <= |f|
    ensures ParsePair(f[start..], second, flags, sized, checked) == if stop then None else Some((g, f[i..]))
  {
    Second(f, start);
    stop, g, i := false, flags, start + 1;
    if i == |f| { stop := true; return; }
    if f[i] == second {
      i := i + 1;
      g := sized;
      stop := checked && i == |f|;
    }
  }

  /** The sizes behind an I. */
  method ReadBits(f: CString, start: nat, flags: Flags) returns (stop: bool, g: Flags, i: nat)
    requires start < |f|
    ensures stop ==> i == |f|
    ensures start <= i <= |f|
    ensures ParseBits(f[start..], flags) == if stop then None else Some((g, f[i..]))
  {
    stop, g, i := false, flags, start;
    Second(f, i);
    match f[i]
    case '8' =>
      g := g.(size := Char);
      i := i + 1;
      stop := i == |f|;
    case '1' => stop, g, i := ReadPair(f, i, '6', flags, flags.(size := Short), false);
    case '3' => stop, g, i := ReadPair(f, i, '2', flags, flags.(size := Int), true);
    case '6' => stop, g, i := ReadPair(f, i, '4', flags, flags.(size := Long), true);
    case _ =>
  }

  /** The length field. */
  method ReadLength(f: CString, start: nat, flags: Flags) returns (stop: bool, g: Flags, i: nat)
    requires start <= |f|
    ensures stop ==> i == |f|
    ensures start <= i <= |f|
    ensures ParseLength(f[start..], flags) == if stop then None else Some((g, f[i..]))
  {
    stop, g, i := false, flags, start;
    Tail(f, i);
    if i == |f| { return; }
    Second(f, i);
    match f[i]
    case 'I' =>
      i := i + 1;
      if i == |f| { stop := true; return; }
      stop, g, i := ReadBits(f, i, flags);
    case 'l' => stop, g, i := ReadTwice(f, i, 'l', flags.(size := Long), flags.(size := LongLong));
    case 'h' => stop, g, i := ReadTwice(f, i, 'h', flags.(size := Short), flags.(size := Char));
    case 't' =>
      g := g.(size := Long);
      i := i + 1;
      stop := i == |f|;
    case 'j' =>
      g := g.(size := Long);
      i := i + 1;
      stop := i == |f|;
    case 'z' =>
      g := g.(size := Long);
      i := i + 1;
      stop := i == |f|;
    case _ =>
  }

  /** The argument as the directive reads it. */
  method ReadInteger(c: char, f: Flags, bits: Slot) returns (v: int)
    requires IsInteger(c)
    ensures v == IntegerValue(c, f, bits)
  {
    if c == 'd' || c == 'i' {
      if f.size.LongLong? {
        v := Signed(bits, U64);
      } else if f.size.Long? {
        v := Signed(bits, U64);
      } else {
        v := if f.size.Char? then Signed(bits, 256) else if f.size.Short? then Signed(bits, U16) else Signed(bits, U32);
      }
    } else {
      if f.size.LongLong? {
        v := bits;
      } else if f.size.Long? {
        v := bits;
      } else {
        v := if f.size.Char? then bits % 256 else if f.size.Short? then bits % U16 else bits % U32;
      }
    }
  }

  method PutInteger(g: Gadget, c: char, f: Flags, width: nat, precision: nat, bits: Slot)
    requires g.Valid() && IsInteger(c) && width < U32
    modifies g, g.buffer
    ensures g.Valid() && g.out == old(g.out) + Rendered(IntegerConversion(c, f, width, precision, bits))
  {
    var base := 10;
    if c == 'x' || c == 'X' {
      base := 16;
    } else if c == 'o' {
      base := 8;
    } else if c == 'b' {
      base := 2;
    }
    var v := ReadInteger(c, f, bits);
    PrintInteger(g, Conversion(Abs(v), v < 0, base, precision, width, IntegerFlags(c, f)));
  }

  method PutChar(g: Gadget, bits: Slot, width: nat, left: bool)
    requires g.Valid()
    modifies g, g.buffer
    ensures g.Valid() && g.out == old(g.out) + CharText(bits, width, left)
  {
    if !left {
      PadBefore(g, 1, width);
    }
    g.Put((bits % 256) as char);
    if left {
      PadBefore(g, 1, width);
    }
  }

  /** strnlen_s_. */
  method StrNLen(s: CString, limit: nat) returns (n: nat)
    ensures n == Min(|s|, limit)
  {
    n := 0;
    var left := limit;
    while At(s, n) != '\0' && left > 0
      invariant n <= |s| && n + left == limit
      decreases left
    {
      left := left - 1;
      n := n + 1;
    }
  }

  /** The characters of a string, as many as the precision allows. */
  method PutString(g: Gadget, s: CString, precision: nat, limited: bool)
    requires g.Valid() && precision < U32
    modifies g, g.buffer
    ensures g.Valid() && g.out == old(g.out) + (if limited then s[..Min(|s|, precision)] else s)
  {
    ghost var before := g.out;
    var i, p := 0, precision;
    while At(s, i) != '\0' && (!limited || p != 0)
      invariant 0 <= i <= |s| && 0 <= p < U32
      invariant limited ==> p + i == precision
      invariant g.Valid() && g.out == before + s[..i]
      decreases |s| - i
    {
      assert s[..i + 1] == s[..i] + [s[i]];
      g.Put(s[i]);
      i := i + 1;
      p := if p == 0 then U32 - 1 else p - 1;
    }
    assert i < |s| ==> s[i] != '\0';
    assert s[..|s|] == s;
  }

  /** `%s` with a string. */
  method PutText(g: Gadget, s: CString, width: nat, precision: nat, f: Flags)
    requires g.Valid() && precision < U32
    modifies g, g.buffer
    ensures g.Valid() && g.out == old(g.out) + StringText(Some(s), width, precision, f)
  {
    hide Rep;
    var l := StrNLen(s, if precision != 0 then precision else INT_MAX);
    if f.prec {
      l := if l < precision then l else precision;
    }
    if !f.left {
      PadBefore(g, l, width);
    }
    PutString(g, s, precision, f.prec);
    if f.left {
      PadBefore(g, l, width);
    }
  }

  /** A constant text given backwards. */
  method PutConstant(g: Gadget, backwards: string, width: nat, f: Flags)
    requires g.Valid() && |backwards| < U32 && width < U32
    modifies g, g.buffer
    ensures g.Valid() && g.out == old(g.out) + Placed(Reverse(backwards), width, f)
  {
    var buf := new char[|backwards|](i requires 0 <= i < |backwards| => backwards[i]);
    assert buf[..|backwards|] == backwards;
    OutRev(g, buf, |backwards|, width, f);
  }

  method PutPointer(g: Gadget, bits: Slot, precision: nat, f: Flags)
    requires g.Valid()
    modifies g, g.buffer
    ensures g.Valid() && g.out == old(g.out) + PointerText(bits, precision, f)
  {
    var flags := f.(zeropad := true, pointer := true);
    if bits == 0 {
      assert Reverse(")lin(") == "(nil)";
      PutConstant(g, ")lin(", PTR_WIDTH, flags);
    } else {
      PrintInteger(g, Conversion(bits, false, 16, precision, PTR_WIDTH, flags));
    }
  }

  /** The specifier of a directive, its fields evaluated. */
  method PutDirective(g: Gadget, ghost d: Directive, args: seq<Arg>, c: char, f: Flags, width: nat, precision: nat,
                      k: nat)
    requires g.Valid() && Suits(d, args) && c == d.specifier && k == Stars(d)
    requires width == Width(d, args) < U32 && precision == Precision(d, args) < U32 && f == DirectiveFlags(d, args)
    modifies g, g.buffer
    ensures g.Valid() && g.out == old(g.out) + DirectiveText(d, args)
  {
    if IsInteger(c) {
      PutInteger(g, c, f, width, precision, args[k].bits);
    } else if c == 'c' {
      PutChar(g, args[k].bits, width, f.left);
    } else if c == 's' {
      match args[k].text
      case None =>
        assert Reverse(")llun(") == "(null)";
        PutConstant(g, ")llun(", width, f);
      case Some(s) => PutText(g, s, width, precision, f);
    } else if c == 'p' {
      PutPointer(g, args[k].bits, precision, f);
    } else {
      g.Put(c);
    }
  }

  /** The precision, if a point announces one. */
  method ReadPoint(f: CString, start: nat, args: seq<Arg>, flags: Flags)
    returns (stop: bool, precision: nat, g: Flags, i: nat, used: nat)
    requires start <= |f|
    requires First(f[start..]) == '.' && start + 1 < |f| ==> Words(args, StarCount(ParseAmount(f[start + 1..]).0))
    ensures stop ==> i == |f|
    ensures start <= i <= |f| && precision < U32
    ensures First(f[start..]) != '.' ==> !stop && precision == 0 && g == flags && i == start && used == 0
    ensures First(f[start..]) == '.' && start + 1 == |f| ==> stop
    ensures First(f[start..]) == '.' && start + 1 < |f| ==>
              var (a, rest) := ParseAmount(f[start + 1..]);
              && stop == (a.Star? && rest == "")
              && used == StarCount(a)
              && precision == Max(StarWidth(a, args), 0)
              && g == flags.(prec := true)
              && (!stop ==> f[i..] == rest)
  {
    stop, precision, g, i, used := false, 0, flags, start, 0;
    Tail(f, i);
    if At(f, i) == '.' {
      g := g.(prec := true);
      i := i + 1;
      if i == |f| { stop := true; return; }
      stop, precision, i, used := ReadPrecision(f, i, args);
    }
  }

  lemma SuitsShift(d: Directive, args: seq<Arg>, k: nat)
    requires k <= |args| && Suits(d, args[k..])
    ensures k + Uses(d) <= |args| && args[k..][Uses(d)..] == args[k + Uses(d)..]
  {
  }

  /** Everything between a `%` and its specifier. */
  method ReadDirective(f: CString, start: nat, args: seq<Arg>)
    returns (stop: bool, flags: Flags, width: nat, precision: nat, i: nat, used: nat)
    requires start < |f|
    requires match ParseDirective(f[start..])
             case Whole(d, _) => Words(args, Stars(d))
             case Stop(n) => Words(args, n)
             case Overrun(n) => Words(args, n)
    ensures match ParseDirective(f[start..])
            case Overrun(_) => !stop && i == |f|
            case Stop(_) => stop && i == |f|
            case Whole(d, rest) =>
              && !stop && start <= i < |f| && f[i] == d.specifier && f[i + 1..] == rest
              && used == Stars(d)
              && width == Width(d, args) < U32 && precision == Precision(d, args) < U32
              && flags == DirectiveFlags(d, args)
  {
    hide ParseFlags, ParseAmount, ParseLength, Signed, Atou;
    flags, i := ReadFlags(f, start);
    var leftward, more;
    stop, width, leftward, i, used := ReadWidth(f, i, args);
    precision := 0;
    if stop { return; }
    stop, precision, flags, i, more := ReadPoint(f, i, args[used..], flags);
    if stop { return; }
    used := used + more;
    stop, flags, i := ReadLength(f, i, flags);
    if stop { return; }
    Tail(f, i);
    if leftward {
      flags := flags.(left := true);
    }
  }

  /** Where the loop is: what is left of the format, and of the arguments. */
  ghost predicate Ready(f: CString, i: nat, args: seq<Arg>, k: nat) {
    i <= |f| && k <= |args| && Supplied(f[i..], args[k..])
  }

  /** What is still to be put. */
  ghost function Left(f: CString, i: nat, args: seq<Arg>, k: nat): string
    requires Ready(f, i, args, k)
  {
    Formatted(f[i..], args[k..])
  }

  lemma LeftPlain(f: CString, i: nat, args: seq<Arg>, k: nat)
    requires i < |f| && f[i] != '%' && Ready(f, i, args, k)
    ensures Ready(f, i + 1, args, k) && Left(f, i, args, k) == [f[i]] + Left(f, i + 1, args, k)
    ensures Contained(f[i..]) == Contained(f[i + 1..])
  {
    Tail(f, i);
  }

  lemma LeftDirective(f: CString, i: nat, args: seq<Arg>, k: nat)
    requires i < |f| && f[i] == '%' && Ready(f, i, args, k)
    ensures match ParseDirective(f[i + 1..])
            case Overrun(n) => Words(args[k..], n) && Left(f, i, args, k) == "\0" && !Contained(f[i..])
            case Stop(n) => Words(args[k..], n) && Left(f, i, args, k) == "" && Contained(f[i..])
            case Whole(d, _) => Suits(d, args[k..]) && k + Uses(d) <= |args|
  {
    Tail(f, i);
    if ParseDirective(f[i + 1..]).Overrun? {
      var p: Piece := Plain('\0');
      assert Pieces(f[i..], args[k..]) == [p];
      assert Text([p]) == "\0" + Text([p][1..]) && [p][1..] == [];
    }
  }

  lemma LeftBehind(f: CString, i: nat, args: seq<Arg>, k: nat, j: nat)
    requires i < |f| && f[i] == '%' && Ready(f, i, args, k)
    requires ParseDirective(f[i + 1..]).Whole? && j <= |f| && f[j..] == ParseDirective(f[i + 1..]).rest
    ensures var d := ParseDirective(f[i + 1..]).d;
            && Suits(d, args[k..]) && Ready(f, j, args, k + Uses(d))
            && Left(f, i, args, k) == DirectiveText(d, args[k..]) + Left(f, j, args, k + Uses(d))
    ensures Contained(f[i..]) == Contained(f[j..])
  {
    Tail(f, i);
    SuitsShift(ParseDirective(f[i + 1..]).d, args, k);
    OwnText(ParseDirective(f[i + 1..]).d, args[k..]);
  }

  /** How a turn of the loop ends: with the next one, with a return at the terminator, or behind it. */
  datatype Turn = Next | Returned | Overran

  /** Where the format pointer is at the end. */
  function EndOf(f: CString, turn: Turn): nat { if turn.Overran? then |f| + 1 else |f| }

  /** One directive, from behind its `%`: what it emits, and where it leaves off. */
  method PutParsed(g: Gadget, f: CString, start: nat, args: seq<Arg>)
    returns (turn: Turn, i: nat, used: nat)
    requires g.Valid() && start <= |f|
    requires match ParseDirective(f[start..])
             case Overrun(n) => Words(args, n)
             case Stop(n) => Words(args, n)
             case Whole(d, _) => Suits(d, args)
    modifies g, g.buffer
    ensures g.Valid()
    ensures match ParseDirective(f[start..])
            case Overrun(_) => turn.Overran? && i == |f| + 1 && g.out == old(g.out) + "\0"
            case Stop(_) => turn.Returned? && i == |f| && g.out == old(g.out)
            case Whole(d, rest) =>
              && turn.Next? && start < i <= |f| && f[i..] == rest && used == Uses(d)
              && g.out == old(g.out) + DirectiveText(d, args)
  {
    turn, i, used := Returned, start, 0;
    if i == |f| { return; }
    var stop, flags, width, precision;
    ghost var d := ParseDirective(f[start..]);
    stop, flags, width, precision, i, used := ReadDirective(f, i, args);
    if stop { return; }
    if i == |f| {
      // the terminator in place of a specifier: put like any other character, and stepped over
      g.Put(At(f, i));
      turn, i := Overran, i + 1;
      return;
    }
    PutDirective(g, d.d, args, f[i], flags, width, precision, used);
    used := used + if TakesWord(f[i]) || f[i] == 's' then 1 else 0;
    turn, i := Next, i + 1;
  }

  /** The directive at the loop's position. */
  method PutNext(g: Gadget, f: CString, start: nat, args: seq<Arg>, first: nat)
    returns (turn: Turn, i: nat, k: nat, ghost text: string)
    requires g.Valid() && start < |f| && f[start] == '%' && Ready(f, start, args, first)
    modifies g, g.buffer
    ensures g.Valid() && g.out == old(g.out) + text
    ensures if !turn.Next?
            then Left(f, start, args, first) == text && i == EndOf(f, turn)
                 && (turn.Overran? <==> !Contained(f[start..]))
            else && start < i && Ready(f, i, args, k)
                 && Left(f, start, args, first) == text + Left(f, i, args, k)
                 && Contained(f[start..]) == Contained(f[i..])
  {
    hide Left, DirectiveText, ParseDirective, Contained;
    LeftDirective(f, start, args, first);
    text, k := "", first;
    var used;
    ghost var parsed := ParseDirective(f[start + 1..]);
    turn, i, used := PutParsed(g, f, start + 1, args[first..]);
    match turn {
      case Returned =>
      case Overran => text := "\0";
      case Next =>
        LeftBehind(f, start, args, first, i);
        text := DirectiveText(parsed.d, args[first..]);
        k := k + used;
    }
  }

  /** One turn of the loop. */
  method PutOne(g: Gadget, f: CString, start: nat, args: seq<Arg>, first: nat)
    returns (turn: Turn, i: nat, k: nat, ghost text: string)
    requires g.Valid() && start < |f| && Ready(f, start, args, first)
    modifies g, g.buffer
    ensures g.Valid() && g.out == old(g.out) + text
    ensures if !turn.Next?
            then Left(f, start, args, first) == text && i == EndOf(f, turn)
                 && (turn.Overran? <==> !Contained(f[start..]))
            else && start < i && Ready(f, i, args, k)
                 && Left(f, start, args, first) == text + Left(f, i, args, k)
                 && Contained(f[start..]) == Contained(f[i..])
  {
    hide Left, Contained;
    if f[start] != '%' {
      LeftPlain(f, start, args, first);
      g.Put(f[start]);
      turn, i, k, text := Next, start + 1, first, [f[start]];
    } else {
      turn, i, k, text := PutNext(g, f, start, args, first);
    }
  }

  lemma LeftAtStart(f: CString, args: seq<Arg>)
    requires Supplied(f, args)
    ensures Ready(f, 0, args, 0) && Left(f, 0, args, 0) == Formatted(f, args) && Contained(f[0..]) == Contained(f)
  {
    assert f[0..] == f && args[0..] == args;
  }

  lemma LeftAtEnd(f: CString, args: seq<Arg>, k: nat)
    requires Ready(f, |f|, args, k)
    ensures Left(f, |f|, args, k) == "" && Contained(f[|f|..])
  {
  }

  lemma AtMost(f: CString, i: nat, args: seq<Arg>, k: nat)
    requires Ready(f, i, args, k)
    ensures i <= |f|
  {
  }

  /** format_string_loop, as far as the format goes: it has put the text of the format, and is at the
      terminator, where it ends, or behind it exactly if some directive of the format ends where the terminator
      is not looked for. */
  method FormatStringLoop(g: Gadget, f: CString, args: seq<Arg>) returns (end: nat, overran: bool)
    requires g.Valid() && Supplied(f, args)
    modifies g, g.buffer
    ensures g.Valid() && g.out == old(g.out) + Formatted(f, args)
    ensures overran <==> !Contained(f)
    ensures end == if overran then |f| + 1 else |f|
  {
    hide Left, Ready, Contained, Formatted;
    ghost var all := Formatted(f, args);
    LeftAtStart(f, args);
    var k := 0;
    end, overran := 0, false;
    while end < |f|
      invariant end <= |f| && Ready(f, end, args, k)
      invariant g.Valid() && old(g.out) + all == g.out + Left(f, end, args, k)
      invariant Contained(f[end..]) == Contained(f)
      decreases |f| - end
    {
      var turn, j, m;
      ghost var text;
      ghost var out := g.out;
      turn, j, m, text := PutOne(g, f, end, args, k);
      if !turn.Next? {
        end, overran := j, turn.Overran?;
        return;
      }
      Rebracket(out, text, Left(f, j, args, m));
      AtMost(f, j, args, m);
      end, k := j, m;
    }
    LeftAtEnd(f, args, k);
  }

  // What lies behind a format: the strings that follow it in memory.

  /** How many of the strings the loop comes to. */
  function Reached(memory: seq<CString>): (n: nat)
    ensures n <= |memory|
  {
    if memory == [] then 0 else if Contained(memory[0]) then 1 else 1 + Reached(memory[1..])
  }

  /** It reads a string exactly if it runs past all those before it. */
  lemma {:induction false} ReachedExactly(memory: seq<CString>, i: nat)
    requires i < |memory|
    ensures i < Reached(memory) <==> forall j :: 0 <= j < i ==> !Contained(memory[j])
  {
    if i > 0 {
      ReachedExactly(memory[1..], i - 1);
      if forall j :: 0 <= j < i ==> !Contained(memory[j]) {
        forall j | 0 <= j < i - 1
          ensures !Contained(memory[1..][j])
        {
          assert !Contained(memory[j + 1]);
        }
      } else {
        var j :| 0 <= j < i && Contained(memory[j]);
        assert j > 0 ==> Contained(memory[1..][j - 1]);
      }
    }
  }

  /** Every argument asked for on the way is there. */
  predicate SuppliedOn(memory: seq<CString>, args: seq<Arg>) {
    memory != [] ==>
      && Supplied(memory[0], args)
      && (!Contained(memory[0]) ==>
            ArgCount(memory[0]) <= |args| && SuppliedOn(memory[1..], args[ArgCount(memory[0])..]))
  }

  function FormattedOn(memory: seq<CString>, args: seq<Arg>): string
    requires SuppliedOn(memory, args)
  {
    if memory == [] then ""
    else if Contained(memory[0]) then Formatted(memory[0], args)
    else Formatted(memory[0], args) + FormattedOn(memory[1..], args[ArgCount(memory[0])..])
  }

  lemma OneStringOn(memory: seq<CString>, args: seq<Arg>, out: string)
    requires memory != [] && SuppliedOn(memory, args)
    ensures var text := Formatted(memory[0], args);
            out + FormattedOn(memory, args)
            == if Contained(memory[0]) then out + text
               else out + text + FormattedOn(memory[1..], args[ArgCount(memory[0])..])
  {
    if !Contained(memory[0]) {
      Rebracket(out, Formatted(memory[0], args), FormattedOn(memory[1..], args[ArgCount(memory[0])..]));
    }
  }

  /** format_string_loop over the memory that begins with the format: it goes on behind the terminator it has
      run past as if another format began there, and ends at the terminator of the first string that is
      contained, or where what is known of the memory does. */
  method FormatMemory(g: Gadget, memory: seq<CString>, args: seq<Arg>) returns (read: nat)
    requires g.Valid() && SuppliedOn(memory, args)
    modifies g, g.buffer
    ensures g.Valid() && g.out == old(g.out) + FormattedOn(memory, args)
    ensures read == Reached(memory)
  {
    hide Contained, Supplied, Formatted, ArgCount;
    var behind, rest := memory, args;
    ghost var all := FormattedOn(memory, args);
    read := 0;
    var going := true;
    assert memory[0..] == memory;
    while going && read < |memory|
      invariant read <= |memory| && behind == memory[read..]
      invariant going ==> SuppliedOn(behind, rest) && g.out + FormattedOn(behind, rest) == old(g.out) + all
      invariant going ==> read + Reached(behind) == Reached(memory)
      invariant !going ==> g.out == old(g.out) + all && read == Reached(memory)
      invariant g.Valid()
      decreases |memory| - read
    {
      OneStringOn(behind, rest, g.out);
      var end;
      end, going := FormatStringLoop(g, behind[0], rest);
      if going {
        rest := rest[ArgCount(behind[0])..];
      }
      behind, read := behind[1..], read + 1;
    }
  }
}
