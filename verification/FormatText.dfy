/** What a format string and its arguments come out as, directive by directive. */
module FormatText {
  import opened Basics
  import opened Gadgets
  import opened IntegerText
  import opened PrintfText

  /** The characters of a C string before its terminator. */
  type CString = s: string | forall i :: 0 <= i < |s| ==> s[i] != '\0'

  type Slot = b: nat | b < U64

  /** An argument: a 64-bit slot, read at whatever width the directive asks for, or a string or NULL. */
  datatype Arg = Word(bits: Slot) | Str(text: Option<CString>)

  predicate IsDigit(c: char) { '0' <= c <= '9' }

  function First(s: string): char { if s == "" then '\0' else s[0] }

  /** atou_: the number in front, modulo 2^32, and what follows it. */
  function Atou(s: string, i: nat): (r: (nat, string))
    requires i < U32
    ensures r.0 < U32 && |r.1| <= |s| && !IsDigit(First(r.1))
    ensures IsDigit(First(s)) ==> |r.1| < |s|
  {
    if IsDigit(First(s)) then Atou(s[1..], (i * 10 + (s[0] as nat - '0' as nat)) % U32) else (i, s)
  }

  // The grammar of a directive.

  datatype Amount = Absent | Number(n: nat) | Star

  datatype Directive = Directive(flags: Flags, width: Amount, precision: Amount, specifier: char)

  /** The directive ends well; or the loop returns at the terminator; or it steps over it. */
  datatype Parse = Whole(d: Directive, rest: string) | Stop(stars: nat) | Overrun(stars: nat)

  predicate IsFlag(c: char) { c == '0' || c == '-' || c == '+' || c == ' ' || c == '#' }

  function SetFlag(c: char, f: Flags): Flags {
    f.(zeropad := f.zeropad || c == '0', left := f.left || c == '-', plus := f.plus || c == '+',
       space := f.space || c == ' ', hash := f.hash || c == '#')
  }

  function ParseFlags(s: string, f: Flags): (r: (Flags, string))
    ensures |r.1| <= |s| && r.0.prec == f.prec && r.0.pointer == f.pointer && r.0.upper == f.upper
  {
    if IsFlag(First(s)) then ParseFlags(s[1..], SetFlag(s[0], f)) else (f, s)
  }

  function ParseAmount(s: string): (r: (Amount, string))
    ensures |r.1| <= |s|
    ensures r.0.Number? ==> r.0.n < U32
  {
    if IsDigit(First(s)) then var (n, t) := Atou(s, 0); (Number(n), t)
    else if First(s) == '*' then (Star, s[1..])
    else (Absent, s)
  }

  /** One step on, unless that reaches the terminator. */
  function Advance(s: string, f: Flags): Option<(Flags, string)> {
    if |s| <= 1 then None else Some((f, s[1..]))
  }

  /** The second digit of a size; only for 16 is the end of the format not looked for behind it. */
  function ParsePair(s: string, second: char, f: Flags, sized: Flags, checked: bool): (r: Option<(Flags, string)>)
    requires s != ""
    ensures r.Some? ==> |r.value.1| <= |s|
    ensures r.Some? ==> r.value.0 in {f, sized}
  {
    if |s| == 1 then None
    else if s[1] != second then Some((f, s[1..]))
    else if checked && |s| == 2 then None
    else Some((sized, s[2..]))
  }

  function ParseBits(s: string, f: Flags): (r: Option<(Flags, string)>)
    requires s != ""
    ensures r.Some? ==> |r.value.1| <= |s|
    ensures r.Some? ==> r.value.0.prec == f.prec && r.value.0.pointer == f.pointer && r.value.0.upper == f.upper
  {
    match s[0]
    case '8' => Advance(s, f.(size := Char))
    case '1' => ParsePair(s, '6', f, f.(size := Short), false)
    case '3' => ParsePair(s, '2', f, f.(size := Int), true)
    case '6' => ParsePair(s, '4', f, f.(size := Long), true)
    case _ => Some((f, s))
  }

  function ParseTwice(s: string, c: char, once: Flags, twice: Flags): (r: Option<(Flags, string)>)
    requires s != ""
    ensures r.Some? ==> |r.value.1| <= |s|
    ensures r.Some? ==> r.value.0 in {once, twice}
  {
    if |s| == 1 then None
    else if s[1] != c then Some((once, s[1..]))
    else if |s| == 2 then None
    else Some((twice, s[2..]))
  }

  /** The length modifiers: I, l, ll, h, hh, t, j and z, on a machine whose long has 64 bits. */
  function ParseLength(s: string, f: Flags): (r: Option<(Flags, string)>)
    ensures r.Some? ==> |r.value.1| <= |s|
    ensures r.Some? ==> r.value.0.prec == f.prec && r.value.0.pointer == f.pointer && r.value.0.upper == f.upper
  {
    match First(s)
    case 'I' => if |s| == 1 then None else ParseBits(s[1..], f)
    case 'l' => ParseTwice(s, 'l', f.(size := Long), f.(size := LongLong))
    case 'h' => ParseTwice(s, 'h', f.(size := Short), f.(size := Char))
    case 't' => Advance(s, f.(size := Long))
    case 'j' => Advance(s, f.(size := Long))
    case 'z' => Advance(s, f.(size := Long))
    case _ => Some((f, s))
  }

  function StarCount(a: Amount): nat { if a.Star? then 1 else 0 }

  function ParseEnd(f: Flags, w: Amount, p: Amount, s: string): (r: Parse)
    ensures r.Whole? ==> |r.rest| < |s|
    ensures r.Whole? ==> r.d.flags.prec == f.prec && r.d.flags.pointer == f.pointer && r.d.flags.upper == f.upper
    ensures r.Whole? ==> r.d.width == w && r.d.precision == p
  {
    match ParseLength(s, f)
    case None => Stop(StarCount(w) + StarCount(p))
    case Some((g, t)) =>
      if t == "" then Overrun(StarCount(w) + StarCount(p)) else Whole(Directive(g, w, p, t[0]), t[1..])
  }

  function ParsePrecision(f: Flags, w: Amount, s: string): (r: Parse)
    ensures r.Whole? ==> |r.rest| < |s|
    ensures r.Whole? ==> (!r.d.flags.prec ==> r.d.precision == Absent || f.prec)
    ensures r.Whole? ==> r.d.flags.pointer == f.pointer && r.d.flags.upper == f.upper
    ensures r.Whole? ==> r.d.width == w
  {
    if First(s) != '.' then ParseEnd(f, w, Absent, s)
    else if |s| == 1 then Stop(StarCount(w))
    else
      var (p, t) := ParseAmount(s[1..]);
      if p.Star? && t == "" then Stop(StarCount(w) + 1) else ParseEnd(f.(prec := true), w, p, t)
  }

  /** A directive after its `%`. */
  function ParseDirective(s: string): (r: Parse)
    ensures r.Whole? ==> |r.rest| < |s|
    ensures r.Whole? ==> (!r.d.flags.prec ==> r.d.precision == Absent) && !r.d.flags.pointer && !r.d.flags.upper
  {
    if s == "" then Stop(0)
    else
      var (f, t) := ParseFlags(s, NO_FLAGS);
      var (w, u) := ParseAmount(t);
      if w.Star? && u == "" then Stop(1) else ParsePrecision(f, w, u)
  }

  // What a directive comes out as.

  /** A slot read as a two's-complement word. */
  function Signed(b: nat, m: nat): (v: int)
    requires m > 0
    ensures -(m as int) < v < m && (v >= 0 ==> v == b % m)
  {
    if 2 * (b % m) < m then b % m else b % m - m
  }

  function Abs(v: int): nat { if v > 0 then v else -v }

  predicate IsUnsigned(c: char) { c == 'u' || c == 'x' || c == 'X' || c == 'o' || c == 'b' }

  predicate IsInteger(c: char) { c == 'd' || c == 'i' || IsUnsigned(c) }

  function Base(c: char): (b: nat)
    ensures b in {2, 8, 10, 16}
  {
    if c == 'x' || c == 'X' then 16 else if c == 'o' then 8 else if c == 'b' then 2 else 10
  }

  /** The flags an integer directive keeps. */
  function IntegerFlags(c: char, f: Flags): Flags {
    f.(hash := f.hash && Base(c) != 10, upper := f.upper || c == 'X',
       zeropad := f.zeropad && !f.prec, plus := f.plus && !IsUnsigned(c), space := f.space && !IsUnsigned(c))
  }

  /** 2 to the power of the argument's width in bits. */
  function Modulus(size: Size): (m: nat)
    ensures 0 < m <= U64
  {
    match size
    case LongLong => U64
    case Long => U64
    case Char => 256
    case Short => U16
    case _ => U32
  }

  function IntegerValue(c: char, f: Flags, bits: Slot): (v: int)
    ensures -(U64 as int) < v < U64
    ensures IsUnsigned(c) ==> v >= 0
  {
    var m := Modulus(f.size);
    if IsUnsigned(c) then bits % m else Signed(bits, m)
  }

  function IntegerConversion(c: char, f: Flags, width: nat, precision: nat, bits: Slot): Conversion {
    var v := IntegerValue(c, f, bits);
    Conversion(Abs(v), v < 0, Base(c), precision, width, IntegerFlags(c, f))
  }

  function CharText(bits: Slot, width: nat, left: bool): string {
    var c := [(bits % 256) as char];
    if left then c + Rep(' ', width - 1) else Rep(' ', width - 1) + c
  }

  /** How far strnlen_s_ looks. */
  function StringLimit(precision: nat): nat { if precision != 0 then precision else INT_MAX }

  function StringText(text: Option<CString>, width: nat, precision: nat, f: Flags): string {
    match text
    case None => Placed("(null)", width, f)
    case Some(s) =>
      var l := Min(|s|, StringLimit(precision));
      var shown := if f.prec then s[..Min(|s|, precision)] else s;
      var pad := Rep(' ', width - if f.prec then Min(l, precision) else l);
      if f.left then shown + pad else pad + shown
  }

  function PointerConversion(bits: Slot, precision: nat, f: Flags): Conversion {
    Conversion(bits, false, 16, precision, PTR_WIDTH, f.(zeropad := true, pointer := true))
  }

  function PointerText(bits: Slot, precision: nat, f: Flags): string {
    if bits == 0 then Placed("(nil)", PTR_WIDTH, f.(zeropad := true, pointer := true))
    else Rendered(PointerConversion(bits, precision, f))
  }

  // Arguments are taken in the order width, precision, value.

  predicate TakesWord(c: char) { IsInteger(c) || c == 'c' || c == 'p' }

  function Stars(d: Directive): nat { StarCount(d.width) + StarCount(d.precision) }

  function Uses(d: Directive): nat { Stars(d) + if TakesWord(d.specifier) || d.specifier == 's' then 1 else 0 }

  predicate Words(args: seq<Arg>, n: nat) { n <= |args| && forall i :: 0 <= i < n ==> args[i].Word? }

  /** The arguments a directive takes are there and of the kind it reads. */
  predicate Suits(d: Directive, args: seq<Arg>) {
    && Words(args, Stars(d))
    && Uses(d) <= |args|
    && (TakesWord(d.specifier) ==> args[Stars(d)].Word?)
    && (d.specifier == 's' ==> args[Stars(d)].Str?)
  }

  function StarWidth(a: Amount, args: seq<Arg>): int
    requires Words(args, StarCount(a))
  {
    match a
    case Absent => 0
    case Number(n) => n
    case Star => Signed(args[0].bits, U32)
  }

  function Width(d: Directive, args: seq<Arg>): nat
    requires Words(args, Stars(d))
  {
    Abs(StarWidth(d.width, args))
  }

  function DirectiveFlags(d: Directive, args: seq<Arg>): Flags
    requires Words(args, Stars(d))
  {
    if StarWidth(d.width, args) < 0 then d.flags.(left := true) else d.flags
  }

  function Precision(d: Directive, args: seq<Arg>): nat
    requires Words(args, Stars(d))
  {
    match d.precision
    case Absent => 0
    case Number(n) => n
    case Star => Max(Signed(args[StarCount(d.width)].bits, U32), 0)
  }

  function DirectiveText(d: Directive, args: seq<Arg>): string
    requires Suits(d, args)
  {
    var w, p, f, c := Width(d, args), Precision(d, args), DirectiveFlags(d, args), d.specifier;
    if IsInteger(c) then Rendered(IntegerConversion(c, f, w, p, args[Stars(d)].bits))
    else if c == 'c' then CharText(args[Stars(d)].bits, w, f.left)
    else if c == 's' then StringText(args[Stars(d)].text, w, p, f)
    else if c == 'p' then PointerText(args[Stars(d)].bits, p, f)
    else [c]
  }

  // Whole formats.

  /** No directive makes the loop step over the terminator. */
  predicate Contained(f: string)
    decreases |f|
  {
    if f == "" then true
    else if f[0] != '%' then Contained(f[1..])
    else match ParseDirective(f[1..])
      case Overrun(_) => false
      case Stop(_) => true
      case Whole(_, rest) => Contained(rest)
  }

  /** Every directive is complete. */
  predicate Complete(f: string)
    decreases |f|
  {
    if f == "" then true
    else if f[0] != '%' then Complete(f[1..])
    else match ParseDirective(f[1..])
      case Overrun(_) => false
      case Stop(_) => false
      case Whole(_, rest) => Complete(rest)
  }

  /** Every argument the format asks for is there. */
  predicate Supplied(f: string, args: seq<Arg>)
    decreases |f|
  {
    if f == "" then true
    else if f[0] != '%' then Supplied(f[1..], args)
    else match ParseDirective(f[1..])
      case Overrun(stars) => Words(args, stars)
      case Stop(stars) => Words(args, stars)
      case Whole(d, rest) => Suits(d, args) && Supplied(rest, args[Uses(d)..])
  }

  function ArgCount(f: string): nat
    decreases |f|
  {
    if f == "" then 0
    else if f[0] != '%' then ArgCount(f[1..])
    else match ParseDirective(f[1..])
      case Overrun(stars) => stars
      case Stop(stars) => stars
      case Whole(d, rest) => Uses(d) + ArgCount(rest)
  }

  /** A character of the format, or a directive with the arguments it takes. Where a format ends so that the
      loop takes its terminator for a specifier, the terminator is put, and is the last that is known. */
  datatype Part = Plain(c: char) | Item(d: Directive, args: seq<Arg>)

  type Piece = p: Part | p.Item? ==> Suits(p.d, p.args) witness Plain(' ')

  lemma OwnArguments(d: Directive, args: seq<Arg>)
    requires Suits(d, args)
    ensures Suits(d, args[..Uses(d)])
  {
    assert forall i :: 0 <= i < Uses(d) ==> args[..Uses(d)][i] == args[i];
  }

  function Pieces(f: string, args: seq<Arg>): seq<Piece>
    requires Supplied(f, args)
    decreases |f|
  {
    if f == "" then []
    else if f[0] != '%' then [Plain(f[0])] + Pieces(f[1..], args)
    else match ParseDirective(f[1..])
      case Overrun(_) => [Plain('\0')]
      case Stop(_) => []
      case Whole(d, rest) =>
        OwnArguments(d, args);
        [Item(d, args[..Uses(d)])] + Pieces(rest, args[Uses(d)..])
  }

  function PieceText(p: Piece): string {
    match p
    case Plain(c) => [c]
    case Item(d, args) => DirectiveText(d, args)
  }

  function Text(ps: seq<Piece>): string {
    if ps == [] then "" else PieceText(ps[0]) + Text(ps[1..])
  }

  lemma OwnText(d: Directive, args: seq<Arg>)
    requires Suits(d, args)
    ensures Suits(d, args[..Uses(d)]) && DirectiveText(d, args[..Uses(d)]) == DirectiveText(d, args)
  {
    OwnArguments(d, args);
    assert forall i :: 0 <= i < Uses(d) ==> args[..Uses(d)][i] == args[i];
  }

  /** The output of a format. */
  function Formatted(f: string, args: seq<Arg>): string
    requires Supplied(f, args)
  {
    Text(Pieces(f, args))
  }
}
