/**
 * What section 7.21.6.1 of ISO C11 makes of a directive and its arguments, on a machine with 32-bit int and
 * 64-bit long: characters, sizes and places of arguments are written out here, apart from the code's own.
 */
module IsoDirectives {
  import opened Basics
  import opened FormatText
  import opened IntegerText
  import opened PrintfText

  predicate FlagChar(c: char) { c in "0-+ #" }

  predicate IntegerChar(c: char) { c in "diuxXob" }

  predicate Numeric(s: string) { forall i :: 0 <= i < |s| ==> '0' <= s[i] <= '9' }

  /** How many values the type has that a length modifier asks for. */
  function Values(size: Size): (m: nat)
    ensures m == Modulus(size)
  {
    match size
    case Char => 256
    case Short => 65536
    case NoSize => 4294967296
    case Int => 4294967296
    case Long => 18446744073709551616
    case LongLong => 18446744073709551616
  }

  /** The values of that type: signed for d and i, unsigned for u, x, X, o and b. */
  predicate InRange(c: char, size: Size, v: int) {
    var m := Values(size);
    if c in "di" then -(m as int) <= 2 * v < m else 0 <= v < m
  }

  /** What a slot holds when read as that type. */
  function ValueOf(c: char, size: Size, bits: Slot): (v: int)
    requires IntegerChar(c)
    ensures InRange(c, size, v) && (bits - v) % Values(size) == 0
  {
    var m := Values(size);
    var v := bits % m;
    Rejoin(bits, m);
    QuotientUnique(bits - v, m, bits / m, 0);
    if c in "di" && 2 * v >= m then
      QuotientUnique(bits - v + m, m, bits / m + 1, 0);
      v - m
    else v
  }

  /** An int: an argument for a star. */
  function IntOf(bits: Slot): (v: int)
    ensures v == Signed(bits, U32)
  {
    var n := bits % 4294967296;
    if n < 2147483648 then n else n - 4294967296
  }

  /** Arguments come in the order width, precision, value. */
  function PrecisionAt(d: Directive): (k: nat)
    ensures k == StarCount(d.width)
  {
    if d.width.Star? then 1 else 0
  }

  function ValueAt(d: Directive): (k: nat)
    ensures k == Stars(d)
  {
    PrecisionAt(d) + if d.precision.Star? then 1 else 0
  }

  /** A negative width is a flag - and the width without its sign. */
  function IsoWidth(d: Directive, args: seq<Arg>): (w: nat)
    requires Words(args, Stars(d))
    ensures w == Width(d, args)
  {
    match d.width
    case Absent => 0
    case Number(n) => n
    case Star => if IntOf(args[0].bits) < 0 then -IntOf(args[0].bits) else IntOf(args[0].bits)
  }

  predicate IsoLeft(d: Directive, args: seq<Arg>)
    requires Words(args, Stars(d))
    ensures IsoLeft(d, args) == DirectiveFlags(d, args).left
  {
    d.flags.left || (d.width.Star? && IntOf(args[0].bits) < 0)
  }

  /** A precision given as a negative argument, which ISO C takes as if it were omitted. */
  predicate NegativePrecision(d: Directive, args: seq<Arg>)
    requires Words(args, Stars(d))
  {
    d.precision.Star? && IntOf(args[PrecisionAt(d)].bits) < 0
  }

  /** A point without a number is a precision of 0. */
  function IsoPrecision(d: Directive, args: seq<Arg>): (p: Option<nat>)
    requires Words(args, Stars(d))
    ensures p.Some? <==> d.flags.prec && !NegativePrecision(d, args)
    ensures p.Some? ==> p.value == Precision(d, args)
  {
    if !d.flags.prec || NegativePrecision(d, args) then None
    else match d.precision
      case Absent => Some(0)
      case Number(n) => Some(n)
      case Star => Some(IntOf(args[PrecisionAt(d)].bits))
  }

  /**
   * The conversion ISO C describes: a sign only for signed conversions, an alternative form only for
   * o, x, X and b, capitals for X, and a precision unless it is negative.
   */
  function Iso(d: Directive, args: seq<Arg>): Conversion
    requires Suits(d, args) && IntegerChar(d.specifier)
  {
    var f, c := d.flags, d.specifier;
    var v, signed := ValueOf(c, f.size, args[ValueAt(d)].bits), c in "di";
    var base := if c == 'o' then 8 else if c == 'b' then 2 else if c in "xX" then 16 else 10;
    var p := IsoPrecision(d, args);
    Conversion(if v < 0 then -v else v, v < 0, base, if p.Some? then p.value else 0, IsoWidth(d, args),
      Flags(f.zeropad, IsoLeft(d, args), f.plus && signed, f.space && signed, f.hash && base != 10, c == 'X', p.Some?,
            false, f.size))
  }

  /** A string up to the precision, all of it where that is omitted, in its field. */
  function IsoString(d: Directive, args: seq<Arg>): string
    requires Suits(d, args) && d.specifier == 's' && args[ValueAt(d)].text.Some?
  {
    var s, p := args[ValueAt(d)].text.value, IsoPrecision(d, args);
    InField(if p.Some? then s[..Min(|s|, p.value)] else s, IsoWidth(d, args), IsoLeft(d, args))
  }

  /** The character an int argument stands for, in its field. */
  function IsoChar(d: Directive, args: seq<Arg>): string
    requires Suits(d, args) && d.specifier == 'c'
  {
    InField([(args[ValueAt(d)].bits % 256) as char], IsoWidth(d, args), IsoLeft(d, args))
  }

  /** A pointer: two characters for each of eight bytes, and the prefix. */
  function IsoPointer(bits: Slot, precision: Option<nat>, f: Flags): Conversion {
    Conversion(bits, false, 16, if precision.Some? then precision.value else 0, 18,
      Flags(true, f.left, f.plus, f.space, f.hash, f.upper, precision.Some?, true, f.size))
  }
}
