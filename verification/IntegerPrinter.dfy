/** print_integer, print_integer_finalization and out_rev_: the text of IntegerText, built backwards in 32 cells. */
module IntegerPrinter {
  import opened Basics
  import opened Gadgets
  import opened IntegerText
  import opened PrintfText

  lemma ReversePush(t: string, c: char)
    ensures Reverse([c] + t) == Reverse(t) + [c]
  {
  }

  lemma ReverseDrop(t: string)
    requires t != ""
    ensures Reverse(t[1..]) == Reverse(t)[..|t| - 1]
  {
  }

  lemma ReverseTwice(t: string)
    ensures Reverse(Reverse(t)) == t
  {
  }

  lemma RepSnoc(c: char, n: nat)
    ensures Rep(c, n + 1) == Rep(c, n) + [c]
  {
  }

  /** Blanks from `length` up to `width`. */
  method PadBefore(g: Gadget, length: nat, width: nat)
    requires g.Valid()
    modifies g, g.buffer
    ensures g.Valid() && g.out == old(g.out) + Rep(' ', width - length)
  {
    ghost var before := g.out;
    var i := length;
    while i < width
      invariant length <= i <= Max(length, width)
      invariant g.Valid() && g.out == before + Rep(' ', i - length)
    {
      RepSnoc(' ', i - length);
      g.Put(' ');
      i := i + 1;
    }
  }

  /** How far a wrapping counter has come. */
  lemma SincePos(start: nat, n: nat)
    requires n < U32
    ensures ((start + n) % U32 + U32 - start % U32) % U32 == n
  {
    var q, r := start / U32, start % U32;
    assert start + n == q * U32 + (r + n);
    assert (start + n) % U32 == if r + n < U32 then r + n else r + n - U32;
  }

  /** Blanks until `width` characters have come since `startPos`. */
  method PadAfter(g: Gadget, startPos: nat, width: nat, ghost length: nat)
    requires g.Valid() && width < U32 && length < U32
    requires length <= |g.out| && startPos == (|g.out| - length) % U32
    modifies g, g.buffer
    ensures g.Valid() && g.out == old(g.out) + Rep(' ', width - length)
  {
    ghost var before, n := g.out, 0;
    while (g.pos + U32 - startPos) % U32 < width
      invariant n <= Max(width - length, 0)
      invariant g.Valid() && g.out == before + Rep(' ', n)
      decreases width - n
    {
      SincePos(|before| - length, length + n);
      RepSnoc(' ', n);
      g.Put(' ');
      n := n + 1;
    }
    SincePos(|before| - length, length + n);
  }

  method PutBackwards(g: Gadget, buf: array<char>, length: nat)
    requires g.Valid() && g.buffer != buf && length <= buf.Length
    modifies g, g.buffer
    ensures g.Valid() && g.out == old(g.out) + Reverse(buf[..length])
  {
    ghost var before, text := g.out, Reverse(buf[..length]);
    var len := length;
    while len > 0
      invariant 0 <= len <= length
      invariant g.Valid() && g.out == before + text[..length - len]
    {
      len := len - 1;
      assert text[..length - len] == text[..length - len - 1] + [buf[len]];
      g.Put(buf[len]);
    }
    assert text[..length] == text;
  }

  /** out_rev_. */
  method OutRev(g: Gadget, buf: array<char>, length: nat, width: nat, flags: Flags)
    requires g.Valid() && g.buffer != buf
    requires length <= buf.Length && length < U32 && width < U32
    modifies g, g.buffer
    ensures g.Valid() && g.out == old(g.out) + Placed(Reverse(buf[..length]), width, flags)
  {
    var startPos := g.pos;
    if !flags.left && !flags.zeropad {
      PadBefore(g, length, width);
    }
    PutBackwards(g, buf, length);
    if flags.left {
      PadAfter(g, startPos, width, length);
    }
  }

  /** The text the first cells hold, which is written backwards. */
  ghost predicate Holds(buf: array<char>, len: nat, text: string)
    reads buf
  {
    buf.Length == BUFFER_SIZE && len == |text| <= BUFFER_SIZE && buf[..len] == Reverse(text)
  }

  /** One more character in front, if there is a cell for it. */
  method Cell(buf: array<char>, length: nat, c: char, ghost text: string) returns (len: nat)
    requires Holds(buf, length, text)
    modifies buf
    ensures Holds(buf, len, Push(text, c)) && len == Min(length + 1, BUFFER_SIZE)
  {
    len := length;
    if len < BUFFER_SIZE {
      buf[len] := c;
      len := len + 1;
      ReversePush(text, c);
      assert buf[..len] == old(buf[..length]) + [c];
    }
  }

  function ZerosBefore(n: nat, text: string): string { Rep('0', n) + text }

  lemma PushZero(n: nat, text: string)
    requires n + |text| < BUFFER_SIZE
    ensures Push(ZerosBefore(n, text), '0') == ZerosBefore(n + 1, text)
  {
    assert Rep('0', 1) == ['0'];
    ZerosJoin(1, n, text);
  }

  lemma NoZeros(text: string)
    ensures ZerosBefore(0, text) == text
  {
  }

  lemma ZerosEnd(text: string, target: nat, len: nat)
    requires |text| <= len <= BUFFER_SIZE && (len == |text| || len <= target) && (len >= target || len == BUFFER_SIZE)
    ensures ZerosTo(text, target) == ZerosBefore(len - |text|, text)
  {
  }

  /** Zeros in front up to a target. */
  method Zeros(buf: array<char>, length: nat, target: nat, ghost text: string) returns (len: nat)
    requires Holds(buf, length, text)
    modifies buf
    ensures Holds(buf, len, ZerosTo(text, target))
  {
    assert length == |text| <= BUFFER_SIZE;
    NoZeros(text);
    hide Holds, ZerosBefore, ZerosTo, Rep, Push;
    len := length;
    while len < target && len < BUFFER_SIZE
      invariant length <= len <= BUFFER_SIZE && (len == length || len <= target)
      invariant Holds(buf, len, ZerosBefore(len - length, text))
    {
      PushZero(len - length, text);
      len := Cell(buf, len, '0', ZerosBefore(len - length, text));
    }
    ZerosEnd(text, target, len);
  }

  lemma Rebracket(a: string, b: string, c: string)
    ensures a + b + c == a + (b + c)
  {
  }

  lemma DigitTaken(v: nat, base: nat, upper: bool, t: string)
    requires v > 0 && 2 <= base <= 16
    ensures v / base < v
    ensures Digits(v, base, upper) + t
         == (if v / base > 0 then Digits(v / base, base, upper) else "") + ([DigitChar(v % base, upper)] + t)
  {
    if v >= base {
      QuotientSmaller(v, base);
      Rebracket(Digits(v / base, base, upper), [DigitChar(v % base, upper)], t);
    } else {
      QuotientZero(v, base);
    }
  }

  /** The digits of a value, the last first, as far as the cells go. */
  method FillDigits(buf: array<char>, value: nat, base: nat, upper: bool) returns (len: nat)
    requires buf.Length == BUFFER_SIZE && value > 0 && 2 <= base <= 16
    modifies buf
    ensures var d := Digits(value, base, upper);
            Holds(buf, len, if |d| <= BUFFER_SIZE then d else d[|d| - BUFFER_SIZE..])
  {
    var v := value;
    ghost var text := "";
    ghost var all := Digits(value, base, upper);
    len := 0;
    var more := true;
    while more
      invariant Holds(buf, len, text)
      invariant if v > 0 then all == Digits(v, base, upper) + text else all == text
      invariant more == (v > 0 && len < BUFFER_SIZE)
      decreases v
    {
      var digit := v % base;
      ghost var before := text;
      text := [DigitChar(digit, upper)] + text;
      len := Cell(buf, len, DigitChar(digit, upper), before);
      DigitTaken(v, base, upper, before);
      v := v / base;
      more := v > 0 && len < BUFFER_SIZE;
    }
    if v > 0 {
      assert all[|Digits(v, base, upper)|..] == text;
    }
  }

  /** The leading zeros: up to the width less a sign, then up to the precision. */
  method LeadingZeros(buf: array<char>, length: nat, c: Conversion) returns (len: nat, width: nat)
    requires 2 <= c.base <= 16 && Holds(buf, length, Kept(c))
    modifies buf
    ensures width == SignedWidth(c) && Holds(buf, len, Padded(c))
  {
    len, width := length, c.width;
    ghost var t := Kept(c);
    if !c.flags.left {
      if width > 0 && c.flags.zeropad && (c.negative || c.flags.plus || c.flags.space) {
        width := width - 1;
      }
      if c.flags.zeropad {
        len := Zeros(buf, len, width, t);
        t := ZerosTo(t, width);
      }
    }
    len := Zeros(buf, len, c.precision, t);
  }

  /** Zeros given up for the prefix that is to come. */
  method TakeBack(buf: array<char>, length: nat, unpadded: nat, width: nat, c: Conversion) returns (len: nat)
    requires 2 <= c.base <= 16 && Alternate(c)
    requires Holds(buf, length, Padded(c)) && unpadded == |Kept(c)| && width == SignedWidth(c)
    ensures Holds(buf, len, Trimmed(c))
  {
    len := length;
    ghost var t := Padded(c);
    if !c.flags.prec && len > 0 && (len == c.precision || len == width) {
      if unpadded < len {
        ReverseDrop(t);
        t := t[1..];
        len := len - 1;
        assert buf[..len] == buf[..length][..len];
      }
      if len > 0 && (c.base == 16 || c.base == 2) && unpadded < len {
        ReverseDrop(t);
        t := t[1..];
        len := len - 1;
        assert buf[..len] == buf[..len + 1][..len];
      }
    }
  }

  method WritePrefix(buf: array<char>, length: nat, c: Conversion) returns (len: nat)
    requires 2 <= c.base <= 16 && Alternate(c) && Holds(buf, length, Trimmed(c))
    modifies buf
    ensures Holds(buf, len, Prefixed(c))
  {
    len := length;
    ghost var t := Trimmed(c);
    if c.base == 16 && !c.flags.upper {
      len := Cell(buf, len, 'x', t);
      t := Push(t, 'x');
    } else if c.base == 16 && c.flags.upper {
      len := Cell(buf, len, 'X', t);
      t := Push(t, 'X');
    } else if c.base == 2 {
      len := Cell(buf, len, 'b', t);
      t := Push(t, 'b');
    }
    len := Cell(buf, len, '0', t);
  }

  method WriteSign(buf: array<char>, length: nat, c: Conversion) returns (len: nat)
    requires 2 <= c.base <= 16 && Holds(buf, length, Prefixed(c))
    modifies buf
    ensures Holds(buf, len, Body(c))
  {
    len := length;
    ghost var t := Prefixed(c);
    if c.negative {
      len := Cell(buf, len, '-', t);
    } else if c.flags.plus {
      len := Cell(buf, len, '+', t);
    } else if c.flags.space {
      len := Cell(buf, len, ' ', t);
    }
  }

  /** print_integer_finalization; `hash` is what print_integer has left of the flag. */
  method Finalize(g: Gadget, buf: array<char>, length: nat, c: Conversion, hash: bool)
    requires g.Valid() && g.buffer != buf
    requires 2 <= c.base <= 16 && c.width < U32
    requires Holds(buf, length, Kept(c)) && hash == KeepsHash(c)
    modifies g, g.buffer, buf
    ensures g.Valid() && g.out == old(g.out) + Rendered(c)
  {
    var unpadded := length;
    var len, width := LeadingZeros(buf, length, c);
    var mark := hash;
    if c.base == 8 && len > unpadded {
      mark := false;
    }
    if mark || c.flags.pointer {
      len := TakeBack(buf, len, unpadded, width, c);
      len := WritePrefix(buf, len, c);
    }
    len := WriteSign(buf, len, c);
    ReverseTwice(Body(c));
    OutRev(g, buf, len, width, c.flags);
  }

  /** The digits print_integer starts from, and what it leaves of the hash flag. */
  method StartDigits(buf: array<char>, c: Conversion) returns (len: nat, hash: bool)
    requires buf.Length == BUFFER_SIZE && 2 <= c.base <= 16
    modifies buf
    ensures Holds(buf, len, Kept(c)) && hash == KeepsHash(c)
  {
    len, hash := 0, c.flags.hash;
    if c.value == 0 {
      if !c.flags.prec {
        buf[len] := '0';
        len := len + 1;
        hash := false;
        assert Reverse("0") == "0";
      } else if c.base == 16 {
        hash := false;
      }
    } else {
      len := FillDigits(buf, c.value, c.base, c.flags.upper);
    }
  }

  /** print_integer. */
  method PrintInteger(g: Gadget, c: Conversion)
    requires g.Valid() && 2 <= c.base <= 16 && c.width < U32
    modifies g, g.buffer
    ensures g.Valid() && g.out == old(g.out) + Rendered(c)
  {
    var buf := new char[BUFFER_SIZE];
    var len, hash := StartDigits(buf, c);
    Finalize(g, buf, len, c, hash);
  }
}
