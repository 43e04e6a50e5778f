/** output_gadget_t: where characters go, with a count of all and a limit on those kept. */
module Gadgets {
  import opened Basics

  const INT_MAX: nat := 0x7FFF_FFFF

  /** A buffer of `n` usable cells after `text` has been printed into it. */
  function Truncated(initial: seq<char>, text: string, n: nat): (r: seq<char>)
    requires Min(n, INT_MAX) <= |initial|
    ensures |r| == |initial|
  {
    var room := Min(n, INT_MAX);
    if room == 0 then initial
    else
      var kept := Min(|text|, room - 1);
      text[..kept] + ['\0'] + initial[kept + 1..]
  }

  /** The terminator goes behind the kept text, over its last character if there is no room. */
  lemma TruncatedWrites(now: seq<char>, initial: seq<char>, text: string, max: nat)
    requires 0 < max <= INT_MAX && max <= |initial|
    requires now == text[..Min(|text|, max)] + initial[Min(|text|, max)..]
    ensures now[Min(|text|, max - 1) := '\0'] == Truncated(initial, text, max)
  {
  }

  class Gadget {
    const toFunction: bool
    const buffer: array?<char>
    const max: nat
    var pos: nat
    /** What the function has been called with. */
    var sent: string
    /** Everything put so far, kept or not. */
    ghost var out: string
    /** The buffer as it was. */
    ghost const initial: seq<char>

    /** The first `max` characters are where they belong, and nothing else has been touched. */
    ghost predicate Delivered()
      reads this, buffer
      requires buffer != null ==> |initial| == buffer.Length
      requires toFunction || max == 0 || (buffer != null && max <= buffer.Length)
    {
      var n := Min(|out|, max);
      && sent == (if toFunction then out[..n] else "")
      && (buffer != null ==>
            buffer[..] == if toFunction || max == 0 then initial else out[..n] + initial[n..])
    }

    ghost predicate Valid()
      reads this, buffer
    {
      && max <= INT_MAX
      && pos == |out| % U32
      && (toFunction || max == 0 || (buffer != null && max <= buffer.Length))
      && (buffer != null ==> |initial| == buffer.Length)
      && (|out| <= U32 ==> Delivered())
    }

    /** buffer_gadget. */
    constructor ToBuffer(buffer: array?<char>, size: nat)
      requires buffer != null ==> size <= buffer.Length
      ensures Valid() && out == "" && !toFunction && this.buffer == buffer
      ensures max == (if buffer == null then 0 else Min(size, INT_MAX))
      ensures buffer != null ==> initial == buffer[..]
    {
      toFunction, this.buffer, pos, sent, out := false, buffer, 0, "", "";
      max := if buffer == null then 0 else if size > INT_MAX then INT_MAX else size;
      initial := if buffer == null then [] else buffer[..];
    }

    /** function_gadget. */
    constructor ToFunction()
      ensures Valid() && out == "" && toFunction && buffer == null && max == INT_MAX
    {
      toFunction, buffer, pos, sent, out, max, initial := true, null, 0, "", "", INT_MAX, [];
    }

    /** putchar_via_gadget. */
    method Put(c: char)
      requires Valid()
      modifies this, buffer
      ensures Valid() && out == old(out) + [c]
    {
      var writePos := pos;
      pos := (pos + 1) % U32;
      out := out + [c];
      if writePos < max {
        if toFunction {
          sent := sent + [c];
        } else {
          buffer[writePos] := c;
        }
      }
      assert |out| <= U32 ==> writePos == |old(out)|;
      if |out| <= U32 && writePos < max {
        assert out[..Min(|out|, max)] == old(out)[..writePos] + [c];
      } else if |out| <= U32 {
        assert out[..max] == old(out)[..max];
      }
    }

    /** append_termination_with_gadget. */
    method Terminate()
      requires Valid()
      modifies buffer
      ensures buffer != null && toFunction ==> buffer[..] == old(buffer[..])
      ensures buffer != null && !toFunction && |out| < U32 ==>
                Min(max, INT_MAX) <= |initial| && buffer[..] == Truncated(initial, out, max)
    {
      if toFunction || max == 0 { return; }
      if buffer == null { return; }
      hide Truncated;
      ghost var was, kept := buffer[..], Min(|out|, max);
      var at := if pos < max then pos else max - 1;
      assert |out| < U32 ==> at == Min(|out|, max - 1) && was == out[..kept] + initial[kept..];
      hide Valid, Delivered;
      buffer[at] := '\0';
      assert buffer[..] == was[at := '\0'];
      if |out| < U32 {
        TruncatedWrites(was, initial, out, max);
      }
    }
  }
}
