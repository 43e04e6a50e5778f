/** vsnprintf_ and vprintf_: the text of a format, counted in full and kept as far as there is room. */
module Snprintf {
  import opened Basics
  import opened FormatLoop
  import opened FormatText
  import opened Gadgets

  /** (int)output->pos. */
  function Returned(pos: nat): int { if pos % U32 < 0x8000_0000 then pos % U32 else pos % U32 - U32 }

  lemma ReturnedSmall(pos: nat)
    requires pos <= INT_MAX
    ensures Returned(pos) == pos
  {
  }

  lemma TruncatedCap(initial: seq<char>, text: string, n: nat)
    requires n <= |initial|
    ensures Truncated(initial, text, Min(n, INT_MAX)) == Truncated(initial, text, n)
  {
  }

  /** vsnprintf_impl. */
  method Impl(g: Gadget, f: CString, args: seq<Arg>) returns (r: int)
    requires g.Valid() && g.out == "" && Contained(f) && Supplied(f, args)
    modifies g, g.buffer
    ensures g.out == Formatted(f, args) && r == Returned(|g.out|)
    ensures g.toFunction && |g.out| <= g.max ==> g.sent == g.out
    ensures !g.toFunction && g.buffer != null && |g.out| <= INT_MAX ==>
              Min(g.max, INT_MAX) <= |g.initial| && g.buffer[..] == Truncated(g.initial, g.out, g.max)
  {
    hide Contained, Supplied, Formatted, Truncated;
    var end, overran := FormatStringLoop(g, f, args);
    assert g.out[..|g.out|] == g.out;
    g.Terminate();
    r := if g.pos < 0x8000_0000 then g.pos else g.pos - U32;
  }

  /**
   * The count returned is that of the whole text, whatever the buffer; the buffer holds what fits,
   * and a terminator, and is untouched behind it.
   */
  method Vsnprintf(s: array?<char>, n: nat, f: CString, args: seq<Arg>) returns (r: int)
    requires s != null ==> n <= s.Length
    requires Contained(f) && Supplied(f, args)
    modifies s
    ensures var t := Formatted(f, args);
            |t| <= INT_MAX ==> r == |t| && (s != null ==> s[..] == Truncated(old(s[..]), t, n))
  {
    hide *;
    var g := new Gadget.ToBuffer(s, n);
    ghost var initial := if s == null then [] else s[..];
    r := Impl(g, f, args);
    if |g.out| <= INT_MAX {
      ReturnedSmall(|g.out|);
      if s != null {
        TruncatedCap(initial, g.out, n);
      }
    }
  }

  /** Everything goes to the console, in order. */
  method Vprintf(f: CString, args: seq<Arg>) returns (r: int, sent: string)
    requires Contained(f) && Supplied(f, args)
    ensures var t := Formatted(f, args); |t| <= INT_MAX ==> r == |t| && sent == t
  {
    hide *;
    var g := new Gadget.ToFunction();
    r := Impl(g, f, args);
    sent := g.sent;
    if |g.out| <= INT_MAX {
      ReturnedSmall(|g.out|);
    }
  }

  /** The string a buffer holds: up to its first terminator. */
  function StringIn(s: seq<char>): string {
    if s == [] || s[0] == '\0' then "" else [s[0]] + StringIn(s[1..])
  }

  lemma {:induction false} StringBefore(t: string, u: seq<char>)
    requires forall i :: 0 <= i < |t| ==> t[i] != '\0'
    ensures StringIn(t + ['\0'] + u) == t
  {
    if t != "" {
      assert (t + ['\0'] + u)[1..] == t[1..] + ['\0'] + u;
      StringBefore(t[1..], u);
    }
  }

  /** A reader of the buffer sees the longest prefix that leaves room for the terminator; all of the text if it fits. */
  lemma TruncatedReads(initial: seq<char>, text: string, n: nat)
    requires 1 <= n <= |initial| && n <= INT_MAX && forall i :: 0 <= i < |text| ==> text[i] != '\0'
    ensures StringIn(Truncated(initial, text, n)) == text[..Min(|text|, n - 1)]
    ensures StringIn(Truncated(initial, text, n)) == text <==> |text| < n
    ensures Truncated(initial, text, n)[Min(|text| + 1, n)..] == initial[Min(|text| + 1, n)..]
  {
    var kept := Min(|text|, n - 1);
    StringBefore(text[..kept], initial[kept + 1..]);
    assert |text| < n ==> text[..|text|] == text;
  }
}
