/**
 * The specification the block driver is measured against: a disk and the caller's memory,
 * and requests that take effect one at a time, in call order, with nothing in between.
 */
module SimpleDisk {
  import opened Basics

  /** The unit a disk counts in (VirtIO 1.1 section 5.2), which need not be the driver's. */
  const DISK_SECTOR: nat := 512

  /** `struct blk_buf` without its flag: where on the disk, where in memory, how much, which way. */
  datatype Request = Request(addr: nat, data: nat, len: nat, isWrite: bool)

  datatype Store = Store(disk: seq<byte>, ram: seq<byte>)

  /** What an outside observer of one caller sees: finished requests and the caller's own stores. */
  datatype Event = Io(req: Request) | Poke(at: nat, bytes: seq<byte>)

  predicate Fits(r: Request, s: Store) {
    r.addr + r.len <= |s.disk| && r.data + r.len <= |s.ram|
  }

  /** What the caller asks for: copy `len` bytes between disk address `addr` and memory at `data`. */
  function Copy(r: Request, s: Store): (t: Store)
    ensures |t.disk| == |s.disk| && |t.ram| == |s.ram|
  {
    if !Fits(r, s) then s
    else if r.isWrite then s.(disk := Splice(s.disk, r.addr, s.ram[r.data..r.data + r.len]))
    else s.(ram := Splice(s.ram, r.data, s.disk[r.addr..r.addr + r.len]))
  }

  /** The disk only knows sectors: the request starts at the sector its address lies in. */
  function Rounded(r: Request): Request {
    r.(addr := r.addr / DISK_SECTOR * DISK_SECTOR)
  }

  /** A device carries out whole sectors it has, and answers anything else with an error. */
  predicate Served(r: Request, s: Store) {
    r.len % DISK_SECTOR == 0 && Fits(Rounded(r), s)
  }

  function Exec(e: Event, s: Store): (t: Store)
    ensures |t.disk| == |s.disk| && |t.ram| == |s.ram|
  {
    match e
    case Poke(at, bytes) => s.(ram := Splice(s.ram, at, bytes))
    case Io(r) => if Served(r, s) then Copy(Rounded(r), s) else s
  }

  /** The store after all of `events`, in order. */
  function Replay(events: seq<Event>, s: Store): (t: Store)
    ensures |t.disk| == |s.disk| && |t.ram| == |s.ram|
  {
    if events == [] then s
    else Exec(events[|events| - 1], Replay(events[..|events| - 1], s))
  }

  lemma ReplaySnoc(events: seq<Event>, e: Event, s: Store)
    ensures Replay(events + [e], s) == Exec(e, Replay(events, s))
  {
    assert (events + [e])[..|events|] == events;
  }

  /** Reading back a region after writing it yields what was written, whatever the caller's memory
      held in between and wherever it reads to. */
  lemma WriteThenRead(s: Store, w: Request, at: nat, junk: seq<byte>, r: Request)
    requires w.isWrite && !r.isWrite && r.addr == w.addr && r.len == w.len
    requires Served(w, s) && Served(r, s)
    ensures var t := Exec(Io(r), Exec(Poke(at, junk), Exec(Io(w), s)));
            t.ram[r.data..r.data + r.len] == s.ram[w.data..w.data + w.len]
            && t.disk == Exec(Io(w), s).disk
  {
    var from := Rounded(r).addr;
    var s2 := Exec(Poke(at, junk), Exec(Io(w), s));
    assert s2.disk[from..from + r.len] == s.ram[w.data..w.data + w.len];
  }

  /** A store of the given sizes, zero but for one byte on the disk and one in memory. */
  function Marked(diskSize: nat, ramSize: nat, d: nat, m: nat): (s: Store)
    ensures |s.disk| == diskSize && |s.ram| == ramSize
  {
    Store(seq(diskSize, i => if i == d then 1 else 0), seq(ramSize, i => if i == m then 1 else 0))
  }

  /** Whether a request with these bounds is carried out depends on sizes only. */
  predicate AsAsked(r: Request, diskSize: nat) {
    || r.len == 0
    || (r.addr % DISK_SECTOR == 0 && r.len % DISK_SECTOR == 0)
    || (r.addr + r.len > diskSize && (r.len % DISK_SECTOR != 0 || Rounded(r).addr + r.len > diskSize))
  }

  lemma EmptyCopy(r: Request, s: Store)
    requires r.len == 0
    ensures Copy(r, s) == s
  {
    if Fits(r, s) {
      assert s.disk == s.disk[..r.addr] + [] + s.disk[r.addr..];
      assert s.ram == s.ram[..r.data] + [] + s.ram[r.data..];
    }
  }

  lemma FirstByte(r: Request, s: Store)
    requires r.len > 0
    ensures if !Fits(r, s) then Copy(r, s) == s
            else if r.isWrite then Copy(r, s).disk[r.addr] == s.ram[r.data]
            else Copy(r, s).ram[r.data] == s.disk[r.addr]
  {
  }

  lemma BytesBefore(r: Request, s: Store, i: nat)
    requires i < r.addr && i < |s.disk|
    ensures Copy(r, s).disk[i] == s.disk[i]
  {
  }

  /** A store on which a request that is not made of whole sectors goes wrong. */
  lemma Differs(r: Request, diskSize: nat, ramSize: nat) returns (s: Store)
    requires !AsAsked(r, diskSize) && r.data + r.len <= ramSize
    ensures |s.disk| == diskSize && |s.ram| == ramSize && Exec(Io(r), s) != Copy(r, s)
  {
    hide Copy, Splice;
    if r.len % DISK_SECTOR != 0 {
      // refused by the device, although the bytes are there
      s := if r.isWrite then Marked(diskSize, ramSize, diskSize, r.data)
           else Marked(diskSize, ramSize, r.addr, ramSize);
      FirstByte(r, s);
    } else {
      var from := Rounded(r).addr;
      if r.isWrite {
        s := Marked(diskSize, ramSize, diskSize, r.data);
        FirstByte(Rounded(r), s);
        BytesBefore(r, s, from);
      } else {
        s := Marked(diskSize, ramSize, from, ramSize);
        FirstByte(Rounded(r), s);
        FirstByte(r, s);
      }
    }
  }

  /** A request does what it asks for, on every disk of this size, exactly when it is made of whole
      sectors (or is empty, or reaches past the end and is refused). */
  lemma AsAskedExactly(r: Request, diskSize: nat, ramSize: nat)
    requires r.data + r.len <= ramSize
    ensures AsAsked(r, diskSize)
            <==> forall s: Store :: |s.disk| == diskSize && |s.ram| == ramSize ==> Exec(Io(r), s) == Copy(r, s)
  {
    if AsAsked(r, diskSize) {
      forall s: Store | |s.disk| == diskSize && |s.ram| == ramSize
        ensures Exec(Io(r), s) == Copy(r, s)
      {
        if r.len == 0 {
          EmptyCopy(r, s);
          EmptyCopy(Rounded(r), s);
        } else if r.addr % DISK_SECTOR == 0 && r.len % DISK_SECTOR == 0 {
          assert Rounded(r) == r;
        }
      }
    } else {
      var s := Differs(r, diskSize, ramSize);
    }
  }

  /** The bytes `from` to `from + n` of what a request copies. */
  function Piece(r: Request, from: nat, n: nat): Request {
    r.(addr := r.addr + from, data := r.data + from, len := n)
  }

  predicate Within(k: nat, from: nat, n: nat) { from <= k < from + n }

  function Span(from: nat, n: nat): set<nat> { set k: nat | k < from + n && Within(k, from, n) }

  lemma {:induction false} SpanSize(n: nat)
    ensures |Span(0, n)| == n
  {
    if n == 0 {
      assert Span(0, 0) == {};
    } else {
      SpanSize(n - 1);
      assert Span(0, n) == Span(0, n - 1) + {n - 1};
    }
  }

  /** `src` put into `dst` at `at`, but for the bytes that are left out. */
  function Mix(dst: seq<byte>, at: nat, src: seq<byte>, left: set<nat>): (r: seq<byte>)
    ensures |r| == |dst|
  {
    seq(|dst|, i requires 0 <= i < |dst| => if at <= i < at + |src| && i - at !in left then src[i - at] else dst[i])
  }

  lemma MixAt(dst: seq<byte>, at: nat, src: seq<byte>, left: set<nat>, i: nat)
    requires i < |dst|
    ensures Mix(dst, at, src, left)[i] == if at <= i < at + |src| && i - at !in left then src[i - at] else dst[i]
  {
  }

  lemma SpliceAt(dst: seq<byte>, at: nat, src: seq<byte>, i: nat)
    requires at + |src| <= |dst| && i < |dst|
    ensures Splice(dst, at, src)[i] == if at <= i < at + |src| then src[i - at] else dst[i]
  {
  }

  lemma MixEnds(dst: seq<byte>, at: nat, src: seq<byte>)
    requires at + |src| <= |dst|
    ensures Mix(dst, at, src, Span(0, |src|)) == dst && Mix(dst, at, src, {}) == Splice(dst, at, src)
  {
    hide Splice;
    forall i | 0 <= i < |dst|
      ensures Mix(dst, at, src, {})[i] == Splice(dst, at, src)[i]
    {
      SpliceAt(dst, at, src, i);
    }
  }

  lemma MixMore(dst: seq<byte>, at: nat, src: seq<byte>, left: set<nat>, from: nat, n: nat)
    requires at + |src| <= |dst| && from + n <= |src|
    ensures Splice(Mix(dst, at, src, left), at + from, src[from..from + n]) == Mix(dst, at, src, left - Span(from, n))
  {
    hide Splice, Mix;
    var m, piece := Mix(dst, at, src, left), src[from..from + n];
    forall i | 0 <= i < |dst|
      ensures Splice(m, at + from, piece)[i] == Mix(dst, at, src, left - Span(from, n))[i]
    {
      SpliceAt(m, at + from, piece, i);
      MixAt(dst, at, src, left, i);
      MixAt(dst, at, src, left - Span(from, n), i);
    }
  }

  /** The store when a request's copy is made but for the bytes `left`. */
  function Partly(r: Request, left: set<nat>, s: Store): (t: Store)
    ensures |t.disk| == |s.disk| && |t.ram| == |s.ram|
  {
    if !Fits(r, s) then s
    else if r.isWrite then s.(disk := Mix(s.disk, r.addr, s.ram[r.data..r.data + r.len], left))
    else s.(ram := Mix(s.ram, r.data, s.disk[r.addr..r.addr + r.len], left))
  }

  lemma PartlyEnds(r: Request, s: Store)
    ensures Partly(r, Span(0, r.len), s) == s && Partly(r, {}, s) == Copy(r, s)
  {
    hide Mix, Splice;
    if Fits(r, s) {
      var src := if r.isWrite then s.ram[r.data..r.data + r.len] else s.disk[r.addr..r.addr + r.len];
      assert |src| == r.len;
      MixEnds(if r.isWrite then s.disk else s.ram, if r.isWrite then r.addr else r.data, src);
    }
  }

  lemma Slice(m: seq<byte>, at: nat, len: nat, from: nat, n: nat)
    requires at + len <= |m| && from + n <= len
    ensures m[at..at + len][from..from + n] == m[at + from..at + from + n]
  {
    var src, part := m[at..at + len], m[at + from..at + from + n];
    forall i | 0 <= i < n
      ensures src[from..from + n][i] == part[i]
    {
      assert src[from + i] == m[at + from + i];
    }
  }

  lemma PartlyWritten(r: Request, left: set<nat>, from: nat, n: nat, s: Store)
    requires Fits(r, s) && from + n <= r.len && r.isWrite
    ensures Copy(Piece(r, from, n), Partly(r, left, s)) == Partly(r, left - Span(from, n), s)
  {
    hide Mix, Splice, Span;
    var src := s.ram[r.data..r.data + r.len];
    var t := s.(disk := Mix(s.disk, r.addr, src, left));
    assert Partly(r, left, s) == t;
    assert Copy(Piece(r, from, n), t) == t.(disk := Splice(t.disk, r.addr + from, src[from..from + n])) by {
      Slice(s.ram, r.data, r.len, from, n);
    }
    MixMore(s.disk, r.addr, src, left, from, n);
  }

  lemma PartlyRead(r: Request, left: set<nat>, from: nat, n: nat, s: Store)
    requires Fits(r, s) && from + n <= r.len && !r.isWrite
    ensures Copy(Piece(r, from, n), Partly(r, left, s)) == Partly(r, left - Span(from, n), s)
  {
    hide Mix, Splice, Span;
    var src := s.disk[r.addr..r.addr + r.len];
    var t := s.(ram := Mix(s.ram, r.data, src, left));
    assert Partly(r, left, s) == t;
    assert Copy(Piece(r, from, n), t) == t.(ram := Splice(t.ram, r.data + from, src[from..from + n])) by {
      Slice(s.disk, r.addr, r.len, from, n);
    }
    MixMore(s.ram, r.data, src, left, from, n);
  }

  /** One more piece. */
  lemma PartlyMore(r: Request, left: set<nat>, from: nat, n: nat, s: Store)
    requires Fits(r, s) && from + n <= r.len
    ensures Copy(Piece(r, from, n), Partly(r, left, s)) == Partly(r, left - Span(from, n), s)
  {
    if r.isWrite {
      PartlyWritten(r, left, from, n, s);
    } else {
      PartlyRead(r, left, from, n, s);
    }
  }

  /** Where a piece begins and how long it is. */
  datatype Part = Part(from: nat, n: nat)

  function CopyParts(r: Request, parts: seq<Part>, s: Store): Store {
    if parts == [] then s
    else
      var p := parts[|parts| - 1];
      Copy(Piece(r, p.from, p.n), CopyParts(r, parts[..|parts| - 1], s))
  }

  function Uncopied(len: nat, parts: seq<Part>): set<nat> {
    if parts == [] then Span(0, len)
    else
      var p := parts[|parts| - 1];
      Uncopied(len, parts[..|parts| - 1]) - Span(p.from, p.n)
  }

  lemma {:induction false} PartsCopied(r: Request, parts: seq<Part>, s: Store)
    requires Fits(r, s) && forall p :: p in parts ==> p.from + p.n <= r.len
    ensures CopyParts(r, parts, s) == Partly(r, Uncopied(r.len, parts), s)
  {
    hide Copy, Partly;
    if parts == [] {
      PartlyEnds(r, s);
    } else {
      var front, p := parts[..|parts| - 1], parts[|parts| - 1];
      PartsCopied(r, front, s);
      PartlyMore(r, Uncopied(r.len, front), p.from, p.n, s);
    }
  }

  predicate InSome(parts: seq<Part>, k: nat) { exists p :: p in parts && Within(k, p.from, p.n) }

  lemma {:induction false} UncopiedIsNowhere(len: nat, parts: seq<Part>, k: nat)
    ensures k in Uncopied(len, parts) <==> k < len && !InSome(parts, k)
  {
    if parts != [] {
      var front, p := parts[..|parts| - 1], parts[|parts| - 1];
      UncopiedIsNowhere(len, front, k);
      assert forall q :: q in parts <==> q in front || q == p;
    }
  }

  /** A copy may be made piece by piece, in any order, as long as each byte is in one of the pieces. */
  lemma CopyPieces(r: Request, parts: seq<Part>, s: Store)
    requires Fits(r, s) && forall p :: p in parts ==> p.from + p.n <= r.len
    requires forall k: nat :: k < r.len ==> InSome(parts, k)
    ensures CopyParts(r, parts, s) == Copy(r, s)
  {
    hide Copy, Partly, Uncopied;
    PartsCopied(r, parts, s);
    forall k: nat
      ensures k !in Uncopied(r.len, parts)
    {
      UncopiedIsNowhere(r.len, parts, k);
    }
    assert Uncopied(r.len, parts) == {};
    PartlyEnds(r, s);
  }

  /** `t` is `s` except inside the region the request writes, where some bytes may already be those of `u`. */
  predicate Between(r: Request, s: Store, t: Store, u: Store)
    requires |t.disk| == |s.disk| == |u.disk| && |t.ram| == |s.ram| == |u.ram|
  {
    && (forall i :: 0 <= i < |s.disk| && t.disk[i] != s.disk[i] ==>
          r.isWrite && r.addr <= i < r.addr + r.len && t.disk[i] == u.disk[i])
    && (forall i :: 0 <= i < |s.ram| && t.ram[i] != s.ram[i] ==>
          !r.isWrite && r.data <= i < r.data + r.len && t.ram[i] == u.ram[i])
  }

  /** Some of the request's effect has come about, and nothing else. */
  predicate Underway(r: Request, s: Store, t: Store) {
    |t.disk| == |s.disk| && |t.ram| == |s.ram| && Between(Rounded(r), s, t, Exec(Io(r), s))
  }

  lemma PartIsBetween(r: Request, left: set<nat>, s: Store)
    ensures Between(r, s, Partly(r, left, s), Partly(r, {}, s))
  {
  }

  lemma PartIsUnderway(r: Request, left: set<nat>, s: Store)
    requires Served(r, s)
    ensures Underway(r, s, Partly(Rounded(r), left, s))
  {
    hide Copy, Partly;
    PartIsBetween(Rounded(r), left, s);
    PartlyEnds(Rounded(r), s);
  }

  lemma EffectIsUnderway(r: Request, s: Store)
    ensures Underway(r, s, s) && Underway(r, s, Exec(Io(r), s))
  {
    hide Partly, Copy;
    if Served(r, s) {
      PartIsUnderway(r, {}, s);
      PartlyEnds(Rounded(r), s);
    }
  }
}
