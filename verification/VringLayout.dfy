/** virtio-ring.c: the size of a ring and where its three parts go in a buffer. */
module VringLayout {
  import opened Basics

  /** virtio_vring_size, whose sum is kept in 32 bits. */
  function RingBytes(q: nat): nat {
    (PageAlign(16 * q) + PageAlign(4 + 2 * q) + PageAlign(4 + 8 * q)) % U32
  }

  /** Where the avail and used rings go, and whether both of virtio_vring_init's checks pass. */
  function Avail(buf: nat, q: nat): nat { PageAlign(buf + 16 * q) }
  function Used(buf: nat, q: nat): nat { PageAlign(Avail(buf, q) + 4 + 2 * q) }
  predicate Accepted(buf: nat, len: nat, q: nat) {
    RingBytes(q) <= len && Used(buf, q) + 12 + 8 * q <= buf + len
  }

  /** `struct vring`, with addresses for pointers. */
  class VringInfo {
    var size: nat
    var qid: int
    var desc: nat
    var avail: nat
    var used: nat

    constructor ()
      ensures desc == avail == used == size == 0
    {
      size, qid, desc, avail, used := 0, 0, 0, 0, 0;
    }

    /** virtio_vring_init for a buffer of `len` bytes at `buf`, where address arithmetic does not wrap. */
    method Init(buf: nat, len: nat, q: nat, id: int) returns (r: int)
      requires q < U32 && len < U32 && buf + 16 * U32 < U64
      modifies this
      ensures r == 0 <==> Accepted(buf, len, q)
      ensures r != 0 ==> r == if RingBytes(q) > len then -1 else -2
      ensures r == -1 ==> unchanged(this)
      ensures r != -1 ==>
                size == q && qid == id && desc == PageAlign(buf) && avail == Avail(buf, q) && used == Used(buf, q)
    {
      if RingBytes(q) > len {
        return -1;
      }
      size := q;
      qid := id;
      desc := PageAlign(buf);
      avail := PageAlign(buf + 16 * q);
      used := PageAlign(avail + 4 + 2 * q);
      var end := used + 4 + 8 * q + 4 + 4;
      if end > buf + len {
        return -2;
      }
      return 0;
    }
  }

  lemma NoOverflow(q: nat)
    requires q <= 0x8000
    ensures RingBytes(q) == PageAlign(16 * q) + PageAlign(4 + 2 * q) + PageAlign(4 + 8 * q)
  {
  }

  lemma AlignShift(base: nat, n: nat)
    requires base % PAGE == 0
    ensures PageAlign(base + n) == base + PageAlign(n)
  {
    var b := base / PAGE;
    assert base == b * PAGE;
    assert (base + n + (PAGE - 1)) / PAGE == b + (n + (PAGE - 1)) / PAGE;
  }

  lemma UsedAt(buf: nat, q: nat)
    requires buf % PAGE == 0
    ensures Avail(buf, q) == buf + PageAlign(16 * q)
    ensures Used(buf, q) == buf + PageAlign(16 * q) + PageAlign(4 + 2 * q)
  {
    AlignShift(buf, 16 * q);
    AlignShift(Avail(buf, q), 4 + 2 * q);
  }

  /** The end check counts one element beyond the ring: it fits in the used ring's pages unless they
      are full but for four bytes. */
  lemma EndFits(q: nat)
    ensures if q % 512 == 511 then PageAlign(4 + 8 * q) == 8 + 8 * q else 12 + 8 * q <= PageAlign(4 + 8 * q)
  {
    var m, r := q / 512, q % 512;
    assert 4 + 8 * q + (PAGE - 1) == (m + 1) * PAGE + (8 * r + 3);
    assert PageAlign(4 + 8 * q) == (m + 1) * PAGE;
  }

  /** For a page-aligned buffer the ring fits exactly when its size says so, except that the end
      check refuses a tight buffer when `q` is 511 modulo 512. */
  lemma AcceptedExactly(buf: nat, len: nat, q: nat)
    requires buf % PAGE == 0 && q <= 0x8000
    ensures Accepted(buf, len, q) <==> RingBytes(q) <= len && !(q % 512 == 511 && len < RingBytes(q) + 4)
  {
    NoOverflow(q);
    UsedAt(buf, q);
    EndFits(q);
  }

  /** A ring of 511 entries fits four pages, and is refused. */
  lemma FullRingIsRefused()
    ensures RingBytes(511) == 4 * PAGE && !Accepted(0, 4 * PAGE, 511)
  {
  }

  /** The sizes a queue may have are powers of two, none of which is 511 modulo 512: there the
      second check never fires. */
  lemma PowerOfTwoAccepted(buf: nat, len: nat, q: nat)
    requires buf % PAGE == 0
    requires q in {1, 2, 4, 8, 16, 32, 64, 128, 256, 512, 1024, 2048, 4096, 8192, 16384, 32768}
    ensures Accepted(buf, len, q) <==> RingBytes(q) <= len
  {
    AcceptedExactly(buf, len, q);
  }

  lemma AvailFits(q: nat)
    requires q in {1, 2, 4, 8, 16, 32, 64, 128, 256, 512, 1024, 2048, 4096, 8192, 16384, 32768}
    ensures 6 + 2 * q <= PageAlign(4 + 2 * q)
  {
  }

  lemma AlignOf(a: nat, r: nat)
    requires r <= PAGE
    ensures PageAlign(a * PAGE + r) == if r == 0 then a * PAGE else (a + 1) * PAGE
  {
    if r == 0 {
      QuotientUnique(a * PAGE + (PAGE - 1), PAGE, a, PAGE - 1);
    } else {
      QuotientUnique(a * PAGE + r + (PAGE - 1), PAGE, a + 1, r - 1);
    }
  }

  /** The table ends before the avail ring unless both roundings fall on the same page boundary. */
  lemma TableFits(buf: nat, q: nat)
    requires q in {1, 2, 4, 8, 16, 32, 64, 128, 256, 512, 1024, 2048, 4096, 8192, 16384, 32768}
    ensures PageAlign(buf) + 16 * q <= Avail(buf, q) <==> buf % PAGE == 0 || q >= 256 || buf % PAGE + 16 * q > PAGE
  {
    hide PageAlign;
    var a, r := buf / PAGE, buf % PAGE;
    assert buf == a * PAGE + r;
    AlignOf(a, r);
    if q >= 256 {
      var k := q / 256;
      assert 16 * q == k * PAGE;
      AlignOf(a + k, r);
      assert buf + 16 * q == (a + k) * PAGE + r;
    } else if r + 16 * q <= PAGE {
      AlignOf(a, r + 16 * q);
    } else {
      AlignOf(a + 1, r + 16 * q - PAGE);
      assert buf + 16 * q == (a + 1) * PAGE + (r + 16 * q - PAGE);
    }
  }

  lemma Ordered(buf: nat, q: nat)
    ensures buf <= PageAlign(buf) <= Avail(buf, q)
  {
    var a, r := buf / PAGE, buf % PAGE;
    assert buf == a * PAGE + r;
    AlignOf(a, r);
    var b := Avail(buf, q) / PAGE;
    assert Avail(buf, q) == b * PAGE;
    assert r > 0 ==> b > a;
  }

  /** An accepted ring is three page-aligned regions, in order, inside the buffer, each large enough for
      what VirtIO 1.1 section 2.6 puts there, event fields included. They are apart exactly when the buffer
      is page-aligned, the table fills whole pages, or it reaches into the page after the buffer's first. */
  lemma LayoutSound(buf: nat, len: nat, q: nat)
    requires Accepted(buf, len, q)
    requires q in {1, 2, 4, 8, 16, 32, 64, 128, 256, 512, 1024, 2048, 4096, 8192, 16384, 32768}
    ensures buf <= PageAlign(buf) <= Avail(buf, q) && (buf % PAGE == 0 ==> PageAlign(buf) == buf)
    ensures PageAlign(buf) % PAGE == 0 && Avail(buf, q) % PAGE == 0 && Used(buf, q) % PAGE == 0
    ensures PageAlign(buf) + 16 * q <= Avail(buf, q) <==> buf % PAGE == 0 || q >= 256 || buf % PAGE + 16 * q > PAGE
    ensures Avail(buf, q) + 6 + 2 * q <= Used(buf, q)
    ensures Used(buf, q) + 6 + 8 * q <= buf + len
  {
    hide PageAlign;
    AlignOf(buf / PAGE, 0);
    AlignShift(Avail(buf, q), 4 + 2 * q);
    TableFits(buf, q);
    AvailFits(q);
    Ordered(buf, q);
  }

  /** In a buffer that starts one byte behind a page boundary the avail ring of eight entries lies over the
      table. */
  lemma UnalignedRingOverlaps()
    ensures Accepted(1, 3 * PAGE, 8) && Avail(1, 8) == PageAlign(1) == PAGE
  {
  }

  /** The two static buffers of three pages hold the rings the drivers ask for. */
  lemma StaticBuffersSuffice(buf: nat)
    requires buf % PAGE == 0
    ensures Accepted(buf, 3 * PAGE, 128) && Accepted(buf, 3 * PAGE, 8)
    ensures !Accepted(buf, 3 * PAGE, 512)
  {
    PowerOfTwoAccepted(buf, 3 * PAGE, 128);
    PowerOfTwoAccepted(buf, 3 * PAGE, 8);
    PowerOfTwoAccepted(buf, 3 * PAGE, 512);
  }
}
