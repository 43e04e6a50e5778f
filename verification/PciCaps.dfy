/** virtio-pci.c: the walk over a function's capability list. */
module PciCaps {
  import opened Basics

  const CONFIG_SIZE: nat := 4096
  const PCI_ADDR_BAR0: nat := 0x10
  const PCI_ADDR_CAP: nat := 0x34
  const PCI_CAP_ID_VNDR: nat := 0x09
  const COMMON_CFG: nat := 1
  const NOTIFY_CFG: nat := 2
  const ISR_CFG: nat := 3
  const DEVICE_CFG: nat := 4

  /** One function's slice of the configuration space. */
  type Config = c: seq<byte> | |c| == CONFIG_SIZE
    witness seq(CONFIG_SIZE, _ => 0)

  function LittleEndian(b: seq<byte>): nat
  {
    if b == [] then 0 else b[0] as nat + 0x100 * LittleEndian(b[1..])
  }

  /** The fields of `struct virtio_pci_cap` that are used, from its 16 bytes. */
  datatype Cap = Cap(vndr: nat, next: byte, typ: nat, bar: nat, offset: nat)

  function CapOf(b: seq<byte>): Cap
    requires |b| == 16
  {
    Cap(b[0], b[1], b[3], b[4], LittleEndian(b[8..12]))
  }

  function CapAt(config: Config, pos: byte): Cap {
    CapOf(config[pos..pos + 16])
  }

  /** get_cfg_addr: the BAR the capability names, read as 64 bits without its flags, plus the offset. */
  function CfgAddr(config: Config, cap: Cap): nat
    requires cap.bar < 256
  {
    var reg := PCI_ADDR_BAR0 + 4 * cap.bar;
    (LittleEndian(config[reg..reg + 8]) / 16 * 16 + cap.offset) % U64
  }

  lemma FourBytes(b: seq<byte>)
    requires |b| >= 4
    ensures LittleEndian(b) ==
              b[0] as nat + 0x100 * b[1] as nat + 0x1_0000 * b[2] as nat + 0x100_0000 * b[3] as nat
              + U32 * LittleEndian(b[4..])
  {
    var c, d := b[1..], b[2..];
    assert c[1..] == d && d[1..] == b[3..] && b[3..][1..] == b[4..];
    assert LittleEndian(b) == b[0] as nat + 0x100 * LittleEndian(c);
    assert LittleEndian(c) == b[1] as nat + 0x100 * LittleEndian(d);
    assert LittleEndian(d) == b[2] as nat + 0x100 * LittleEndian(b[3..]);
    assert LittleEndian(b[3..]) == b[3] as nat + 0x100 * LittleEndian(b[4..]);
  }

  lemma LittleEndianHalves(b: seq<byte>)
    requires |b| == 8
    ensures LittleEndian(b) == LittleEndian(b[..4]) + U32 * LittleEndian(b[4..])
    ensures LittleEndian(b[..4]) < U32 && LittleEndian(b[4..]) < U32
  {
    var l, h := b[..4], b[4..];
    FourBytes(b);
    FourBytes(l);
    FourBytes(h);
    assert l[4..] == [] && h[4..] == [];
  }

  /** The word at an offset, the least significant byte first. */
  function WordAt(config: Config, at: nat): (w: nat)
    requires at + 4 <= CONFIG_SIZE
    ensures w < U32
  {
    config[at] as nat + 256 * config[at + 1] as nat + 65536 * config[at + 2] as nat + 16777216 * config[at + 3] as nat
  }

  lemma WordIs(config: Config, at: nat)
    requires at + 4 <= CONFIG_SIZE
    ensures LittleEndian(config[at..at + 4]) == WordAt(config, at)
  {
    var b := config[at..at + 4];
    FourBytes(b);
    assert b[4..] == [];
  }

  /** The two words that name the BAR's place, the flags in the lowest four bits aside. */
  lemma PlaceIs(config: Config, cap: Cap)
    requires cap.bar < 256
    ensures var low, high := WordAt(config, 0x10 + 4 * cap.bar), WordAt(config, 0x14 + 4 * cap.bar);
            CfgAddr(config, cap) == ((high * U32 + low) / 16 * 16 + cap.offset) % U64 && high * U32 + low < U64
  {
    var reg: nat := 0x10 + 4 * cap.bar;
    var b := config[reg..reg + 8];
    assert b[..4] == config[reg..reg + 4] && b[4..] == config[reg + 4..reg + 8];
    LittleEndianHalves(b);
    WordIs(config, reg);
    WordIs(config, reg + 4);
  }

  // ---------------------------------------------------------------- the list

  /** `chain` is the list of offsets from `pos` up to the terminating 0. */
  predicate IsChain(config: Config, pos: byte, chain: seq<byte>)
    decreases |chain|
  {
    if pos == 0 then chain == []
    else chain != [] && chain[0] == pos && IsChain(config, CapAt(config, pos).next, chain[1..])
  }

  function BytesBelow(n: nat): (all: set<byte>)
    requires n <= 256
    ensures forall b: byte :: b < n ==> b in all
  {
    if n == 0 then {} else BytesBelow(n - 1) + {n - 1}
  }

  /** The list from `pos`, or None when it comes back to an offset it has visited. */
  function Follow(config: Config, pos: byte, visited: set<byte>): (chain: Option<seq<byte>>)
    ensures chain.Some? ==> IsChain(config, pos, chain.value)
    decreases BytesBelow(256) - visited
  {
    if pos == 0 then Some([])
    else if pos in visited then None
    else
      assert pos in BytesBelow(256);
      match Follow(config, CapAt(config, pos).next, visited + {pos})
      case None => None
      case Some(rest) => Some([pos] + rest)
  }

  predicate Acyclic(config: Config) {
    Follow(config, config[PCI_ADDR_CAP], {}).Some?
  }

  lemma {:induction false} ChainUnique(config: Config, pos: byte, c: seq<byte>, d: seq<byte>)
    requires IsChain(config, pos, c) && IsChain(config, pos, d)
    ensures c == d
    decreases |c|
  {
    if pos != 0 {
      ChainUnique(config, CapAt(config, pos).next, c[1..], d[1..]);
      assert c == [pos] + c[1..] && d == [pos] + d[1..];
    }
  }

  /** What has been visited lies strictly before `c` on the list. */
  ghost predicate Behind(config: Config, visited: set<byte>, c: seq<byte>) {
    forall v :: v in visited ==> exists d :: IsChain(config, v, d) && |d| > |c|
  }

  lemma {:induction false} FollowFinds(config: Config, pos: byte, visited: set<byte>, c: seq<byte>)
    requires IsChain(config, pos, c) && Behind(config, visited, c)
    ensures Follow(config, pos, visited) == Some(c)
    decreases |c|
  {
    if pos != 0 {
      if pos in visited {
        var d :| IsChain(config, pos, d) && |d| > |c|;
        ChainUnique(config, pos, c, d);
        assert false;
      }
      var rest := c[1..];
      forall v | v in visited + {pos}
        ensures exists d :: IsChain(config, v, d) && |d| > |rest|
      {
        if v == pos {
          assert IsChain(config, v, c);
        } else {
          var d :| IsChain(config, v, d) && |d| > |c|;
        }
      }
      FollowFinds(config, CapAt(config, pos).next, visited + {pos}, rest);
      assert c == [pos] + rest;
    }
  }

  ghost predicate Ends(config: Config, pos: byte) {
    exists chain :: IsChain(config, pos, chain)
  }

  /** The list ends exactly when following it never meets an offset twice. */
  lemma AcyclicExactly(config: Config)
    ensures Acyclic(config) <==> Ends(config, config[PCI_ADDR_CAP])
  {
    var head := config[PCI_ADDR_CAP];
    match Follow(config, head, {})
    case Some(c) =>
      assert IsChain(config, head, c);
    case None =>
      forall c
        ensures !IsChain(config, head, c)
      {
        if IsChain(config, head, c) {
          FollowFinds(config, head, {}, c);
        }
      }
  }

  // ---------------------------------------------------------------- what the walk computes

  predicate Matches(config: Config, pos: byte, typ: nat) {
    CapAt(config, pos).vndr == PCI_CAP_ID_VNDR && CapAt(config, pos).typ == typ
  }

  /** The last entry of a type on the list, if any. */
  function LastOf(config: Config, chain: seq<byte>, typ: nat): Option<byte> {
    if chain == [] then None
    else
      var front, p := chain[..|chain| - 1], chain[|chain| - 1];
      if Matches(config, p, typ) then Some(p) else LastOf(config, front, typ)
  }

  lemma {:induction false} LastOfMeans(config: Config, chain: seq<byte>, typ: nat)
    ensures match LastOf(config, chain, typ)
            case None => forall j :: 0 <= j < |chain| ==> !Matches(config, chain[j], typ)
            case Some(p) =>
              exists i :: 0 <= i < |chain| && chain[i] == p && Matches(config, p, typ)
                          && forall j :: i < j < |chain| ==> !Matches(config, chain[j], typ)
  {
    if chain != [] && !Matches(config, chain[|chain| - 1], typ) {
      LastOfMeans(config, chain[..|chain| - 1], typ);
    }
  }

  /** The pointers of `virtio_pci_hw_t`; 0 is NULL. */
  datatype Pointers = Pointers(common: nat, notify: nat, isr: nat, device: nat, multiplier: nat)

  function AddrOr(config: Config, last: Option<byte>, prior: nat): nat {
    match last
    case None => prior
    case Some(p) => CfgAddr(config, CapAt(config, p))
  }

  function MultiplierOr(config: Config, last: Option<byte>, prior: nat): nat {
    match last
    case None => prior
    case Some(p) => LittleEndian(config[p as nat + 16..p as nat + 20])
  }

  /** Each pointer comes from the last entry of its type, and keeps its value when there is none. */
  function After(config: Config, chain: seq<byte>, was: Pointers): Pointers {
    Pointers(AddrOr(config, LastOf(config, chain, COMMON_CFG), was.common),
             AddrOr(config, LastOf(config, chain, NOTIFY_CFG), was.notify),
             AddrOr(config, LastOf(config, chain, ISR_CFG), was.isr),
             AddrOr(config, LastOf(config, chain, DEVICE_CFG), was.device),
             MultiplierOr(config, LastOf(config, chain, NOTIFY_CFG), was.multiplier))
  }

  lemma AfterSnoc(config: Config, chain: seq<byte>, pos: byte, was: Pointers)
    ensures var p, cap := After(config, chain, was), CapAt(config, pos);
            var addr := CfgAddr(config, cap);
            After(config, chain + [pos], was)
            == if cap.vndr != PCI_CAP_ID_VNDR then p
               else if cap.typ == COMMON_CFG then p.(common := addr)
               else if cap.typ == NOTIFY_CFG
               then p.(notify := addr, multiplier := LittleEndian(config[pos as nat + 16..pos as nat + 20]))
               else if cap.typ == DEVICE_CFG then p.(device := addr)
               else if cap.typ == ISR_CFG then p.(isr := addr)
               else p
  {
    assert (chain + [pos])[..|chain|] == chain;
  }

  // ---------------------------------------------------------------- the code

  /** pci_config_read: byte by byte. */
  method ConfigRead(config: Config, dst: array<byte>, len: nat, offset: nat)
    requires len <= dst.Length && offset + len <= CONFIG_SIZE
    modifies dst
    ensures dst[..len] == config[offset..offset + len]
    ensures dst[len..] == old(dst[len..])
  {
    var left, at, from := len, 0, offset;
    while left > 0
      invariant at + left == len && from == offset + at
      invariant dst[..at] == config[offset..offset + at]
      invariant dst[len..] == old(dst[len..])
    {
      dst[at] := config[from];
      left, at, from := left - 1, at + 1, from + 1;
    }
  }

  class Hw {
    var commonCfg: nat
    var notifyCfg: nat
    var isrCfg: nat
    var deviceCfg: nat
    var multiplier: nat

    function Value(): Pointers
      reads this
    {
      Pointers(commonCfg, notifyCfg, isrCfg, deviceCfg, multiplier)
    }

    constructor ()
      ensures Value() == Pointers(0, 0, 0, 0, 0)
    {
      commonCfg, notifyCfg, isrCfg, deviceCfg, multiplier := 0, 0, 0, 0, 0;
    }

    /** The body of the walk, for the capability at `pos`. */
    method Visit(config: Config, pos: byte, ghost chain: seq<byte>, ghost was: Pointers) returns (next: byte)
      requires Value() == After(config, chain, was)
      modifies this
      ensures Value() == After(config, chain + [pos], was)
      ensures next == CapAt(config, pos).next
    {
      AfterSnoc(config, chain, pos, was);
      var buf := new byte[16];
      ConfigRead(config, buf, 16, pos);
      assert buf[..] == buf[..16];
      var cap := CapOf(buf[..]);
      next := cap.next;
      if cap.vndr != PCI_CAP_ID_VNDR {
        return;
      }
      match cap.typ
      case 1 =>
        commonCfg := CfgAddr(config, cap);
      case 2 =>
        var word := new byte[4];
        ConfigRead(config, word, 4, pos + 16);
        assert word[..] == word[..4];
        multiplier := LittleEndian(word[..]);
        notifyCfg := CfgAddr(config, cap);
      case 4 =>
        deviceCfg := CfgAddr(config, cap);
      case 3 =>
        isrCfg := CfgAddr(config, cap);
      case _ =>
    }

    /** virtio_pci_read_caps, on a list that ends. */
    method ReadCaps(config: Config) returns (r: int)
      requires Acyclic(config)
      modifies this
      ensures Value() == After(config, Follow(config, config[PCI_ADDR_CAP], {}).value, old(Value()))
      ensures r == if commonCfg == 0 || notifyCfg == 0 || deviceCfg == 0 || isrCfg == 0 then -1 else 0
    {
      ghost var all, was, seen := Follow(config, config[PCI_ADDR_CAP], {}).value, Value(), 0;
      var pos := config[PCI_ADDR_CAP];
      while pos != 0
        invariant seen <= |all| && IsChain(config, pos, all[seen..])
        invariant Value() == After(config, all[..seen], was)
        decreases |all| - seen
      {
        assert all[..seen] + [pos] == all[..seen + 1];
        assert all[seen..][1..] == all[seen + 1..];
        pos := Visit(config, pos, all[..seen], was);
        seen := seen + 1;
      }
      assert all[..seen] == all;
      if commonCfg == 0 || notifyCfg == 0 || deviceCfg == 0 || isrCfg == 0 {
        return -1;
      }
      return 0;
    }
  }
}
