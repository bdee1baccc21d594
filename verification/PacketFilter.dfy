/**
 The classic BPF program of the packet socket, and an interpreter for the instructions it
 uses: loads of ancillary data and of single bytes, AND, conditional jumps, and returns.
 */
module PacketFilter {
  import opened Bytes
  import Checksum
  import opened NdMessage
  import opened NdPacket

  datatype Extension = InterfaceIndex | PacketType

  datatype Instr =
    | LoadExtension(ext: Extension)
    | LoadByte(off: nat)
    | AndConst(val: nat)
    | JumpIfEqual(val: nat, skipTrue: byte, skipFalse: byte)
    | JumpIfNotEqual(val: nat, skipTrue: byte)
    | Return(val: nat)

  /** What the kernel hands the filter: the receiving interface, the packet type and the data from
      the IPv6 header on. */
  datatype Frame = Frame(ifIndex: nat, pktType: nat, data: seq<byte>)

  const PACKET_OTHERHOST: nat := 3

  /** Bitwise AND. */
  function BitAnd(a: nat, b: nat): nat
    decreases a
  {
    if a == 0 || b == 0 then 0
    else (if a % 2 == 1 && b % 2 == 1 then 1 else 0) + 2 * BitAnd(a / 2, b / 2)
  }

  /** How many bytes of the frame to deliver; a load past the end of the data drops it, as running
      off the program does. */
  function Run(prog: seq<Instr>, pc: nat, acc: nat, f: Frame): nat
    decreases |prog| - pc
  {
    if pc >= |prog| then 0
    else match prog[pc]
      case LoadExtension(ext) => Run(prog, pc + 1, if ext.InterfaceIndex? then f.ifIndex else f.pktType, f)
      case LoadByte(off) => if off >= |f.data| then 0 else Run(prog, pc + 1, f.data[off], f)
      case AndConst(val) => Run(prog, pc + 1, BitAnd(acc, val), f)
      case JumpIfEqual(val, t, e) => Run(prog, pc + 1 + (if acc == val then t else e), acc, f)
      case JumpIfNotEqual(val, t) => Run(prog, pc + 1 + (if acc != val then t else 0), acc, f)
      case Return(val) => val
  }

  function LinkFilter(ifIndex: int): seq<Instr> {
    [LoadExtension(InterfaceIndex), JumpIfEqual(ifIndex % UINT32, 1, 0), Return(0),
     LoadExtension(PacketType), JumpIfEqual(PACKET_OTHERHOST, 0, 1), Return(0)]
  }

  /** The offset of a forward jump, in the one byte the instruction has for it. */
  function SkipTo(from: nat, to: nat): byte
    requires from < to
  {
    (to - from - 1) % 256
  }

  /** The jump for the i-th of n types. */
  function TypeJump(t: byte, i: nat, n: nat): Instr
    requires i < n
  {
    JumpIfEqual(t, SkipTo(8 + i, 9 + n), 0)
  }

  function TypeJumps(types: seq<byte>): (p: seq<Instr>)
    ensures |p| == |types|
    ensures forall i :: 0 <= i < |types| ==> p[i] == TypeJump(types[i], i, |types|)
  {
    seq(|types|, i requires 0 <= i < |types| => TypeJump(types[i], i, |types|))
  }

  function Preamble(n: nat): seq<Instr> {
    [LoadByte(0), AndConst(0xf0), JumpIfNotEqual(0x60, SkipTo(2, 8 + n)),
     LoadByte(6), JumpIfNotEqual(Checksum.NEXT_HEADER_ICMPV6, SkipTo(4, 8 + n)),
     LoadByte(7), JumpIfNotEqual(HOP_LIMIT, SkipTo(6, 8 + n)),
     LoadByte(40)]
  }

  function MessageFilter(types: seq<byte>): seq<Instr> {
    Preamble(|types|) + TypeJumps(types) + [Return(0), Return(0xffff)]
  }

  function FilterProgram(ifIndex: int, types: seq<byte>): seq<Instr> {
    LinkFilter(ifIndex) + MessageFilter(types)
  }

  /** filterProgram, its jumps appended one by one. */
  method BuildFilter(ifIndex: int, types: seq<byte>) returns (prog: seq<Instr>)
    ensures prog == FilterProgram(ifIndex, types)
  {
    var n := |types|;
    prog := Preamble(n);
    for i := 0 to n
      invariant prog == Preamble(n) + TypeJumps(types)[..i]
    {
      prog := prog + [JumpIfEqual(types[i], SkipTo(8 + i, 9 + n), 0)];
      assert TypeJumps(types)[..i + 1] == TypeJumps(types)[..i] + [TypeJumps(types)[i]];
    }
    assert TypeJumps(types)[..n] == TypeJumps(types);
    prog := LinkFilter(ifIndex) + (prog + [Return(0), Return(0xffff)]);
  }

  // What the filter is meant to pass.

  /** Received on the interface itself, and not for another host (packet type 3). */
  predicate OnLink(ifIndex: int, f: Frame) {
    f.ifIndex == ifIndex % UINT32 && f.pktType != 3
  }

  /** An IPv6 packet with the Neighbor Discovery hop limit that carries an ICMPv6 message of a listed type. */
  predicate Wanted(types: seq<byte>, data: seq<byte>) {
    && |data| > 40
    && data[0] / 16 == 6
    && data[6] == 58
    && data[7] == 255
    && data[40] in types
  }

  /** The program delivers exactly the wanted frames of the link, up to 65535 bytes of them. */
  ghost predicate Exact(ifIndex: int, types: seq<byte>) {
    forall f: Frame :: Run(FilterProgram(ifIndex, types), 0, 0, f)
      == if OnLink(ifIndex, f) && Wanted(types, f.data) then 0xffff else 0
  }

  // Proof.

  /** Jumps are relative, so a program runs the same behind another. */
  lemma {:induction false} Relocate(p: seq<Instr>, q: seq<Instr>, pc: nat, acc: nat, f: Frame)
    ensures Run(p + q, |p| + pc, acc, f) == Run(q, pc, acc, f)
    decreases |q| - pc
  {
    if pc < |q| {
      assert (p + q)[|p| + pc] == q[pc];
      match q[pc]
      case LoadExtension(ext) => Relocate(p, q, pc + 1, if ext.InterfaceIndex? then f.ifIndex else f.pktType, f);
      case LoadByte(off) =>
        if off < |f.data| {
          Relocate(p, q, pc + 1, f.data[off], f);
        }
      case AndConst(val) => Relocate(p, q, pc + 1, BitAnd(acc, val), f);
      case JumpIfEqual(val, t, e) => Relocate(p, q, pc + 1 + (if acc == val then t else e), acc, f);
      case JumpIfNotEqual(val, t) => Relocate(p, q, pc + 1 + (if acc != val then t else 0), acc, f);
      case Return(_) =>
    }
  }

  lemma {:induction false} LinkFilterExact(ifIndex: int, q: seq<Instr>, f: Frame)
    ensures Run(LinkFilter(ifIndex) + q, 0, 0, f) == if OnLink(ifIndex, f) then Run(q, 0, f.pktType, f) else 0
  {
    var p := LinkFilter(ifIndex);
    var r := p + q;
    assert r[0] == p[0] && r[1] == p[1] && r[2] == p[2] && r[3] == p[3] && r[4] == p[4] && r[5] == p[5];
    Relocate(p, q, 0, f.pktType, f);
    assert Run(r, 0, 0, f) == Run(r, 1, f.ifIndex, f);
    assert Run(r, 1, f.ifIndex, f) == if f.ifIndex == ifIndex % UINT32 then Run(r, 3, f.ifIndex, f) else 0;
    assert Run(r, 4, f.pktType, f) == if f.pktType == PACKET_OTHERHOST then 0 else Run(r, 6, f.pktType, f);
    assert Run(r, 3, f.ifIndex, f) == Run(r, 4, f.pktType, f);
  }

  lemma {:induction false} EvenMask(a: nat, m: nat)
    ensures BitAnd(a, 2 * m) == 2 * BitAnd(a / 2, m)
  {
    if a != 0 && m != 0 {
      assert 2 * m % 2 == 0 && 2 * m / 2 == m;
    }
  }

  lemma {:induction false} OnesMask(c: nat, k: nat)
    requires c < Pow2(k)
    ensures BitAnd(c, Pow2(k) - 1) == c
    decreases k
  {
    if c != 0 {
      var (m, ones) := (Pow2(k - 1), Pow2(k) - 1);
      assert ones % 2 == 1 && ones / 2 == m - 1;
      OnesMask(c / 2, k - 1);
    }
  }

  /** Masking a byte with 0xf0 leaves its high half. */
  lemma {:induction false} HighHalf(b: byte)
    ensures BitAnd(b, 0xf0) == b / 16 * 16
  {
    EvenMask(b, 0x78);
    EvenMask(b / 2, 0x3c);
    EvenMask(b / 2 / 2, 0x1e);
    EvenMask(b / 2 / 2 / 2, 0x0f);
    assert b / 2 / 2 / 2 / 2 == b / 16;
    OnesMask(b / 16, 4);
  }

  /** The layout of the message filter, instruction by instruction. */
  ghost predicate IsMessageFilter(p: seq<Instr>, types: seq<byte>) {
    var n := |types|;
    && |p| == n + 10
    && p[0] == LoadByte(0) && p[1] == AndConst(0xf0) && p[2] == JumpIfNotEqual(0x60, (n + 5) % 256)
    && p[3] == LoadByte(6) && p[4] == JumpIfNotEqual(Checksum.NEXT_HEADER_ICMPV6, (n + 3) % 256)
    && p[5] == LoadByte(7) && p[6] == JumpIfNotEqual(HOP_LIMIT, (n + 1) % 256)
    && p[7] == LoadByte(40)
    && (forall i :: 0 <= i < n ==> p[8 + i] == JumpIfEqual(types[i], (n - i) % 256, 0))
    && p[8 + n] == Return(0) && p[9 + n] == Return(0xffff)
  }

  lemma {:induction false} Layout(types: seq<byte>)
    ensures IsMessageFilter(MessageFilter(types), types)
  {
  }

  /** From the i-th type on, the accumulator is compared with the rest of the list. */
  lemma {:induction false} TypeScan(p: seq<Instr>, types: seq<byte>, i: nat, t: nat, f: Frame)
    requires IsMessageFilter(p, types) && i <= |types| <= i + 255
    ensures Run(p, 8 + i, t, f) == if t in types[i..] then 0xffff else 0
    decreases |types| - i
  {
    var n := |types|;
    if i < n {
      assert p[8 + i] == JumpIfEqual(types[i], n - i, 0);
      if t == types[i] {
        assert types[i..][0] == t;
      } else {
        TypeScan(p, types, i + 1, t, f);
        assert types[i..] == [types[i]] + types[i + 1..];
      }
    }
  }

  /** The last check: the ICMPv6 type. */
  lemma {:induction false} TypeStage(p: seq<Instr>, types: seq<byte>, acc: nat, f: Frame)
    requires IsMessageFilter(p, types) && |types| <= 255
    ensures Run(p, 7, acc, f) == if |f.data| > 40 && f.data[40] in types then 0xffff else 0
  {
    if |f.data| > 40 {
      TypeScan(p, types, 0, f.data[40], f);
      assert types[0..] == types;
    }
  }

  /** The hop limit check. */
  lemma {:induction false} HopStage(p: seq<Instr>, types: seq<byte>, acc: nat, f: Frame)
    requires IsMessageFilter(p, types) && |types| <= 254
    ensures Run(p, 5, acc, f) == if |f.data| > 7 && f.data[7] == HOP_LIMIT then Run(p, 7, HOP_LIMIT, f) else 0
  {
    if |f.data| > 7 {
      assert Run(p, 5, acc, f) == Run(p, 6, f.data[7], f);
    }
  }

  /** The next header check. */
  lemma {:induction false} NextHeaderStage(p: seq<Instr>, types: seq<byte>, acc: nat, f: Frame)
    requires IsMessageFilter(p, types) && |types| <= 252
    ensures Run(p, 3, acc, f) == if |f.data| > 6 && f.data[6] == Checksum.NEXT_HEADER_ICMPV6
                                 then Run(p, 5, Checksum.NEXT_HEADER_ICMPV6, f) else 0
  {
    if |f.data| > 6 {
      assert Run(p, 3, acc, f) == Run(p, 4, f.data[6], f);
    }
  }

  /** The version check: with 252 types its jump wraps to the next-header comparison, which a version
      nibble never passes. */
  lemma {:induction false} VersionStage(p: seq<Instr>, types: seq<byte>, acc: nat, f: Frame)
    requires IsMessageFilter(p, types) && (|types| <= 250 || |types| == 252)
    ensures Run(p, 0, acc, f) == if |f.data| > 0 && f.data[0] / 16 == 6 then Run(p, 3, 0x60, f) else 0
  {
    if |f.data| > 0 {
      var v := f.data[0] / 16;
      VersionLoad(p, types, acc, f);
      if v != 6 && |types| == 252 {
        assert v * 16 != Checksum.NEXT_HEADER_ICMPV6;
        assert Run(p, 2, v * 16, f) == Run(p, 4, v * 16, f) == Run(p, 260, v * 16, f);
      }
    }
  }

  lemma {:induction false} VersionLoad(p: seq<Instr>, types: seq<byte>, acc: nat, f: Frame)
    requires IsMessageFilter(p, types) && |f.data| > 0
    ensures Run(p, 0, acc, f) == Run(p, 2, f.data[0] / 16 * 16, f)
  {
    HighHalf(f.data[0]);
    assert Run(p, 0, acc, f) == Run(p, 1, f.data[0], f);
  }

  lemma {:induction false} MessageFilterExact(p: seq<Instr>, types: seq<byte>, acc: nat, f: Frame)
    requires IsMessageFilter(p, types) && (|types| <= 250 || |types| == 252)
    ensures Run(p, 0, acc, f) == if Wanted(types, f.data) then 0xffff else 0
  {
    VersionStage(p, types, acc, f);
    NextHeaderStage(p, types, 0x60, f);
    HopStage(p, types, Checksum.NEXT_HEADER_ICMPV6, f);
    TypeStage(p, types, HOP_LIMIT, f);
  }

  /** The generated program, run on any frame, delivers exactly the wanted frames of the link, for any
      list of at most 250 types (and, by a lucky wrap, of 252). */
  lemma {:induction false} FilterIsExact(ifIndex: int, types: seq<byte>)
    requires |types| <= 250 || |types| == 252
    ensures Exact(ifIndex, types)
  {
    Layout(types);
    forall f: Frame ensures Run(FilterProgram(ifIndex, types), 0, 0, f)
        == if OnLink(ifIndex, f) && Wanted(types, f.data) then 0xffff else 0 {
      LinkFilterExact(ifIndex, MessageFilter(types), f);
      MessageFilterExact(MessageFilter(types), types, f.pktType, f);
    }
  }

  /** A minimal frame with the given header fields. */
  function Probe(ifIndex: int, version: nat, next: byte, hop: byte, t: byte): (f: Frame)
    requires version < 16
    ensures OnLink(ifIndex, f) && |f.data| == 41
    ensures f.data[0] == version * 16 && f.data[6] == next && f.data[7] == hop && f.data[40] == t
  {
    Frame(ifIndex % UINT32, 0, [version * 16, 0, 0, 0, 0, 0, next, hop] + Zeros(32) + [t])
  }

  /** The last type passes from any place in the list: a jump either reaches the accepting return or wraps
      back to a place still before the last type. */
  lemma {:induction false} LastTypePasses(p: seq<Instr>, types: seq<byte>, i: nat, f: Frame)
    requires IsMessageFilter(p, types) && i < |types|
    ensures Run(p, 8 + i, types[|types| - 1], f) == 0xffff
    decreases |types| - i
  {
    var (n, t) := (|types|, types[|types| - 1]);
    var k := (n - i) % 256;
    assert p[8 + i] == JumpIfEqual(types[i], k, 0);
    if types[i] != t {
      LastTypePasses(p, types, i + 1, f);
    } else if n - i < 256 {
      assert p[9 + n] == Return(0xffff);
    } else {
      LastTypePasses(p, types, i + 1 + k, f);
    }
  }

  lemma {:induction false} Jumps(p: seq<Instr>, pc: nat, val: nat, skip: byte, acc: nat, f: Frame)
    requires pc < |p| && p[pc] == JumpIfNotEqual(val, skip) && acc != val
    ensures Run(p, pc, acc, f) == Run(p, pc + 1 + skip, acc, f)
  {
  }

  /** From the type check on, a frame with the last type passes. */
  lemma {:induction false} LastTypeAccepted(p: seq<Instr>, types: seq<byte>, acc: nat, f: Frame)
    requires IsMessageFilter(p, types) && types != []
    requires |f.data| == 41 && f.data[40] == types[|types| - 1]
    ensures Run(p, 7, acc, f) == 0xffff
  {
    LastTypePasses(p, types, 0, f);
  }

  /** From the hop limit check on, so does one with the right hop limit. */
  lemma {:induction false} RightHopAccepted(p: seq<Instr>, types: seq<byte>, acc: nat, f: Frame)
    requires IsMessageFilter(p, types) && types != []
    requires |f.data| == 41 && f.data[7] == HOP_LIMIT && f.data[40] == types[|types| - 1]
    ensures Run(p, 5, acc, f) == 0xffff
  {
    LastTypeAccepted(p, types, HOP_LIMIT, f);
    assert Run(p, 5, acc, f) == Run(p, 6, HOP_LIMIT, f);
  }

  /** From the next-header check on, one that has the right next header too. */
  lemma {:induction false} RightHeadersAccepted(p: seq<Instr>, types: seq<byte>, acc: nat, f: Frame)
    requires IsMessageFilter(p, types) && types != [] && |f.data| == 41 && f.data[40] == types[|types| - 1]
    requires f.data[6] == Checksum.NEXT_HEADER_ICMPV6 && f.data[7] == HOP_LIMIT
    ensures Run(p, 3, acc, f) == 0xffff
  {
    RightHopAccepted(p, types, Checksum.NEXT_HEADER_ICMPV6, f);
    assert Run(p, 3, acc, f) == Run(p, 4, Checksum.NEXT_HEADER_ICMPV6, f);
  }

  /** 251 types modulo 256: a wrong version goes on to the next header. 253: to the hop limit. */
  lemma {:induction false} VersionLeaks(p: seq<Instr>, types: seq<byte>, acc: nat, f: Frame)
    requires IsMessageFilter(p, types) && |types| % 256 in {251, 253} && |f.data| == 41
    requires f.data[0] == 0x40 && f.data[6] == Checksum.NEXT_HEADER_ICMPV6 && f.data[7] == HOP_LIMIT
    requires f.data[40] == types[|types| - 1]
    ensures Run(p, 0, acc, f) == 0xffff
  {
    VersionLoad(p, types, acc, f);
    WrongVersionGoesOn(p, types, f);
  }

  lemma {:induction false} WrongVersionGoesOn(p: seq<Instr>, types: seq<byte>, f: Frame)
    requires IsMessageFilter(p, types) && |types| % 256 in {251, 253} && |f.data| == 41
    requires f.data[6] == Checksum.NEXT_HEADER_ICMPV6 && f.data[7] == HOP_LIMIT && f.data[40] == types[|types| - 1]
    ensures Run(p, 2, 0x40, f) == 0xffff
  {
    if |types| % 256 == 251 {
      WrappedSkip(|types|, 5, 0);
      Jumps(p, 2, 0x60, 0, 0x40, f);
      RightHeadersAccepted(p, types, 0x40, f);
    } else {
      WrappedSkip(|types|, 5, 2);
      Jumps(p, 2, 0x60, 2, 0x40, f);
      RightHopAccepted(p, types, 0x40, f);
    }
  }

  lemma {:induction false} WrappedSkip(n: nat, k: nat, skip: nat)
    requires n % 256 + k == 256 + skip && skip < 256
    ensures (n + k) % 256 == skip
  {
  }

  /** The right version leads to the next-header check. */
  lemma {:induction false} NextHeaderLoad(p: seq<Instr>, types: seq<byte>, acc: nat, f: Frame)
    requires IsMessageFilter(p, types) && |f.data| == 41 && f.data[0] == 0x60
    ensures Run(p, 0, acc, f) == Run(p, 4, f.data[6], f)
  {
    VersionLoad(p, types, acc, f);
    assert Run(p, 2, 0x60, f) == Run(p, 3, 0x60, f);
  }

  /** 254 types modulo 256: next header 255 is taken for the hop limit. 255: any goes on to the type. */
  lemma {:induction false} NextHeaderLeaks(p: seq<Instr>, types: seq<byte>, acc: nat, f: Frame)
    requires IsMessageFilter(p, types) && |types| % 256 in {254, 255} && |f.data| == 41
    requires f.data[0] == 0x60 && f.data[6] == HOP_LIMIT && f.data[40] == types[|types| - 1]
    ensures Run(p, 0, acc, f) == 0xffff
  {
    NextHeaderLoad(p, types, acc, f);
    WrongNextHeaderGoesOn(p, types, f);
  }

  lemma {:induction false} WrongNextHeaderGoesOn(p: seq<Instr>, types: seq<byte>, f: Frame)
    requires IsMessageFilter(p, types) && |types| % 256 in {254, 255}
    requires |f.data| == 41 && f.data[40] == types[|types| - 1]
    ensures Run(p, 4, HOP_LIMIT, f) == 0xffff
  {
    LastTypeAccepted(p, types, HOP_LIMIT, f);
    if |types| % 256 == 254 {
      WrappedSkip(|types|, 3, 1);
      Jumps(p, 4, Checksum.NEXT_HEADER_ICMPV6, 1, HOP_LIMIT, f);
    } else {
      WrappedSkip(|types|, 3, 2);
      Jumps(p, 4, Checksum.NEXT_HEADER_ICMPV6, 2, HOP_LIMIT, f);
    }
  }

  lemma {:induction false} SkipModulo(n: nat, k: nat)
    requires n % 256 + k < 256
    ensures (n + k) % 256 == n % 256 + k
  {
  }

  /** Any other number of types, 256 or more: a next header that is the last type is taken for the type. */
  lemma {:induction false} NextHeaderTakenForType(p: seq<Instr>, types: seq<byte>, f: Frame)
    requires IsMessageFilter(p, types) && |types| >= 256 && |types| % 256 <= 252
    requires types[|types| - 1] != Checksum.NEXT_HEADER_ICMPV6
    ensures Run(p, 4, types[|types| - 1], f) == 0xffff
  {
    var r := |types| % 256;
    SkipModulo(|types|, 3);
    Jumps(p, 4, Checksum.NEXT_HEADER_ICMPV6, r + 3, types[|types| - 1], f);
    LastTypePasses(p, types, r, f);
  }

  /** So is a hop limit. */
  lemma {:induction false} HopTakenForType(p: seq<Instr>, types: seq<byte>, f: Frame)
    requires IsMessageFilter(p, types) && |types| >= 256 && |types| % 256 <= 252
    requires types[|types| - 1] != HOP_LIMIT
    ensures Run(p, 6, types[|types| - 1], f) == 0xffff
  {
    var r := |types| % 256;
    SkipModulo(|types|, 1);
    Jumps(p, 6, HOP_LIMIT, r + 1, types[|types| - 1], f);
    LastTypePasses(p, types, r, f);
  }

  lemma {:induction false} HeaderTakenForType(p: seq<Instr>, types: seq<byte>, acc: nat, f: Frame)
    requires IsMessageFilter(p, types) && |types| >= 256 && |types| % 256 <= 252 && |f.data| == 41
    requires f.data[0] == 0x60 && f.data[6] == types[|types| - 1]
    requires f.data[6] == Checksum.NEXT_HEADER_ICMPV6 ==> f.data[7] == f.data[6]
    ensures Run(p, 0, acc, f) == 0xffff
  {
    var t := f.data[6];
    NextHeaderLoad(p, types, acc, f);
    if t != Checksum.NEXT_HEADER_ICMPV6 {
      NextHeaderTakenForType(p, types, f);
    } else {
      HopTakenForType(p, types, f);
      assert Run(p, 4, t, f) == Run(p, 5, t, f);
      assert Run(p, 5, t, f) == Run(p, 6, t, f);
    }
  }

  /** A frame that is not wanted, yet passes a filter for too many types. */
  function Leak(ifIndex: int, types: seq<byte>): Frame
    requires types != []
  {
    var (t, r) := (types[|types| - 1], |types| % 256);
    if r == 251 || r == 253 then Probe(ifIndex, 4, Checksum.NEXT_HEADER_ICMPV6, HOP_LIMIT, t)
    else if r == 254 || r == 255 then Probe(ifIndex, 6, HOP_LIMIT, HOP_LIMIT, t)
    else if t != Checksum.NEXT_HEADER_ICMPV6 then Probe(ifIndex, 6, t, HOP_LIMIT, t)
    else Probe(ifIndex, 6, t, t, t)
  }

  lemma {:induction false} LeakIsNotWanted(ifIndex: int, types: seq<byte>)
    requires types != []
    ensures OnLink(ifIndex, Leak(ifIndex, types)) && !Wanted(types, Leak(ifIndex, types).data)
  {
  }

  lemma {:induction false} WrappedJumpLeaks(p: seq<Instr>, ifIndex: int, types: seq<byte>, acc: nat)
    requires IsMessageFilter(p, types) && |types| > 250 && |types| != 252
    ensures Run(p, 0, acc, Leak(ifIndex, types)) == 0xffff
  {
    var (f, r) := (Leak(ifIndex, types), |types| % 256);
    if r == 251 || r == 253 {
      VersionLeaks(p, types, acc, f);
    } else if r == 254 || r == 255 {
      NextHeaderLeaks(p, types, acc, f);
    } else {
      HeaderTakenForType(p, types, acc, f);
    }
  }

  /** The program is right if and only if it has at most 250 types, or 252: for every other list some
      one-byte jump wraps to the wrong place, and a frame that is not wanted passes. */
  lemma {:induction false} FilterExactWhen(ifIndex: int, types: seq<byte>)
    ensures Exact(ifIndex, types) <==> |types| <= 250 || |types| == 252
  {
    if |types| <= 250 || |types| == 252 {
      FilterIsExact(ifIndex, types);
    } else {
      var f := Leak(ifIndex, types);
      LinkFilterExact(ifIndex, MessageFilter(types), f);
      LeakIsNotWanted(ifIndex, types);
      Layout(types);
      WrappedJumpLeaks(MessageFilter(types), ifIndex, types, f.pktType);
      assert Run(FilterProgram(ifIndex, types), 0, 0, f) == 0xffff;
    }
  }

  /** A valid packet on the link whose message type is listed is never dropped. What the socket gets
      is cut to 65535 bytes, which the parser then takes as it would the whole packet if and only if
      header and payload fit in that. */
  lemma {:induction false} ValidPacketsPass(ifIndex: int, types: seq<byte>, f: Frame)
    requires (|types| <= 250 || |types| == 252) && OnLink(ifIndex, f)
    requires ParsePacket(f.data).Ok? && f.data[40] in types
    ensures var cut := Run(FilterProgram(ifIndex, types), 0, 0, f);
            && cut == 0xffff
            && var got := if |f.data| <= cut then f.data else f.data[..cut];
               ParsePacket(got) == ParsePacket(f.data) <==> 40 + FromU16(f.data[4..6]) <= 0xffff
  {
    FilterIsExact(ifIndex, types);
    assert |ParsedPayload(f.data)| >= 4;
    if |f.data| > 0xffff {
      CutParsesWhen(f.data);
    }
  }

  /** A packet cut to 65535 bytes parses as before if and only if header and payload are among them. */
  lemma {:induction false} CutParsesWhen(b: seq<byte>)
    requires ParsePacket(b).Ok? && |b| > 0xffff
    ensures ParsePacket(b[..0xffff]) == ParsePacket(b) <==> 40 + FromU16(b[4..6]) <= 0xffff
  {
    var (n, got) := (FromU16(b[4..6]), b[..0xffff]);
    assert got[4..6] == b[4..6];
    if 40 + n <= 0xffff {
      assert got[8..24] == b[8..24] && got[24..40] == b[24..40] && got[40..40 + n] == b[40..40 + n];
    }
  }

  function ParsedPayload(b: seq<byte>): seq<byte>
    requires ParsePacket(b).Ok?
  {
    b[40..40 + FromU16(b[4..6])]
  }
}
