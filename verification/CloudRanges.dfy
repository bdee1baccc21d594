/**
 The allocation ranges cloud providers derive from a NIC's own network: a CIDR block
 without its first and last address, the GCE block marked 0xC0DE and the Alibaba eFLO
 /124 block.
 */
module CloudRanges {
  import opened Results
  import opened Bytes
  import opened LocalIpam

  // Addresses as numbers.

  function Width(f: Family): nat {
    if f.V4? then 32 else 128
  }

  /** The address with its low bits cleared, keeping the given number of high ones. */
  function Base(f: Family, v: nat, bits: nat): nat
    requires bits <= Width(f)
  {
    RoundDown(v, Pow2(Width(f) - bits))
  }

  /** The largest multiple of n up to v. */
  function RoundDown(v: nat, n: nat): nat
    requires n > 0
  {
    Times(v / n, n)
  }

  function Times(x: nat, y: nat): nat {
    x * y
  }

  /** v lies in the block of the given prefix. */
  predicate InBlock(f: Family, v: nat, prefix: nat, bits: nat)
    requires bits <= Width(f)
  {
    v / Pow2(Width(f) - bits) == prefix / Pow2(Width(f) - bits)
  }

  datatype Block = Block(family: Family, addr: nat, bits: nat)

  predicate ValidBlock(c: Block) {
    c.addr <= Top(c.family) && c.bits <= Width(c.family)
  }

  /** The range of a CIDR block, its text having parsed to one or not. */
  function IPRangeFromCIDR(cidr: Option<Block>, startReserved: int, endReserved: int): Result<(nat, nat)>
    requires cidr.Some? ==> ValidBlock(cidr.value)
  {
    if startReserved < 0 || endReserved < 0 || cidr.None? then Err
    else
      var c := cidr.value;
      var base := Base(c.family, c.addr, c.bits);
      var size := Pow2(Width(c.family) - c.bits);
      var (startOff, endOff) := (startReserved + 1, size - (endReserved + 2));
      if startOff > endOff then Err
      else if base + startOff > Top(c.family) || base + endOff > Top(c.family) then Err
      else Ok((base + startOff, base + endOff))
  }

  lemma {:induction false} TopIsPow2(f: Family)
    ensures Top(f) + 1 == Pow2(Width(f))
  {
    Pow2Values();
  }

  /** Multiples of n below m * n: the one at or below v, and the one after it. */
  lemma {:induction false} MultipleBelow(v: nat, n: nat, m: nat)
    requires n > 0 && v < m * n
    ensures v / n < m && v / n * n <= v < v / n * n + n <= m * n
  {
    var q := v / n;
    assert v == q * n + v % n;
    assert (q + 1) * n == q * n + n;
    if q >= m {
      MulMonotone(m, q, n);
    } else {
      MulMonotone(q + 1, m, n);
    }
  }

  /** The last address of a block is in the address space. */
  lemma {:induction false} BlockFits(f: Family, v: nat, bits: nat)
    requires v <= Top(f) && bits <= Width(f)
    ensures Base(f, v, bits) <= v
    ensures Base(f, v, bits) + Pow2(Width(f) - bits) <= Top(f) + 1
  {
    TopIsPow2(f);
    Pow2Adds(bits, Width(f) - bits);
    MultipleBelow(v, Pow2(Width(f) - bits), Pow2(bits));
  }

  /** A block yields a range if and only if it holds the reserved addresses and one more besides its
      first and last; the range is then the block without those, and never leaves the address space. */
  lemma {:induction false} RangeIsBlockInterior(c: Block, startReserved: nat, endReserved: nat)
    requires ValidBlock(c)
    ensures var r := IPRangeFromCIDR(Some(c), startReserved, endReserved);
            var (base, size) := (Base(c.family, c.addr, c.bits), Pow2(Width(c.family) - c.bits));
            && (r.Ok? <==> startReserved + endReserved + 3 <= size)
            && (r.Ok? ==>
                  && r.value.0 == base + 1 + startReserved
                  && r.value.1 == base + size - 2 - endReserved
                  && base < r.value.0 <= r.value.1 < base + size - 1 <= Top(c.family))
  {
    BlockFits(c.family, c.addr, c.bits);
  }

  /** Every address of the range has the block's prefix. */
  lemma {:induction false} RangeStaysInBlock(c: Block, startReserved: nat, endReserved: nat, v: nat)
    requires ValidBlock(c) && IPRangeFromCIDR(Some(c), startReserved, endReserved).Ok?
    requires var r := IPRangeFromCIDR(Some(c), startReserved, endReserved).value; r.0 <= v <= r.1
    ensures InBlock(c.family, v, c.addr, c.bits)
  {
    RangeIsBlockInterior(c, startReserved, endReserved);
    var n := Pow2(Width(c.family) - c.bits);
    var q := c.addr / n;
    DivModUnique(v, n, q, v - q * n);
  }

  /** The range as the allocator takes it. */
  function AsRange(f: Family, r: (nat, nat)): IPRange
    requires r.0 <= Top(f) && r.1 <= Top(f)
  {
    IPRange(Some(RawAddr(f, r.0)), Some(RawAddr(f, r.1)))
  }

  /** A block that is not the last leaves room for another one of its size. */
  lemma {:induction false} NextBlockFits(f: Family, v: nat, bits: nat)
    requires v <= Top(f) && bits <= Width(f)
    requires Base(f, v, bits) + Pow2(Width(f) - bits) != Pow2(Width(f))
    ensures Base(f, v, bits) + 2 * Pow2(Width(f) - bits) <= Pow2(Width(f))
  {
    TopIsPow2(f);
    Pow2Adds(bits, Width(f) - bits);
    MultipleBelow(v, Pow2(Width(f) - bits), Pow2(bits));
    NextMultiple(v / Pow2(Width(f) - bits), Pow2(Width(f) - bits), Pow2(bits));
  }

  lemma {:induction false} NextMultiple(q: nat, n: nat, m: nat)
    requires q * n + n < m * n
    ensures q * n + 2 * n <= m * n
  {
    assert (q + 1) * n == q * n + n && (q + 2) * n == q * n + 2 * n;
    if q + 2 > m {
      MulMonotone(m, q + 1, n);
    } else {
      MulMonotone(q + 2, m, n);
    }
  }

  /** The last IPv6 /64: its addresses plus a 64-bit offset can leave the address space. */
  predicate LastSlash64(c: Block) {
    c.family.V6? && c.bits == 64 && Base(V6, c.addr, 64) + Pow2(64) == Pow2(128)
  }

  lemma {:induction false} WideBlockHasRoom(c: Block)
    requires ValidBlock(c) && c.family.V6? && c.bits <= 64 && !LastSlash64(c)
    ensures Base(V6, c.addr, c.bits) + 1 + MAX_UINT64 <= Top(V6)
  {
    Pow2Values();
    BlockFits(V6, c.addr, c.bits);
    if c.bits == 64 {
      NextBlockFits(V6, c.addr, 64);
    } else {
      Pow2Grows(64, 128 - c.bits);
    }
  }

  lemma {:induction false} NarrowBlockIsSmall(bits: nat)
    requires 64 < bits <= 128
    ensures Pow2(128 - bits) <= MAX_INT64 + 1
  {
    Pow2Values();
    Pow2Grows(128 - bits, 63);
  }

  /** On a range derived from a block without further reservations the allocator cannot miss a free
      address, if and only if the block is not the very last IPv6 /64. */
  lemma {:induction false} BlockRangeWraps(c: Block)
    requires ValidBlock(c) && IPRangeFromCIDR(Some(c), 0, 0).Ok?
    ensures var r := IPRangeFromCIDR(Some(c), 0, 0).value;
            && r.0 <= r.1 <= Top(c.family)
            && ValidRange(AsRange(c.family, r)) && (Wraps(AsRange(c.family, r)) <==> !LastSlash64(c))
  {
    RangeIsBlockInterior(c, 0, 0);
    if LastSlash64(c) {
      Pow2Values();
    } else if c.family.V6? {
      if c.bits <= 64 {
        WideBlockHasRoom(c);
      } else {
        NarrowBlockIsSmall(c.bits);
      }
    }
  }

  // GCE: the NIC's prefix, rounded up to 16-bit groups, then the marker group.

  const MARKER_HIGH: byte := 0xC0
  const MARKER_LOW: byte := 0xDE

  /** How many bytes of the NIC's address the block starts with. */
  function BaseBytes(prefixLen: nat): nat {
    (prefixLen + 15) / 16 * 2
  }

  /** The worker block of a NIC whose address parsed to network ip and length prefixLen. */
  function GceBlock(ip: Addr16, prefixLen: nat): Result<(Addr16, nat)>
    requires prefixLen <= 128
  {
    var n := BaseBytes(prefixLen);
    if Is4In6(ip) || n >= 14 then Err
    else Ok((ip[..n] + [MARKER_HIGH, MARKER_LOW] + Zeros(14 - n), (n + 2) * 8))
  }

  /** It is the least whole number of 16-bit groups that covers the prefix. */
  lemma {:induction false} BaseBytesIsLeast(prefixLen: nat, m: nat)
    ensures BaseBytes(prefixLen) % 2 == 0 && prefixLen <= 8 * BaseBytes(prefixLen)
    ensures m % 2 == 0 && prefixLen <= 8 * m ==> BaseBytes(prefixLen) <= m
  {
  }

  /** There is a block for IPv6 prefixes up to /96; it is 16 bits longer than the prefix's groups, which it starts
      with, and goes on with c0de and zeros. */
  lemma {:induction false} GceBlockIs(ip: Addr16, prefixLen: nat, n: nat)
    requires prefixLen <= 128 && n % 2 == 0 && prefixLen <= 8 * n < prefixLen + 16
    ensures GceBlock(ip, prefixLen).Err? <==> Is4In6(ip) || prefixLen > 96
    ensures GceBlock(ip, prefixLen).Ok? ==>
              var (w, bits) := GceBlock(ip, prefixLen).value;
              && bits == 8 * n + 16 && w[..n] == ip[..n] && w[n] == 0xC0 && w[n + 1] == 0xDE
              && forall i :: n + 2 <= i < 16 ==> w[i] == 0
  {
    assert BaseBytes(prefixLen) == n;
  }

  /** getIPv6Range, filling the address in place. */
  method GetIPv6Range(ip: Addr16, prefixLen: nat) returns (r: Result<(Addr16, nat)>)
    requires prefixLen <= 128
    ensures r == GceBlock(ip, prefixLen)
  {
    if Is4In6(ip) {
      return Err;
    }
    var worker := new byte[16](i => 0);
    var n := BaseBytes(prefixLen);
    if n >= 14 {
      return Err;
    }
    forall i | 0 <= i < n {
      worker[i] := ip[i];
    }
    worker[n] := 0xC0DE / 256;
    worker[n + 1] := 0xC0DE % 256;
    assert worker[..] == ip[..n] + [MARKER_HIGH, MARKER_LOW] + Zeros(14 - n);
    return Ok((worker[..], (n + 2) * 8));
  }

  lemma {:induction false} MarkerAlgebra(a: nat, p: nat, q: nat)
    requires q == 0x1_0000 * p && p >= 1
    ensures (a * 0x1_0000 + 0xC0DE) * p == a * q + 0xC0DE * p
    ensures 0xC0DE * p + p < q
  {
    assert (a * 0x1_0000) * p == a * (0x1_0000 * p);
  }

  /** The block's number: the NIC's leading bytes, the marker, zeros. */
  lemma {:induction false} GceBlockValue(ip: Addr16, n: nat)
    requires n <= 12
    ensures var w := ip[..n] + [MARKER_HIGH, MARKER_LOW] + Zeros(14 - n);
            var (p, q) := (Pow2(8 * (14 - n)), Pow2(8 * (16 - n)));
            && Value(w) == Value(ip[..n] + [MARKER_HIGH, MARKER_LOW]) * p
            && Value(w) == Value(ip[..n]) * q + 0xC0DE * p
            && 0xC0DE * p + p < q
  {
    var head := ip[..n];
    ValueConcat(head + [MARKER_HIGH, MARKER_LOW], Zeros(14 - n));
    ValueZeros(14 - n);
    MarkedValue(head);
    MarkerWeight(n);
    MarkerAlgebra(Value(head), Pow2(8 * (14 - n)), Pow2(8 * (16 - n)));
  }

  lemma {:induction false} MarkedValue(head: seq<byte>)
    ensures Value(head + [MARKER_HIGH, MARKER_LOW]) == Value(head) * 0x1_0000 + 0xC0DE
  {
    ValueConcat(head, [MARKER_HIGH, MARKER_LOW]);
    MarkerValue();
    Pow2Values();
  }

  lemma {:induction false} MarkerWeight(n: nat)
    requires n <= 14
    ensures Pow2(8 * (16 - n)) == 0x1_0000 * Pow2(8 * (14 - n))
  {
    Pow2Byte(8 * (14 - n));
    Pow2Byte(8 * (15 - n));
  }

  lemma {:induction false} MarkerValue()
    ensures Value([MARKER_HIGH, MARKER_LOW]) == 0xC0DE
  {
    var m := [MARKER_HIGH, MARKER_LOW];
    assert m[..1] == [MARKER_HIGH] && [MARKER_HIGH][..0] == [];
    assert Value(m[..1]) == 0xC0;
  }

  /** An address of the block starts with the NIC's leading bytes, so it has the NIC's prefix. */
  lemma {:induction false} SharesPrefix(ip: Addr16, prefixLen: nat, n: nat, rest: nat)
    requires prefixLen <= 8 * n && n <= 16 && rest < Pow2(8 * (16 - n))
    ensures InBlock(V6, Value(ip[..n]) * Pow2(8 * (16 - n)) + rest, Value(ip), prefixLen)
  {
    Pow2Adds(8 * (16 - n), 8 * n - prefixLen);
    assert ip == ip[..n] + ip[n..];
    ValueConcat(ip[..n], ip[n..]);
    ValueBound(ip[n..]);
    SameHead(Value(ip[..n]), Pow2(8 * (16 - n)), Pow2(8 * n - prefixLen), rest, Value(ip[n..]));
  }

  lemma {:induction false} SameHead(head: nat, p: nat, m: nat, x: nat, y: nat)
    requires x < p && y < p && m > 0
    ensures p * m > 0 && (head * p + x) / (p * m) == (head * p + y) / (p * m)
  {
    HeadQuotient(head, p, m, x);
    HeadQuotient(head, p, m, y);
  }

  lemma {:induction false} HeadQuotient(head: nat, p: nat, m: nat, x: nat)
    requires x < p && m > 0
    ensures p * m > 0 && (head * p + x) / (p * m) == head / m
  {
    DivModUnique(head * p + x, p, head, x);
    DivDiv(head * p + x, p, m);
  }

  lemma {:induction false} BelowProduct(a: nat, m: nat, p: nat, rest: nat)
    requires a < m && rest < p
    ensures a * p + rest < m * p
  {
    MulMonotone(a + 1, m, p);
    assert (a + 1) * p == a * p + p;
  }

  /** An aligned IPv6 block of 16 addresses or more, other than the last /64. */
  ghost predicate Roomy(v: nat, bits: nat) {
    && bits <= 128
    && v + Pow2(128 - bits) <= Pow2(128)
    && (bits == 64 ==> v + Pow2(64) < Pow2(128))
    && Base(V6, v, bits) == v
    && Pow2(128 - bits) >= 16
  }

  lemma {:induction false} GceBlockEnds(ip: Addr16, n: nat, w: Addr16)
    requires n <= 12 && w == ip[..n] + [MARKER_HIGH, MARKER_LOW] + Zeros(14 - n)
    ensures Value(w) + Pow2(8 * (14 - n)) < Pow2(128)
  {
    GceBlockValue(ip, n);
    ValueBound(ip[..n]);
    Pow2Adds(8 * n, 8 * (16 - n));
    var p := Pow2(8 * (14 - n));
    BelowProduct(Value(ip[..n]), Pow2(8 * n), Pow2(8 * (16 - n)), 0xC0DE * p + p);
  }

  lemma {:induction false} GceBlockStarts(ip: Addr16, n: nat, w: Addr16)
    requires n <= 12 && w == ip[..n] + [MARKER_HIGH, MARKER_LOW] + Zeros(14 - n)
    ensures Base(V6, Value(w), 8 * (n + 2)) == Value(w)
  {
    GceBlockValue(ip, n);
    assert 128 - 8 * (n + 2) == 8 * (14 - n);
    DivModUnique(Value(w), Pow2(8 * (14 - n)), Value(ip[..n] + [MARKER_HIGH, MARKER_LOW]), 0);
  }

  lemma {:induction false} RoomForSixteen(h: nat)
    requires h >= 4
    ensures Pow2(h) >= 16
  {
    Pow2Sixteen(0);
    Pow2Grows(4, h);
  }

  lemma {:induction false} GceBlockIsRoomy(ip: Addr16, n: nat, w: Addr16)
    requires n <= 12 && w == ip[..n] + [MARKER_HIGH, MARKER_LOW] + Zeros(14 - n)
    ensures Roomy(Value(w), 8 * (n + 2))
  {
    GceBlockEnds(ip, n, w);
    GceBlockStarts(ip, n, w);
    assert 128 - 8 * (n + 2) == 8 * (14 - n);
    RoomForSixteen(8 * (14 - n));
  }

  lemma {:induction false} GceBlockSharesPrefix(ip: Addr16, prefixLen: nat, n: nat, w: Addr16, v: nat)
    requires prefixLen <= 8 * n && n <= 12
    requires w == ip[..n] + [MARKER_HIGH, MARKER_LOW] + Zeros(14 - n)
    requires Value(w) <= v < Value(w) + Pow2(8 * (14 - n))
    ensures InBlock(V6, v, Value(ip), prefixLen)
  {
    GceBlockValue(ip, n);
    var lead := Value(ip[..n]) * Pow2(8 * (16 - n));
    SharesPrefix(ip, prefixLen, n, v - lead);
    assert lead + (v - lead) == v;
  }

  /** The range a block yields leaves out its first and last address, and the allocator never misses a free
      address in it. */
  ghost predicate Usable(c: Block) {
    && ValidBlock(c)
    && var r := IPRangeFromCIDR(Some(c), 0, 0);
       && r == Ok((c.addr + 1, c.addr + Pow2(Width(c.family) - c.bits) - 2))
       && r.value.0 <= r.value.1 <= Top(c.family)
       && ValidRange(AsRange(c.family, r.value)) && Wraps(AsRange(c.family, r.value))
  }

  lemma {:induction false} InteriorAt(c: Block, base: nat, size: nat)
    requires ValidBlock(c) && base == Base(c.family, c.addr, c.bits) && size == Pow2(Width(c.family) - c.bits)
    requires 3 <= size && base + size <= Top(c.family) + 1
    ensures IPRangeFromCIDR(Some(c), 0, 0) == Ok((base + 1, base + size - 2))
  {
  }

  lemma {:induction false} AlignedBlockIsUsable(c: Block, size: nat)
    requires ValidBlock(c) && Base(c.family, c.addr, c.bits) == c.addr && size == Pow2(Width(c.family) - c.bits)
    requires 3 <= size && c.addr + size <= Top(c.family) + 1 && !LastSlash64(c)
    ensures Usable(c)
  {
    InteriorAt(c, c.addr, size);
    BlockRangeWraps(c);
  }

  lemma {:induction false} RoomyIsNotLast(v: nat, bits: nat)
    requires Roomy(v, bits)
    ensures var c := Block(V6, v, bits);
            ValidBlock(c) && c.addr + Pow2(128 - bits) <= Top(V6) + 1 && !LastSlash64(c)
  {
    TopIsPow2(V6);
  }

  lemma {:induction false} RoomyBlockIsUsable(v: nat, bits: nat)
    requires Roomy(v, bits)
    ensures Usable(Block(V6, v, bits))
  {
    RoomyIsNotLast(v, bits);
    AlignedBlockIsUsable(Block(V6, v, bits), Pow2(128 - bits));
  }

  /** The range GCE derives for a NIC is usable; its text is never that of an IPv4-mapped address. */
  lemma {:induction false} GceRangeIsUsable(ip: Addr16, prefixLen: nat, w: Addr16, bits: nat)
    requires prefixLen <= 128 && GceBlock(ip, prefixLen) == Ok((w, bits))
    ensures !Is4In6(w) && Roomy(Value(w), bits) && Usable(Block(V6, Value(w), bits))
  {
    MarkedIsNotMapped(ip, prefixLen, w, bits);
    GceBlockIsRoomy(ip, BaseBytes(prefixLen), w);
    RoomyBlockIsUsable(Value(w), bits);
  }

  /** All of it carries the NIC's own prefix. */
  lemma {:induction false} GceRangeIsInsideNic(ip: Addr16, prefixLen: nat, w: Addr16, bits: nat, v: nat)
    requires prefixLen <= 128 && GceBlock(ip, prefixLen) == Ok((w, bits))
    requires bits <= 128 && Value(w) <= v < Value(w) + Pow2(128 - bits)
    ensures InBlock(V6, v, Value(ip), prefixLen)
  {
    GceBlockLayout(ip, prefixLen, w, bits);
    GceBlockSharesPrefix(ip, prefixLen, BaseBytes(prefixLen), w, v);
  }

  lemma {:induction false} MarkedIsNotMapped(ip: Addr16, prefixLen: nat, w: Addr16, bits: nat)
    requires prefixLen <= 128 && GceBlock(ip, prefixLen) == Ok((w, bits))
    ensures !Is4In6(w)
  {
    var n := BaseBytes(prefixLen);
    if n == 12 {
      assert w[..12] == ip[..12];
    } else {
      assert n <= 10 && w[n] == MARKER_HIGH;
    }
  }

  lemma {:induction false} GceBlockLayout(ip: Addr16, prefixLen: nat, w: Addr16, bits: nat)
    requires prefixLen <= 128 && GceBlock(ip, prefixLen) == Ok((w, bits))
    ensures var n := BaseBytes(prefixLen);
            && prefixLen <= 8 * n && n <= 12 && bits <= 128 && 128 - bits == 8 * (14 - n)
            && w == ip[..n] + [MARKER_HIGH, MARKER_LOW] + Zeros(14 - n)
  {
  }
}
