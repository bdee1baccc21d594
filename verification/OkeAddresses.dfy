/**
 The OKE classic RDMA address formula: each RDMA NIC of a host gets a parent address from
 the OCA network and a child address from the Dranet range, both at the offset
 nicIndex * subnetSize + hostPosition; and the inverse that recovers the NIC index.
 */
module OkeAddresses {
  import opened Results
  import opened Bytes

  const UINT64: nat := 0x1_0000_0000_0000_0000

  type Addr4 = n: int | 0 <= n < UINT32

  /** An IPv4 prefix, or one that is invalid or of another family. */
  datatype Net = Net(addr: Addr4, bits: nat) | OtherNet

  predicate IsV4(n: Net) {
    n.Net? && n.bits <= 32
  }

  /** How many addresses a prefix length leaves. */
  function Size(bits: nat): nat
    requires bits <= 32
  {
    Pow2(32 - bits)
  }

  predicate IsMasked(n: Net)
    requires IsV4(n)
  {
    n.addr % Size(n.bits) == 0
  }

  predicate Contains(n: Net, a: Addr4) {
    IsV4(n) && a / Size(n.bits) == n.addr / Size(n.bits)
  }

  predicate Overlaps(p: Net, q: Net) {
    IsV4(p) && IsV4(q) &&
    var bits := if p.bits < q.bits then p.bits else q.bits;
    p.addr / Size(bits) == q.addr / Size(bits)
  }

  /** The host's primary VNIC: its address, if it is IPv4, and its subnet. */
  datatype Vnic = Vnic(ip: Option<Addr4>, subnet: Net)

  predicate ValidVnic(v: Option<Vnic>) {
    v.Some? && v.value.ip.Some? && Contains(v.value.subnet, v.value.ip.value)
  }

  function HostPosition(v: Vnic): nat
    requires v.ip.Some? && IsV4(v.subnet)
  {
    (v.ip.value - v.subnet.addr) % UINT32
  }

  /** The offset of NIC i of the host at the given position, with blocks of b addresses. */
  function RawOffset(i: int, b: nat, host: nat): int {
    i * b + host
  }

  /** An address at an offset from a base, in 32-bit arithmetic. */
  function AddressAt(base: Addr4, offset: nat): Addr4 {
    (base + offset % UINT32) % UINT32
  }

  /** The parent address of a NIC and its offset in the OCA network, in 64-bit arithmetic. */
  function DeriveOCAParent(v: Option<Vnic>, nicIndex: int, range: Net): Result<(Addr4, nat)> {
    if !ValidVnic(v) then Err
    else if !IsV4(range) || !IsMasked(range) then Err
    else if Overlaps(v.value.subnet, range) then Err
    else
      var offset := RawOffset(nicIndex, Size(v.value.subnet.bits), HostPosition(v.value)) % UINT64;
      if offset >= Size(range.bits) then Err
      else Ok((AddressAt(range.addr, offset), offset))
  }

  /** The NIC index behind a parent address. */
  function NicIndexFromAddress(v: Option<Vnic>, address: Addr4, range: Net): Result<int> {
    if !ValidVnic(v) || !Contains(range, address) then Err
    else
      var block := Size(v.value.subnet.bits);
      var offset := (address - range.addr) % UINT32;
      if offset % block != HostPosition(v.value) then Err else Ok(offset / block)
  }

  const MAX_NICS := 16

  /** Networks no child address may come from: 0/8, 127/8, 169.254/16, 224/4 and 240/4. */
  const SPECIAL: seq<Net> := [Net(0, 8), Net(127 * 0x100_0000, 8), Net(169 * 0x100_0000 + 254 * 0x1_0000, 16),
                              Net(224 * 0x100_0000, 4), Net(240 * 0x100_0000, 4)]

  predicate ValidChildRange(n: Net) {
    && IsV4(n) && IsMasked(n) && 8 <= n.bits <= 30
    && forall i :: 0 <= i < |SPECIAL| ==> !Overlaps(n, SPECIAL[i])
  }

  /** An address in one of them, by number. */
  predicate Special(a: Addr4) {
    a < 0x0100_0000 || 0x7f00_0000 <= a < 0x8000_0000 || 0xa9fe_0000 <= a < 0xa9ff_0000 || 0xe000_0000 <= a
  }

  /** Accepts exactly a masked IPv4 range of 8 to 30 bits none of whose addresses is special. */
  method ValidateChildIPv4Range(n: Net) returns (ok: bool)
    ensures ok == ValidChildRange(n)
    ensures ok <==> && IsV4(n) && 8 <= n.bits <= 30 && n.addr % Pow2(32 - n.bits) == 0
                    && forall a: Addr4 :: n.addr <= a < n.addr + Pow2(32 - n.bits) ==> !Special(a)
  {
    ValidChildRangeWhen(n);
    if !IsV4(n) || !IsMasked(n) || n.bits < 8 || n.bits > 30 {
      return false;
    }
    for i := 0 to |SPECIAL|
      invariant forall j :: 0 <= j < i ==> !Overlaps(n, SPECIAL[j])
    {
      if Overlaps(n, SPECIAL[i]) {
        return false;
      }
    }
    return true;
  }

  /** The parent and child address of a NIC; the child keeps the parent's offset. */
  function DeriveRDMA(v: Option<Vnic>, nicIndex: int, range: Net, childRange: Net): Result<(Addr4, Addr4)> {
    if nicIndex >= MAX_NICS then Err
    else match DeriveOCAParent(v, nicIndex, range)
      case Err => Err
      case Ok((parent, offset)) =>
        if !ValidChildRange(childRange) || Overlaps(range, childRange) || Overlaps(v.value.subnet, childRange)
           || childRange.bits > v.value.subnet.bits || offset + 1 > Size(childRange.bits) then Err
        else Ok((parent, AddressAt(childRange.addr, offset)))
  }

  // Proof.

  lemma {:induction false} SizeBounds(bits: nat)
    requires bits <= 32
    ensures 1 <= Size(bits) <= UINT32
    ensures Pow2(bits) * Size(bits) == UINT32
  {
    Pow2Values();
    Pow2Grows(32 - bits, 32);
    Pow2Adds(bits, 32 - bits);
  }

  /** An offset inside a masked network does not carry into the network bits. */
  lemma {:induction false} OffsetStaysInside(n: Net, offset: nat)
    requires IsV4(n) && IsMasked(n) && offset < Size(n.bits)
    ensures n.addr + offset < UINT32 && AddressAt(n.addr, offset) == n.addr + offset
    ensures (n.addr + offset) / Size(n.bits) == n.addr / Size(n.bits)
  {
    var s := Size(n.bits);
    SizeBounds(n.bits);
    Multiple(n.addr, s);
    NextBelow(n.addr / s, s, Pow2(n.bits));
    DivModUnique(n.addr + offset, s, n.addr / s, offset);
    NoCarry(n.addr, offset);
  }

  lemma {:induction false} NoCarry(base: Addr4, offset: nat)
    requires base + offset < UINT32
    ensures AddressAt(base, offset) == base + offset
  {
  }

  lemma {:induction false} Multiple(a: nat, s: nat)
    requires s > 0 && a % s == 0
    ensures a == a / s * s
  {
  }

  lemma {:induction false} NextBelow(q: nat, s: nat, m: nat)
    requires q * s < m * s
    ensures q * s + s <= m * s
  {
    assert q >= m ==> q * s >= m * s;
    assert (q + 1) * s == q * s + s;
    assert q + 1 <= m ==> (q + 1) * s <= m * s;
  }

  lemma {:induction false} Inside(ip: nat, base: nat, s: nat)
    requires s > 0 && base % s == 0 && ip / s == base / s
    ensures base <= ip < base + s && ip % s == ip - base
  {
    Multiple(base, s);
    assert ip == ip / s * s + ip % s;
  }

  /** The host position of an address in its masked subnet. */
  lemma {:induction false} HostPositionInside(v: Vnic)
    requires v.ip.Some? && IsV4(v.subnet) && IsMasked(v.subnet) && Contains(v.subnet, v.ip.value)
    ensures HostPosition(v) == v.ip.value - v.subnet.addr < Size(v.subnet.bits)
  {
    SizeBounds(v.subnet.bits);
    Inside(v.ip.value, v.subnet.addr, Size(v.subnet.bits));
  }

  /** Primary VNIC metadata is read with its subnet masked. */
  predicate MaskedVnic(v: Option<Vnic>) {
    ValidVnic(v) && IsMasked(v.value.subnet)
  }

  /** A parent lies in the OCA network at exactly its offset, without wrapping around. */
  lemma {:induction false} ParentStaysInside(v: Option<Vnic>, nicIndex: int, range: Net)
    requires DeriveOCAParent(v, nicIndex, range).Ok?
    ensures var (parent, offset) := DeriveOCAParent(v, nicIndex, range).value;
            parent == range.addr + offset && offset < Size(range.bits) && Contains(range, parent)
  {
    var offset := DeriveOCAParent(v, nicIndex, range).value.1;
    OffsetStaysInside(range, offset);
  }

  lemma {:induction false} WrapIsWholeBlocks(i: int, b: nat, host: nat, m: nat)
    requires host < b && m * b == UINT64
    ensures var off := RawOffset(i, b, host) % UINT64;
            && off % b == host
            && off / b == i - RawOffset(i, b, host) / UINT64 * m
  {
    var (x, t) := (i * b + host, (i * b + host) / UINT64);
    var off := x % UINT64;
    assert x == t * UINT64 + off;
    assert t * (m * b) == (t * m) * b;
    assert (i - t * m) * b == i * b - (t * m) * b;
    DivModUnique(off, b, i - t * m, host);
  }

  /** The inverse at an offset of the OCA network: the offset's block number, if its position is the host's. */
  lemma {:induction false} NicIndexAt(v: Option<Vnic>, range: Net, address: Addr4, offset: nat)
    requires ValidVnic(v) && Contains(range, address) && address == range.addr + offset
    ensures Size(v.value.subnet.bits) > 0
    ensures var b := Size(v.value.subnet.bits);
            NicIndexFromAddress(v, address, range)
            == if offset % b != HostPosition(v.value) then Err else Ok(offset / b)
  {
    assert (address - range.addr) % UINT32 == offset;
  }

  /** The formula at an offset of the OCA network. */
  lemma {:induction false} ParentAt(v: Option<Vnic>, nicIndex: int, range: Net, offset: nat)
    requires ValidVnic(v) && IsV4(range) && IsMasked(range) && !Overlaps(v.value.subnet, range)
    requires offset == RawOffset(nicIndex, Size(v.value.subnet.bits), HostPosition(v.value)) % UINT64
    requires offset < Size(range.bits)
    ensures DeriveOCAParent(v, nicIndex, range) == Ok((range.addr + offset, offset))
  {
    OffsetStaysInside(range, offset);
  }

  /** What the inverse makes of a derived parent: the offset's block number. */
  lemma {:induction false} IndexOfParent(v: Option<Vnic>, nicIndex: int, range: Net)
    requires MaskedVnic(v) && DeriveOCAParent(v, nicIndex, range).Ok?
    ensures var b := Size(v.value.subnet.bits);
            var raw := RawOffset(nicIndex, b, HostPosition(v.value));
            NicIndexFromAddress(v, DeriveOCAParent(v, nicIndex, range).value.0, range)
            == Ok(nicIndex - raw / UINT64 * Pow2(32 + v.value.subnet.bits))
  {
    var (parent, offset) := DeriveOCAParent(v, nicIndex, range).value;
    ParentStaysInside(v, nicIndex, range);
    HostPositionInside(v.value);
    NicIndexAt(v, range, parent, offset);
    BlocksIn64(v.value.subnet.bits);
    WrapIsWholeBlocks(nicIndex, Size(v.value.subnet.bits), HostPosition(v.value), Pow2(32 + v.value.subnet.bits));
  }

  /** The inverse recovers the index behind a derived parent if and only if the formula did not wrap
      around 64 bits on the way, in particular for every index a shape has. */
  lemma {:induction false} IndexOfDerivedParent(v: Option<Vnic>, nicIndex: int, range: Net)
    requires MaskedVnic(v) && DeriveOCAParent(v, nicIndex, range).Ok?
    ensures NicIndexFromAddress(v, DeriveOCAParent(v, nicIndex, range).value.0, range) == Ok(nicIndex)
       <==> 0 <= RawOffset(nicIndex, Size(v.value.subnet.bits), HostPosition(v.value)) < UINT64
  {
    IndexOfParent(v, nicIndex, range);
    NoWrapWhen(RawOffset(nicIndex, Size(v.value.subnet.bits), HostPosition(v.value)), Pow2(32 + v.value.subnet.bits));
  }

  /** Such indexes exist on every subnet wider than a /31: this one is accepted wherever index 0 is, and gets
      the address of index 0, which is what the inverse then finds. */
  lemma {:induction false} WrappedIndexIsLost(v: Option<Vnic>, range: Net)
    requires MaskedVnic(v) && v.value.subnet.bits <= 30 && DeriveOCAParent(v, 0, range).Ok?
    ensures var i := Pow2(32 + v.value.subnet.bits);
            && 0 < i < Pow2(63)
            && DeriveOCAParent(v, i, range) == DeriveOCAParent(v, 0, range)
            && NicIndexFromAddress(v, DeriveOCAParent(v, i, range).value.0, range) == Ok(0)
  {
    var (bits, host) := (v.value.subnet.bits, HostPosition(v.value));
    HostPositionInside(v.value);
    WrappedOffset(bits, host);
    SmallIndexDoesNotWrap(0, bits, host);
    IndexOfDerivedParent(v, 0, range);
    Pow2Grows(33 + bits, 63);
  }

  lemma {:induction false} WrappedOffset(bits: nat, host: nat)
    requires bits <= 32
    ensures RawOffset(Pow2(32 + bits), Size(bits), host) % UINT64 == RawOffset(0, Size(bits), host) % UINT64
  {
    BlocksIn64(bits);
    WholeWraps(Pow2(32 + bits), 0, Size(bits), host, Pow2(32 + bits), 1);
  }

  lemma {:induction false} BlocksIn64(bits: nat)
    requires bits <= 32
    ensures Pow2(32 + bits) * Size(bits) == UINT64
  {
    Pow2Values();
    Pow2Adds(32 + bits, 32 - bits);
  }

  lemma {:induction false} NoWrapWhen(x: int, m: nat)
    requires m > 0
    ensures x / UINT64 * m == 0 <==> 0 <= x < UINT64
  {
    assert x / UINT64 == 0 <==> 0 <= x < UINT64;
    MultipleSize(x / UINT64, m);
  }

  /** No index a caller can mean wraps around. */
  lemma {:induction false} SmallIndexDoesNotWrap(nicIndex: int, bits: nat, host: nat)
    requires bits <= 32 && 0 <= nicIndex < UINT32 && host < Size(bits)
    ensures 0 <= RawOffset(nicIndex, Size(bits), host) < UINT64
  {
    SizeBounds(bits);
    BelowProducts(nicIndex, UINT32, Size(bits), UINT32, host);
  }

  lemma {:induction false} BelowProducts(i: nat, m: nat, b: nat, c: nat, host: nat)
    requires i < m && host < b <= c
    ensures 0 <= i * b + host < m * c
  {
    assert (i + 1) * b <= m * b;
    assert (i + 1) * b == i * b + b;
    assert m * b <= m * c;
  }

  lemma {:induction false} Recompose(offset: nat, b: nat)
    requires b > 0 && offset < UINT32
    ensures RawOffset(offset / b, b, offset % b) % UINT64 == offset
  {
    assert offset == offset / b * b + offset % b;
  }

  /** Deriving from a recovered index gives the address back, if and only if the OCA network is one the
      formula accepts. */
  lemma {:induction false} ParentOfRecoveredIndex(v: Option<Vnic>, address: Addr4, range: Net)
    requires MaskedVnic(v) && NicIndexFromAddress(v, address, range).Ok?
    ensures var r := DeriveOCAParent(v, NicIndexFromAddress(v, address, range).value, range);
            && (r.Ok? <==> IsMasked(range) && !Overlaps(v.value.subnet, range))
            && (r.Ok? ==> r.value.0 == address)
  {
    if IsMasked(range) && !Overlaps(v.value.subnet, range) {
      Inside(address, range.addr, Size(range.bits));
      var offset := address - range.addr;
      NicIndexAt(v, range, address, offset);
      Recompose(offset, Size(v.value.subnet.bits));
      ParentAt(v, NicIndexFromAddress(v, address, range).value, range, offset);
    }
  }

  /** A child lies in its range at the parent's offset. */
  lemma {:induction false} ChildStaysInside(v: Option<Vnic>, nicIndex: int, range: Net, childRange: Net)
    requires DeriveRDMA(v, nicIndex, range, childRange).Ok?
    ensures var (parent, child) := DeriveRDMA(v, nicIndex, range, childRange).value;
            && child - childRange.addr == parent - range.addr
            && Contains(range, parent) && Contains(childRange, child)
  {
    var offset := DeriveOCAParent(v, nicIndex, range).value.1;
    ParentStaysInside(v, nicIndex, range);
    OffsetStaysInside(childRange, offset);
  }

  /** Parent, child and the VNIC's subnet never meet. */
  lemma {:induction false} AddressesStayApart(v: Option<Vnic>, nicIndex: int, range: Net, childRange: Net)
    requires DeriveRDMA(v, nicIndex, range, childRange).Ok?
    ensures var (parent, child) := DeriveRDMA(v, nicIndex, range, childRange).value;
            && !Contains(childRange, parent) && !Contains(range, child)
            && !Contains(v.value.subnet, parent) && !Contains(v.value.subnet, child)
  {
    var (parent, child) := DeriveRDMA(v, nicIndex, range, childRange).value;
    ChildStaysInside(v, nicIndex, range, childRange);
    DisjointWhenNoOverlap(range, childRange, parent);
    DisjointWhenNoOverlap(childRange, range, child);
    DisjointWhenNoOverlap(range, v.value.subnet, parent);
    DisjointWhenNoOverlap(childRange, v.value.subnet, child);
  }

  lemma {:induction false} CoarserQuotient(a: nat, b: nat, fine: nat, coarse: nat)
    requires fine <= coarse <= 32 && a / Pow2(fine) == b / Pow2(fine)
    ensures a / Pow2(coarse) == b / Pow2(coarse)
  {
    Pow2Adds(fine, coarse - fine);
    DivDiv(a, Pow2(fine), Pow2(coarse - fine));
    DivDiv(b, Pow2(fine), Pow2(coarse - fine));
  }

  /** Prefixes that do not overlap share no address. */
  lemma {:induction false} DisjointWhenNoOverlap(p: Net, q: Net, a: Addr4)
    requires IsV4(p) && IsV4(q) && !Overlaps(p, q) && Contains(p, a)
    ensures !Contains(q, a)
  {
    if Contains(q, a) {
      var bits := if p.bits < q.bits then p.bits else q.bits;
      CoarserQuotient(a, p.addr, 32 - p.bits, 32 - bits);
      CoarserQuotient(a, q.addr, 32 - q.bits, 32 - bits);
    }
  }

  /** A masked network contains the addresses from its own on, as many as its length leaves. */
  lemma {:induction false} ContainsWhen(n: Net, a: Addr4)
    requires IsV4(n) && IsMasked(n)
    ensures Contains(n, a) <==> n.addr <= a < n.addr + Pow2(32 - n.bits)
  {
    var s := Size(n.bits);
    if Contains(n, a) {
      Inside(a, n.addr, s);
    }
    if n.addr <= a < n.addr + s {
      Multiple(n.addr, s);
      DivModUnique(a, s, n.addr / s, a - n.addr);
    }
  }

  /** Networks overlap if and only if some address is in both. */
  lemma {:induction false} OverlapsWhen(p: Net, q: Net)
    ensures Overlaps(p, q) <==> IsV4(p) && IsV4(q) && exists a: Addr4 :: Contains(p, a) && Contains(q, a)
  {
    if Overlaps(p, q) {
      var a := if p.bits < q.bits then q.addr else p.addr;
      assert Contains(p, a) && Contains(q, a);
    } else if IsV4(p) && IsV4(q) {
      forall a: Addr4 | Contains(p, a) ensures !Contains(q, a) {
        DisjointWhenNoOverlap(p, q, a);
      }
    }
  }

  ghost predicate Disjoint(p: Net, q: Net) {
    forall a: Addr4 :: !(Contains(p, a) && Contains(q, a))
  }

  lemma {:induction false} SpecialSizes()
    ensures Pow2(16) == 0x1_0000 && Pow2(24) == 0x100_0000 && Pow2(28) == 0x1000_0000
  {
    Pow2Sixteen(0);
    Pow2Sixteen(4);
    Pow2Sixteen(8);
    Pow2Sixteen(12);
    Pow2Sixteen(16);
    Pow2Sixteen(20);
    Pow2Sixteen(24);
  }

  lemma {:induction false} NetInterval(addr: Addr4, bits: nat, size: nat, a: Addr4)
    requires bits <= 32 && size == Pow2(32 - bits) && addr % size == 0
    ensures Contains(Net(addr, bits), a) <==> addr <= a < addr + size
  {
    ContainsWhen(Net(addr, bits), a);
  }

  lemma {:induction false} InSpecialNet(a: Addr4)
    ensures var s := SPECIAL;
            Special(a) <==>
              Contains(s[0], a) || Contains(s[1], a) || Contains(s[2], a) || Contains(s[3], a) || Contains(s[4], a)
  {
    SpecialSizes();
    NetInterval(0, 8, 0x100_0000, a);
    NetInterval(0x7f00_0000, 8, 0x100_0000, a);
    NetInterval(0xa9fe_0000, 16, 0x1_0000, a);
    NetInterval(0xe000_0000, 4, 0x1000_0000, a);
    NetInterval(0xf000_0000, 4, 0x1000_0000, a);
  }

  lemma {:induction false} SpecialIs(a: Addr4)
    ensures Special(a) <==> exists i :: 0 <= i < |SPECIAL| && Contains(SPECIAL[i], a)
  {
    InSpecialNet(a);
    AnyOfFive(SPECIAL, a);
  }

  lemma {:induction false} AnyOfFive(s: seq<Net>, a: Addr4)
    requires |s| == 5
    ensures (exists i :: 0 <= i < |s| && Contains(s[i], a)) <==>
              Contains(s[0], a) || Contains(s[1], a) || Contains(s[2], a) || Contains(s[3], a) || Contains(s[4], a)
  {
  }

  lemma {:induction false} ClearOfSpecial(n: Net)
    requires IsV4(n)
    ensures (forall i :: 0 <= i < |SPECIAL| ==> !Overlaps(n, SPECIAL[i]))
       <==> forall a: Addr4 :: Contains(n, a) ==> !Special(a)
  {
    if forall i :: 0 <= i < |SPECIAL| ==> !Overlaps(n, SPECIAL[i]) {
      forall a: Addr4 | Contains(n, a) ensures !Special(a) {
        SpecialIs(a);
        forall i | 0 <= i < |SPECIAL| ensures !Contains(SPECIAL[i], a) {
          OverlapsWhen(n, SPECIAL[i]);
        }
      }
    } else {
      var i :| 0 <= i < |SPECIAL| && Overlaps(n, SPECIAL[i]);
      OverlapsWhen(n, SPECIAL[i]);
      var a: Addr4 :| Contains(n, a) && Contains(SPECIAL[i], a);
      SpecialIs(a);
    }
  }

  lemma {:induction false} ValidChildRangeWhen(n: Net)
    ensures ValidChildRange(n) <==>
              && IsV4(n) && 8 <= n.bits <= 30 && n.addr % Pow2(32 - n.bits) == 0
              && forall a: Addr4 :: n.addr <= a < n.addr + Pow2(32 - n.bits) ==> !Special(a)
  {
    if IsV4(n) && IsMasked(n) {
      ClearOfSpecial(n);
      forall a: Addr4 ensures Contains(n, a) <==> n.addr <= a < n.addr + Pow2(32 - n.bits) {
        ContainsWhen(n, a);
      }
    }
  }

  /** The derived addresses, for an index that is not negative: NIC i of a host starts a block of the subnet's
      size, and the host has its place in it. */
  lemma {:induction false} DerivedAddressesAre(v: Option<Vnic>, i: nat, range: Net, childRange: Net)
    requires MaskedVnic(v) && DeriveRDMA(v, i, range, childRange).Ok?
    ensures var offset := i * Pow2(32 - v.value.subnet.bits) + (v.value.ip.value - v.value.subnet.addr);
            DeriveRDMA(v, i, range, childRange).value == (range.addr + offset, childRange.addr + offset)
  {
    ParentIs(v, i, range);
    ChildStaysInside(v, i, range, childRange);
  }

  lemma {:induction false} ParentIs(v: Option<Vnic>, i: nat, range: Net)
    requires MaskedVnic(v) && i < MAX_NICS && DeriveOCAParent(v, i, range).Ok?
    ensures DeriveOCAParent(v, i, range).value.0
         == range.addr + i * Pow2(32 - v.value.subnet.bits) + (v.value.ip.value - v.value.subnet.addr)
  {
    var (bits, host) := (v.value.subnet.bits, HostPosition(v.value));
    HostPositionInside(v.value);
    SmallIndexDoesNotWrap(i, bits, host);
    BelowIsItself(RawOffset(i, Size(bits), host));
    OffsetOfParent(v, i, range);
    ParentStaysInside(v, i, range);
  }

  lemma {:induction false} OffsetOfParent(v: Option<Vnic>, i: int, range: Net)
    requires DeriveOCAParent(v, i, range).Ok?
    ensures DeriveOCAParent(v, i, range).value.1
         == RawOffset(i, Size(v.value.subnet.bits), HostPosition(v.value)) % UINT64
  {
  }

  lemma {:induction false} BelowIsItself(x: int)
    requires 0 <= x < UINT64
    ensures x % UINT64 == x
  {
  }

  /** The two (host, index) pairs mean one NIC: the same host, and indexes a multiple of 2^64 addresses apart. */
  predicate SameNic(v: Vnic, w: Vnic, i: int, j: int)
    requires IsV4(v.subnet)
  {
    v.ip == w.ip && (i - j) % Pow2(32 + v.subnet.bits) == 0
  }

  /** Two NICs of hosts in one subnet get the same parent, and the same child, if and only if they are one
      NIC; for indexes that are not negative, if and only if host and index are the same. */
  lemma {:induction false} NicsGetDistinctAddresses(v: Option<Vnic>, w: Option<Vnic>, i: int, j: int,
                                                    range: Net, childRange: Net)
    requires MaskedVnic(v) && MaskedVnic(w) && v.value.subnet == w.value.subnet
    requires DeriveRDMA(v, i, range, childRange).Ok? && DeriveRDMA(w, j, range, childRange).Ok?
    ensures var (p, q) := (DeriveRDMA(v, i, range, childRange).value, DeriveRDMA(w, j, range, childRange).value);
            && (p.0 == q.0 <==> SameNic(v.value, w.value, i, j))
            && (p.1 == q.1 <==> SameNic(v.value, w.value, i, j))
    ensures 0 <= i && 0 <= j ==> (SameNic(v.value, w.value, i, j) <==> v.value.ip == w.value.ip && i == j)
  {
    ChildStaysInside(v, i, range, childRange);
    ChildStaysInside(w, j, range, childRange);
    SameParentWhen(v, w, i, j, range);
    if 0 <= i && 0 <= j {
      SmallMultiple(i - j, v.value.subnet.bits);
    }
  }

  /** Indexes of a shape are too close to be a whole wrap apart. */
  lemma {:induction false} SmallMultiple(x: int, bits: nat)
    requires -MAX_NICS < x < MAX_NICS
    ensures x % Pow2(32 + bits) == 0 <==> x == 0
  {
    Pow2Sixteen(0);
    Pow2Grows(4, 32 + bits);
    SmallRemainder(x, Pow2(32 + bits));
  }

  lemma {:induction false} SmallRemainder(x: int, m: int)
    requires -m < x < m
    ensures x % m == 0 <==> x == 0
  {
    if x >= 0 {
      DivModUnique(x, m, 0, x);
    } else {
      DivModUnique(x, m, -1, x + m);
    }
  }

  lemma {:induction false} SameParentWhen(v: Option<Vnic>, w: Option<Vnic>, i: int, j: int, range: Net)
    requires MaskedVnic(v) && MaskedVnic(w) && v.value.subnet == w.value.subnet
    requires DeriveOCAParent(v, i, range).Ok? && DeriveOCAParent(w, j, range).Ok?
    ensures DeriveOCAParent(v, i, range).value.0 == DeriveOCAParent(w, j, range).value.0
       <==> SameNic(v.value, w.value, i, j)
  {
    var bits := v.value.subnet.bits;
    HostPositionInside(v.value);
    HostPositionInside(w.value);
    ParentStaysInside(v, i, range);
    ParentStaysInside(w, j, range);
    BlocksIn64(bits);
    SameOffsetWhen(i, j, Size(bits), HostPosition(v.value), HostPosition(w.value), Pow2(32 + bits));
  }

  lemma {:induction false} SameOffsetWhen(i: int, j: int, b: nat, g: nat, h: nat, m: nat)
    requires g < b && h < b && m > 0 && m * b == UINT64
    ensures RawOffset(i, b, g) % UINT64 == RawOffset(j, b, h) % UINT64 <==> g == h && (i - j) % m == 0
  {
    if RawOffset(i, b, g) % UINT64 == RawOffset(j, b, h) % UINT64 {
      SameOffsetSameNic(i, j, b, g, h, m);
    }
    if g == h && (i - j) % m == 0 {
      WholeWraps(i, j, b, g, m, (i - j) / m);
      AddWraps(RawOffset(j, b, h), (i - j) / m);
    }
  }

  lemma {:induction false} SameOffsetSameNic(i: int, j: int, b: nat, g: nat, h: nat, m: nat)
    requires g < b && h < b && m > 0 && m * b == UINT64
    requires RawOffset(i, b, g) % UINT64 == RawOffset(j, b, h) % UINT64
    ensures g == h && (i - j) % m == 0
  {
    var (s, t) := (RawOffset(i, b, g) / UINT64, RawOffset(j, b, h) / UINT64);
    WrapIsWholeBlocks(i, b, g, m);
    WrapIsWholeBlocks(j, b, h, m);
    Factor(s, t, m);
    DivModUnique(i - j, m, s - t, 0);
  }

  lemma {:induction false} AddWraps(y: int, k: int)
    ensures (y + k * UINT64) % UINT64 == y % UINT64
  {
    DivModUnique(y + k * UINT64, UINT64, y / UINT64 + k, y % UINT64);
  }

  lemma {:induction false} Factor(s: int, t: int, m: int)
    ensures s * m - t * m == (s - t) * m
  {
  }

  lemma {:induction false} WholeWraps(i: int, j: int, b: nat, g: nat, m: nat, k: int)
    requires m * b == UINT64 && i - j == k * m
    ensures RawOffset(i, b, g) == RawOffset(j, b, g) + k * UINT64
  {
    assert i * b == (j + k * m) * b == j * b + (k * m) * b;
    assert (k * m) * b == k * (m * b);
  }

  /** A child range holds every host position for all 16 NIC indexes if and only if it is at least 4 bits
      shorter than the subnet. */
  lemma {:induction false} ChildRangeHoldsAllIndexes(subnetBits: nat, childBits: nat)
    requires subnetBits <= 32 && childBits <= 32
    ensures (forall i: nat, host: nat :: i < 16 && host < Size(subnetBits) ==>
               RawOffset(i, Size(subnetBits), host) + 1 <= Size(childBits))
       <==> childBits + 4 <= subnetBits
  {
    var (b, c) := (Size(subnetBits), Size(childBits));
    SizeBounds(subnetBits);
    SixteenBlocks(subnetBits, childBits);
    if childBits + 4 <= subnetBits {
      forall i: nat, host: nat | i < MAX_NICS && host < b ensures RawOffset(i, b, host) + 1 <= c {
        BelowProducts(i, MAX_NICS, b, b, host);
      }
    } else {
      assert RawOffset(15, b, b - 1) + 1 > c;
    }
  }

  /** Where NIC i of the host stands in either range. */
  function Place(v: Vnic, i: nat): int
    requires v.ip.Some? && IsV4(v.subnet)
  {
    i * Pow2(32 - v.subnet.bits) + (v.ip.value - v.subnet.addr)
  }

  lemma {:induction false} PlaceIsOffset(v: Option<Vnic>, i: nat)
    requires MaskedVnic(v) && i < MAX_NICS
    ensures var raw := RawOffset(i, Size(v.value.subnet.bits), HostPosition(v.value));
            0 <= raw == Place(v.value, i) && raw % UINT64 == raw
  {
    HostPositionInside(v.value);
    SmallIndexDoesNotWrap(i, v.value.subnet.bits, HostPosition(v.value));
    BelowIsItself(RawOffset(i, Size(v.value.subnet.bits), HostPosition(v.value)));
  }

  lemma {:induction false} ParentDerivedWhen(v: Option<Vnic>, i: nat, range: Net)
    requires MaskedVnic(v) && i < MAX_NICS
    ensures DeriveOCAParent(v, i, range).Ok? <==>
              && IsV4(range) && IsMasked(range) && Disjoint(v.value.subnet, range)
              && Place(v.value, i) < Pow2(32 - range.bits)
    ensures DeriveOCAParent(v, i, range).Ok? ==> DeriveOCAParent(v, i, range).value.1 == Place(v.value, i)
  {
    PlaceIsOffset(v, i);
    OverlapsWhen(v.value.subnet, range);
  }

  /** Derivation succeeds, for an index that is not negative, if and only if the index is below 16, the ranges are
      masked, allowed and apart from the subnet and each other, the child range is no smaller than the subnet, and
      the NIC's place is in both ranges. */
  lemma {:induction false} DerivesWhen(v: Option<Vnic>, i: nat, range: Net, childRange: Net)
    requires MaskedVnic(v)
    ensures DeriveRDMA(v, i, range, childRange).Ok? <==>
              && i < 16 && IsV4(range) && IsMasked(range) && ValidChildRange(childRange)
              && Disjoint(v.value.subnet, range) && Disjoint(range, childRange) && Disjoint(v.value.subnet, childRange)
              && childRange.bits <= v.value.subnet.bits
              && Place(v.value, i) < Pow2(32 - range.bits) && Place(v.value, i) < Pow2(32 - childRange.bits)
  {
    if i < MAX_NICS {
      ParentDerivedWhen(v, i, range);
      OverlapsWhen(range, childRange);
      OverlapsWhen(v.value.subnet, childRange);
    }
  }

  /** Such ranges serve every host of the subnet: each of its 16 NICs gets both addresses, provided the
      ranges are masked, allowed and apart. */
  lemma {:induction false} EveryNicIsServed(v: Option<Vnic>, i: nat, range: Net, childRange: Net)
    requires MaskedVnic(v) && i < MAX_NICS && IsV4(range) && IsMasked(range) && ValidChildRange(childRange)
    requires Disjoint(v.value.subnet, range) && Disjoint(range, childRange) && Disjoint(v.value.subnet, childRange)
    requires range.bits + 4 <= v.value.subnet.bits && childRange.bits + 4 <= v.value.subnet.bits
    ensures DeriveRDMA(v, i, range, childRange).Ok?
  {
    var (bits, host) := (v.value.subnet.bits, HostPosition(v.value));
    var offset := RawOffset(i, Size(bits), host);
    OverlapsWhen(v.value.subnet, range);
    OverlapsWhen(range, childRange);
    OverlapsWhen(v.value.subnet, childRange);
    HostPositionInside(v.value);
    SmallIndexDoesNotWrap(i, bits, host);
    OffsetFits(bits, range.bits, i, host);
    OffsetFits(bits, childRange.bits, i, host);
    ParentAt(v, i, range, offset);
  }

  lemma {:induction false} OffsetFits(subnetBits: nat, rangeBits: nat, i: nat, host: nat)
    requires rangeBits + 4 <= subnetBits <= 32 && i < MAX_NICS && host < Size(subnetBits)
    ensures 0 <= RawOffset(i, Size(subnetBits), host) < Size(rangeBits)
  {
    SixteenBlocks(subnetBits, rangeBits);
    BelowProducts(i, MAX_NICS, Size(subnetBits), Size(subnetBits), host);
  }

  lemma {:induction false} SixteenBlocks(subnetBits: nat, childBits: nat)
    requires subnetBits <= 32 && childBits <= 32
    ensures 16 * Size(subnetBits) <= Size(childBits) <==> childBits + 4 <= subnetBits
  {
    Pow2Sixteen(32 - subnetBits);
    if childBits + 4 <= subnetBits {
      Pow2Grows(36 - subnetBits, 32 - childBits);
    } else {
      Pow2Grows(32 - childBits, 36 - subnetBits);
    }
  }

  const DEFAULT_OCA: Net := Net(0x0ae0_0000, 12) // 10.224.0.0/12
  const DEFAULT_CHILD: Net := Net(0x0ad0_0000, 12) // 10.208.0.0/12

  /** With the default ranges every host of every subnet from /16 on is served, if the subnet is clear of them. */
  lemma {:induction false} DefaultRangesServe(v: Option<Vnic>, i: nat)
    requires MaskedVnic(v) && i < MAX_NICS && v.value.subnet.bits >= 16
    requires forall a: Addr4 :: Contains(v.value.subnet, a) ==> a < 0x0ad0_0000 || 0x0af0_0000 <= a
    ensures DeriveRDMA(v, i, DEFAULT_OCA, DEFAULT_CHILD).Ok?
  {
    var (p, c) := (DEFAULT_OCA, DEFAULT_CHILD);
    SpecialSizes();
    Pow2Sixteen(16);
    assert Pow2(20) == 0x10_0000;
    forall a: Addr4
      ensures Contains(p, a) <==> 0x0ae0_0000 <= a < 0x0af0_0000
      ensures Contains(c, a) <==> 0x0ad0_0000 <= a < 0x0ae0_0000 {
      ContainsWhen(p, a);
      ContainsWhen(c, a);
    }
    ValidChildRangeWhen(c);
    EveryNicIsServed(v, i, p, c);
  }
}
