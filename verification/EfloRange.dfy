/**
 Alibaba's eFLO subinterface block: the NIC's IPv6 prefix with the bits from its length
 up to 124 copied, one by one, from a fixed pattern.
 */
module EfloRange {
  import opened Results
  import opened Bytes
  import opened LocalIpam
  import opened CloudRanges

  /** The bits that mark the block set aside for subinterfaces: f and c00 in the second and fourth group
      of the low half. */
  function Pattern(): Addr16 {
    Zeros(8) + [0x00, 0x00, 0x00, 0x0f, 0x00, 0x00, 0x0c, 0x00]
  }

  lemma {:induction false} Appended(b: seq<byte>, x: byte)
    ensures Value(b + [x]) == Value(b) * 256 + x as int
  {
    assert (b + [x])[..|b|] == b;
  }

  /** The pattern as a number. */
  lemma {:induction false} PatternValue()
    ensures Value(Pattern()) == 0xf_0000_0c00
  {
    var z := Zeros(11);
    ValueZeros(11);
    Appended(z, 0x0f);
    Appended(z + [0x0f], 0);
    Appended(z + [0x0f] + [0], 0);
    Appended(z + [0x0f] + [0] + [0], 0x0c);
    Appended(z + [0x0f] + [0] + [0] + [0x0c], 0);
    assert Pattern() == z + [0x0f] + [0] + [0] + [0x0c] + [0];
  }

  // Bits of bytes.

  /** The value of bit i in its byte, bit 0 being the highest of byte 0. */
  function Weight(i: nat): (w: nat)
    ensures w in {1, 2, 4, 8, 16, 32, 64, 128}
  {
    match i % 8
    case 0 => 128
    case 1 => 64
    case 2 => 32
    case 3 => 16
    case 4 => 8
    case 5 => 4
    case 6 => 2
    case 7 => 1
  }

  predicate GetBit(b: Addr16, i: nat)
    requires i < 128
  {
    b[i / 8] / Weight(i) % 2 == 1
  }

  /** Setting or clearing a bit stays within the byte. */
  lemma {:induction false} BitFits(x: byte, i: nat)
    ensures x / Weight(i) % 2 == 1 ==> x >= Weight(i)
    ensures x / Weight(i) % 2 == 0 ==> x + Weight(i) < 256
  {
    match i % 8
    case 0 => assert x / 128 < 2;
    case 1 => assert x / 64 < 4;
    case 2 => assert x / 32 < 8;
    case 3 => assert x / 16 < 16;
    case 4 => assert x / 8 < 32;
    case 5 => assert x / 4 < 64;
    case 6 => assert x / 2 < 128;
    case 7 => assert x / 1 == x;
  }

  /** The byte with bit i of the address set or cleared in it. */
  function WithBit(x: byte, i: nat, set_: bool): byte {
    var w := Weight(i);
    BitFits(x, i);
    if set_ == (x / w % 2 == 1) then x else if set_ then x + w else x - w
  }

  function SetBit(b: Addr16, i: nat, set_: bool): Addr16
    requires i < 128
  {
    b[i / 8 := WithBit(b[i / 8], i, set_)]
  }

  // Bits of numbers.

  function BitAt(v: nat, i: nat): nat
    requires i < 128
  {
    v / Pow2(127 - i) % 2
  }

  lemma {:induction false} WeightIsPow2(i: nat)
    requires i < 128
    ensures Weight(i) == Pow2(7 - i % 8)
    ensures Pow2(127 - i) == Weight(i) * Pow2(8 * (15 - i / 8))
  {
    var r := i % 8;
    assert Pow2(0) == 1 && Pow2(1) == 2;
    Pow2Adds(1, 1);
    Pow2Adds(2, 1);
    Pow2Adds(2, 2);
    Pow2Adds(4, 1);
    Pow2Adds(4, 2);
    Pow2Adds(4, 3);
    Pow2Adds(7 - r, 8 * (15 - i / 8));
  }

  lemma {:induction false} TwiceTimes(m: int, n: int)
    ensures m * (2 * n) == (2 * m) * n
  {
  }

  /** Bit of a sum: a multiple of 2n does not matter, nor does anything below n. */
  lemma {:induction false} BitOfSum(m: int, x: int, n: int, rest: int)
    requires 0 <= rest < n
    ensures (m * (2 * n) + x * n + rest) / n % 2 == x % 2
  {
    TwiceTimes(m, n);
    PlusTimes(2 * m, x, n);
    DivModUnique(m * (2 * n) + x * n + rest, n, 2 * m + x, rest);
  }

  lemma {:induction false} EvenMultiple(v: nat, w: nat, p: nat)
    requires w in {1, 2, 4, 8, 16, 32, 64, 128}
    ensures v * (256 * p) == v * (128 / w) * (2 * (w * p))
  {
    assert 256 * p == 128 / w * (2 * (w * p));
    TimesTimes(v, 128 / w, 2 * (w * p));
  }

  lemma {:induction false} BitOfBytes(head: nat, x: nat, rest: nat, w: nat, p: nat)
    requires w in {1, 2, 4, 8, 16, 32, 64, 128} && rest < p
    ensures w * p > 0 && (head * (256 * p) + x * p + rest) / (w * p) % 2 == x / w % 2
  {
    ByteParts(x, w, p, rest);
    EvenMultiple(head, w, p);
    BitOfSum(head * (128 / w), x / w, w * p, x % w * p + rest);
  }

  /** A bit of the bytes is that bit of their number. */
  lemma {:induction false} GetBitIsBitAt(b: Addr16, i: nat)
    requires i < 128
    ensures BitAt(Value(b), i) == b[i / 8] / Weight(i) % 2
  {
    var k := i / 8;
    ValueAround(b, k);
    WeightIsPow2(i);
    BitOfBytes(Value(b[..k]), b[k], Value(b[k + 1..]), Weight(i), Pow2(8 * (15 - k)));
  }

  lemma {:induction false} ByteChange(head: int, x: int, rest: int, d: int, w: int, p: int)
    ensures head * (256 * p) + (x + d * w) * p + rest == head * (256 * p) + x * p + rest + d * (w * p)
  {
    PlusTimes(x, d * w, p);
    TimesTimes(d, w, p);
  }

  lemma {:induction false} WithBitChange(x: byte, i: nat, set_: bool)
    ensures WithBit(x, i, set_) as int == x as int + (Flag(set_, 1) - x / Weight(i) % 2) * Weight(i)
  {
    var bit := x / Weight(i) % 2;
    assert bit == 0 || bit == 1;
  }

  /** The quotient by w of a number changed by a multiple of w. */
  lemma {:induction false} ChangedQuotient(x: nat, w: nat, d: int)
    requires w > 0
    ensures (x + d * w) / w == x / w + d
  {
    PlusTimes(x / w, d, w);
    DivModUnique(x + d * w, w, x / w + d, x % w);
  }

  /** A number with its bit at w made s, by adding d of them. */
  ghost predicate Changes(x: nat, y: nat, w: nat, s: nat, d: int) {
    w > 0 && s <= 1 && d == s - x / w % 2 && y == x + d * w
  }

  lemma {:induction false} ChangedBit(x: nat, y: nat, w: nat, s: nat, d: int)
    requires Changes(x, y, w, s, d)
    ensures y / w == x / w + d && y / w % 2 == s && y / w / 2 == x / w / 2
  {
    ChangedQuotient(x, w, d);
    Halves(x / w, y / w, s, d);
  }

  lemma {:induction false} Halves(q: nat, r: int, s: nat, d: int)
    requires s <= 1 && d == s - q % 2 && r == q + d
    ensures r % 2 == s && r / 2 == q / 2
  {
  }

  /** A lower bit does not see the change. */
  lemma {:induction false} LowerBitStays(x: nat, y: nat, w: nat, s: nat, d: int, k: nat, lower: nat)
    requires Changes(x, y, w, s, d) && lower > 0 && w == 2 * k * lower
    ensures y / lower % 2 == x / lower % 2
  {
    TimesTimes(d, 2 * k, lower);
    EvenTimes(d, k);
    EvenChange(x, y, lower, d * k);
  }

  lemma {:induction false} EvenChange(x: nat, y: nat, lower: nat, e: int)
    requires lower > 0 && y == x + 2 * e * lower
    ensures y / lower % 2 == x / lower % 2
  {
    ChangedQuotient(x, lower, 2 * e);
    SameParity(x / lower, e);
  }

  lemma {:induction false} SameParity(q: int, e: int)
    ensures (q + 2 * e) % 2 == q % 2
  {
  }

  lemma {:induction false} EvenTimes(d: int, k: int)
    ensures d * (2 * k) == 2 * (d * k)
  {
  }

  /** Nor does a higher one, as nothing is carried. */
  lemma {:induction false} HigherBitStays(x: nat, y: nat, w: nat, s: nat, d: int, k: nat)
    requires Changes(x, y, w, s, d) && k > 0
    ensures w * (2 * k) > 0 && y / (w * (2 * k)) == x / (w * (2 * k))
  {
    ChangedBit(x, y, w, s, d);
    HalvesThenMore(x, w, k);
    HalvesThenMore(y, w, k);
  }

  lemma {:induction false} HalvesThenMore(x: nat, w: nat, k: nat)
    requires w > 0 && k > 0
    ensures w * (2 * k) > 0 && x / (w * (2 * k)) == x / w / 2 / k
  {
    DivDiv(x, w, 2 * k);
    DivDiv(x / w, 2, k);
  }

  lemma {:induction false} WeightRatio(i: nat, j: nat) returns (k: nat)
    requires i < 128 && j < 128 && i % 8 < j % 8
    ensures k > 0 && Weight(i) == 2 * k * Weight(j)
  {
    WeightIsPow2(i);
    WeightIsPow2(j);
    Pow2Adds(j % 8 - i % 8, 7 - j % 8);
    k := Pow2(j % 8 - i % 8 - 1);
  }

  /** Setting one bit of a byte leaves the other seven. */
  lemma {:induction false} OtherBitsStay(x: byte, i: nat, j: nat, set_: bool)
    requires i < 128 && j < 128
    ensures WithBit(x, i, set_) / Weight(j) % 2 == if i % 8 == j % 8 then Flag(set_, 1) else x / Weight(j) % 2
  {
    var (y, s) := (WithBit(x, i, set_), Flag(set_, 1));
    var d := s - x / Weight(i) % 2;
    WithBitChange(x, i, set_);
    assert Changes(x, y, Weight(i), s, d);
    if i % 8 == j % 8 {
      ChangedBit(x, y, Weight(i), s, d);
    } else if i % 8 < j % 8 {
      var k := WeightRatio(i, j);
      LowerBitStays(x, y, Weight(i), s, d, k, Weight(j));
    } else {
      var k := WeightRatio(j, i);
      HigherBitStays(x, y, Weight(i), s, d, k);
    }
  }

  /** Only the addressed bit of an address changes. */
  lemma {:induction false} SetBitSetsOne(b: Addr16, i: nat, set_: bool, j: nat)
    requires i < 128 && j < 128
    ensures GetBit(SetBit(b, i, set_), j) == if j == i then set_ else GetBit(b, j)
  {
    OtherBitsStay(b[i / 8], i, j, set_);
  }

  /** setIPBit, in place. */
  method SetIPBit(ip: array<byte>, i: nat, set_: bool)
    requires ip.Length == 16 && i < 128
    modifies ip
    ensures ip[..] == SetBit(old(ip[..]), i, set_)
    ensures forall j: nat :: j < 128 ==> GetBit(ip[..], j) == if j == i then set_ else GetBit(old(ip[..]), j)
  {
    ghost var before := ip[..];
    ip[i / 8] := WithBit(ip[i / 8], i, set_);
    assert ip[..] == SetBit(before, i, set_);
    forall j: nat | j < 128 ensures GetBit(ip[..], j) == if j == i then set_ else GetBit(before, j) {
      SetBitSetsOne(before, i, set_, j);
    }
  }

  /** Writing a bit adds the difference at its weight. */
  lemma {:induction false} SetBitValue(b: Addr16, i: nat, set_: bool)
    requires i < 128
    ensures Value(SetBit(b, i, set_)) == Value(b) + (Flag(set_, 1) - BitAt(Value(b), i)) * Pow2(127 - i)
  {
    var (k, w) := (i / 8, Weight(i));
    var d := Flag(set_, 1) - b[k] / w % 2;
    GetBitIsBitAt(b, i);
    WeightIsPow2(i);
    WithBitChange(b[k], i, set_);
    ByteChangeValue(b, k, WithBit(b[k], i, set_), d, w);
  }

  lemma {:induction false} ByteChangeValue(b: Addr16, k: nat, x: byte, d: int, w: nat)
    requires k < 16 && x as int == b[k] as int + d * w
    ensures Value(b[k := x]) == Value(b) + d * (w * Pow2(8 * (15 - k)))
  {
    var c := b[k := x];
    ValueAround(b, k);
    ValueAround(c, k);
    assert c[..k] == b[..k] && c[k + 1..] == b[k + 1..];
    ByteChange(Value(b[..k]), b[k] as int, Value(b[k + 1..]), d, w, Pow2(8 * (15 - k)));
  }

  // The copy loop on numbers.

  /** a down to bit k, then p down to bit i, then a again. */
  function Splice(a: nat, p: nat, k: nat, i: nat): int
    requires k <= i <= 128
  {
    var (h, n) := (Pow2(128 - k), Pow2(128 - i));
    a / h * h + p % h / n * n + a % n
  }

  lemma {:induction false} HalfStep(x: nat, n: nat)
    requires n > 0
    ensures x / n * n == x / (2 * n) * (2 * n) + x / n % 2 * n
    ensures x % (2 * n) == x / n % 2 * n + x % n
  {
    var (q, r) := (x / (2 * n), x % (2 * n));
    TwiceTimes(q, n);
    Euclid(x, 2 * n);
    if r < n {
      DivModUnique(x, n, 2 * q, r);
      assert x / n % 2 == 0;
    } else {
      PlusTimes(2 * q, 1, n);
      DivModUnique(x, n, 2 * q + 1, r - n);
      assert x / n % 2 == 1;
    }
  }

  lemma {:induction false} BitOfMod(p: nat, h: nat, m: nat, n: nat)
    requires n > 0 && h > 0 && h == m * (2 * n)
    ensures p % h / n % 2 == p / n % 2
  {
    var (q, r) := (p / h, p % h);
    Euclid(p, h);
    Euclid(r, n);
    TimesTimes(q, m, 2 * n);
    assert p == q * m * (2 * n) + r / n * n + r % n;
    BitOfSum(q * m, r / n, n, r % n);
  }

  /** The bits below bit k of a number are those of its remainder. */
  lemma {:induction false} BitOfRemainder(p: nat, k: nat, i: nat)
    requires k <= i < 128
    ensures BitAt(p % Pow2(128 - k), i) == BitAt(p, i)
  {
    Pow2Adds(i - k, 128 - i);
    BitOfMod(p, Pow2(128 - k), Pow2(i - k), Pow2(127 - i));
  }

  lemma {:induction false} BitOfParts(x: int, h: int, m: int, y: int, n: nat, twice: nat, a: nat)
    requires n > 0 && twice == 2 * n && h == m * twice
    ensures (x * h + y * twice + a % twice) / n % 2 == a / n % 2
  {
    TimesTimes(x, m, twice);
    PlusTimes(x * m, y, twice);
    HalfStep(a, n);
    BitOfSum(x * m + y, a / n % 2, n, a % n);
  }

  /** The parts of a splice above the bits still to copy are multiples of twice their weight. */
  lemma {:induction false} SpliceBit(a: nat, p: nat, k: nat, i: nat, r: nat)
    requires k <= i < 128 && r == Splice(a, p, k, i)
    ensures BitAt(r, i) == BitAt(a, i)
  {
    var (h, twice) := (Pow2(128 - k), Pow2(128 - i));
    var (x, y) := (a / h, p % h / twice);
    Pow2Adds(i - k, 128 - i);
    assert r == x * h + y * twice + a % twice;
    BitOfParts(x, h, Pow2(i - k), y, Pow2(127 - i), twice, a);
  }

  lemma {:induction false} StepParts(a: nat, r: nat, n: nat, twice: nat)
    requires n > 0 && twice == 2 * n
    ensures r / n * n + a % n == r / twice * twice + a % twice + (r / n % 2 - a / n % 2) * n
  {
    HalfStep(r, n);
    HalfStep(a, n);
    PlusTimes(r / n % 2, -(a / n % 2), n);
  }

  lemma {:induction false} SpliceStep(a: nat, p: nat, k: nat, i: nat)
    requires k <= i < 128
    ensures Splice(a, p, k, i + 1) == Splice(a, p, k, i) + (BitAt(p, i) - BitAt(a, i)) * Pow2(127 - i)
  {
    var h := Pow2(128 - k);
    StepParts(a, p % h, Pow2(127 - i), Pow2(128 - i));
    BitOfRemainder(p, k, i);
    assert p % h / Pow2(127 - i) % 2 == BitAt(p, i) && a / Pow2(127 - i) % 2 == BitAt(a, i);
  }

  lemma {:induction false} SpliceStart(a: nat, p: nat, k: nat)
    requires k <= 128
    ensures Splice(a, p, k, k) == a
  {
    var h := Pow2(128 - k);
    DivModUnique(p % h, h, 0, p % h);
  }

  lemma {:induction false} CopyBit(b: Addr16, prefix: Addr16, k: nat, i: nat)
    requires k <= i < 128
    requires Value(b) == Splice(Value(prefix), Value(Pattern()), k, i)
    ensures Value(SetBit(b, i, GetBit(Pattern(), i))) == Splice(Value(prefix), Value(Pattern()), k, i + 1)
  {
    SetBitValue(b, i, GetBit(Pattern(), i));
    GetBitIsBitAt(Pattern(), i);
    SpliceBit(Value(prefix), Value(Pattern()), k, i, Value(b));
    SpliceStep(Value(prefix), Value(Pattern()), k, i);
  }

  /** efloRDMASubinterfaceRange: the loop computes the closed form that keeps the prefix's bits and takes
      the pattern's up to bit 124. */
  method EfloRDMASubinterfaceRange(prefix: Addr16, ones: nat) returns (r: Result<Addr16>)
    ensures r.Err? <==> ones > 124
    ensures r.Ok? ==> Value(r.value) == Splice(Value(prefix), Value(Pattern()), ones, 124)
  {
    if ones > 124 {
      return Err;
    }
    var pattern := Pattern();
    var rangeIP := new byte[16](i requires 0 <= i < 16 => prefix[i]);
    assert rangeIP[..] == prefix;
    SpliceStart(Value(prefix), Value(pattern), ones);
    for i := ones to 124
      invariant Value(rangeIP[..]) == Splice(Value(prefix), Value(pattern), ones, i)
    {
      CopyBit(rangeIP[..], prefix, ones, i);
      if GetBit(pattern, i) {
        SetIPBit(rangeIP, i, true);
      } else {
        SetIPBit(rangeIP, i, false);
      }
    }
    return Ok(rangeIP[..]);
  }

  // What the block is good for.

  lemma {:induction false} SixteenDivides(h: nat)
    requires h >= 4
    ensures Pow2(h) == Pow2(h - 4) * 16
  {
    Pow2Sixteen(h - 4);
  }

  /** In a network of the NIC's own, the block is the network address plus the pattern's bits between the
      prefix and the last four. */
  lemma {:induction false} EfloClosedForm(a: nat, p: nat, ones: nat)
    requires ones <= 124 && a % Pow2(128 - ones) == 0
    ensures var h := Pow2(128 - ones);
            && Splice(a, p, ones, 124) == a + p % h / 16 * 16
            && 0 <= p % h / 16 * 16 <= h - 16
            && a % 16 == 0
  {
    var (h, m) := (Pow2(128 - ones), Pow2(124 - ones));
    SixteenDivides(128 - ones);
    AlignedSixteen(a, h, m);
    MultipleBelow(p % h, 16, m);
    Pow2Sixteen(0);
  }

  lemma {:induction false} AlignedSixteen(a: nat, h: nat, m: nat)
    requires h > 0 && h == m * 16 && a % h == 0
    ensures a % 16 == 0 && a / h * h == a
  {
    Euclid(a, h);
    TimesTimes(a / h, m, 16);
    DivModUnique(a, 16, a / h * m, 0);
  }

  lemma {:induction false} AddInside(a: nat, h: nat, t: nat)
    requires h > 0 && a % h == 0 && t < h
    ensures (a + t) / h == a / h
  {
    Euclid(a, h);
    DivModUnique(a + t, h, a / h, t);
  }

  /** The /124 block lies wholly in the NIC's network. */
  lemma {:induction false} EfloBlockIsInsideNic(prefix: Addr16, ones: nat, block: Addr16, v: nat)
    requires ones <= 124 && Value(prefix) % Pow2(128 - ones) == 0
    requires Value(block) == Splice(Value(prefix), Value(Pattern()), ones, 124)
    requires Value(block) <= v < Value(block) + 16
    ensures InBlock(V6, v, Value(prefix), ones)
  {
    EfloClosedForm(Value(prefix), Value(Pattern()), ones);
    AddInside(Value(prefix), Pow2(128 - ones), v - Value(prefix));
  }

  lemma {:induction false} SixteenMore(a: nat, k: nat)
    requires a % 16 == 0
    ensures (a + k * 16) % 16 == 0
  {
  }

  lemma {:induction false} EfloBlockIsRoomy(block: Addr16)
    requires Value(block) % 16 == 0
    ensures Roomy(Value(block), 124)
  {
    var v := Value(block);
    ValueBound(block);
    Pow2Sixteen(0);
    Pow2Sixteen(124);
    SixteenBelow(v, Pow2(124));
    DivModUnique(v, 16, v / 16, 0);
  }

  lemma {:induction false} SixteenBelow(v: nat, m: nat)
    requires v % 16 == 0 && v < 16 * m
    ensures v + 16 <= 16 * m
  {
  }

  /** The block as its text reads: an IPv4-mapped one is printed, and read back, as an IPv4 /28. */
  function Printed(block: Addr16): Block {
    if Is4In6(block) then Block(V4, Value(block) % UINT32, 28) else Block(V6, Value(block), 124)
  }

  lemma {:induction false} MappedBlockIsUsable(v: nat)
    requires v % 16 == 0
    ensures Usable(Block(V4, v % UINT32, 28))
  {
    var (a, c) := (v % UINT32, Block(V4, v % UINT32, 28));
    assert a % 16 == 0 && a + 16 <= UINT32;
    Pow2Sixteen(0);
    DivModUnique(a, 16, a / 16, 0);
    AlignedBlockIsUsable(c, 16);
  }

  /** The range the allocator gets from the block is usable, whichever family it is read in: it leaves out
      the block's first and last address and no free address is missed. */
  lemma {:induction false} EfloRangeIsUsable(prefix: Addr16, ones: nat, block: Addr16)
    requires ones <= 124 && Value(prefix) % Pow2(128 - ones) == 0
    requires Value(block) == Splice(Value(prefix), Value(Pattern()), ones, 124)
    ensures Usable(Printed(block))
  {
    EfloClosedForm(Value(prefix), Value(Pattern()), ones);
    SixteenMore(Value(prefix), Value(Pattern()) % Pow2(128 - ones) / 16);
    EfloBlockIsRoomy(block);
    RoomyBlockIsUsable(Value(block), 124);
    MappedBlockIsUsable(Value(block));
  }
}
