/**
 The checksum that guards an ICMPv6 message and the addresses it travels with: the
 16-bit words of both are added, carries are added back in, and the sum is inverted
 (RFC 4443 section 2.3).
 */
module Checksum {
  import opened Bytes

  const NEXT_HEADER_ICMPV6: byte := 58

  /** The sum of the 16-bit big-endian words of b, an odd last byte being the high half of a word. */
  function WordSum(b: seq<byte>): nat {
    if |b| == 0 then 0
    else if |b| == 1 then b[0] as int * 256
    else FromU16(b[..2]) + WordSum(b[2..])
  }

  lemma {:induction false} WordSumBound(b: seq<byte>)
    ensures 2 * WordSum(b) <= (|b| + |b| % 2) * 65535
  {
    if |b| >= 2 {
      WordSumBound(b[2..]);
    }
  }

  /** What the sum covers besides addresses and payload: the payload's length and protocol. */
  function Pseudo(len: nat): (p: seq<byte>)
    ensures |p| == 8
  {
    U32(len % UINT32) + [0, 0, 0, NEXT_HEADER_ICMPV6]
  }

  /** The true sum over pseudo-header and payload. */
  function TotalSum(src: Addr16, dst: Addr16, payload: seq<byte>): nat {
    WordSum(src) + WordSum(dst) + WordSum(Pseudo(|payload|)) + WordSum(payload)
  }

  /** End-around carry folding. */
  function Fold(s: nat): (f: nat)
    ensures f < 65536
    decreases s
  {
    if s < 65536 then s else Fold(s % 65536 + s / 65536)
  }

  /** The checksum as the code computes it, its accumulator being 32 bits wide. */
  function Checksum(src: Addr16, dst: Addr16, payload: seq<byte>): (c: nat)
  {
    65535 - Fold(TotalSum(src, dst, payload) % UINT32)
  }

  /** Folding ends at the residue modulo 65535, with 65535 standing for zero unless the sum is zero. */
  lemma {:induction false} FoldIsResidue(s: nat)
    ensures Fold(s) == if s == 0 then 0 else 1 + (s - 1) % 65535
    decreases s
  {
    if s >= 65536 {
      var t := s % 65536 + s / 65536;
      assert s == 65536 * (s / 65536) + s % 65536;
      assert s - t == 65535 * (s / 65536);
      FoldIsResidue(t);
      DivModUnique(s - 1, 65535, (t - 1) / 65535 + s / 65536, (t - 1) % 65535);
    } else {
      DivModUnique(s, 65535, if s == 65535 then 1 else 0, if s == 65535 then 0 else s);
    }
  }

  /** The 32-bit accumulator cannot overflow for any payload an IPv6 header can announce, nor for
      any up to 131034 bytes. */
  lemma {:induction false} SumFits(src: Addr16, dst: Addr16, payload: seq<byte>)
    requires |payload| <= 131034
    ensures TotalSum(src, dst, payload) < UINT32
  {
    WordSumBound(src);
    WordSumBound(dst);
    WordSumBound(Pseudo(|payload|));
    WordSumBound(payload);
  }

  lemma {:induction false} SumIsPositive(src: Addr16, dst: Addr16, payload: seq<byte>)
    ensures TotalSum(src, dst, payload) >= NEXT_HEADER_ICMPV6
  {
    var p := Pseudo(|payload|);
    assert WordSum(p) >= NEXT_HEADER_ICMPV6 by {
      assert p[2..][2..][2..] == [0, NEXT_HEADER_ICMPV6];
      assert [0, NEXT_HEADER_ICMPV6][2..] == [];
      assert WordSum([0, NEXT_HEADER_ICMPV6]) == NEXT_HEADER_ICMPV6;
      assert WordSum(p) == FromU16(p[..2]) + WordSum(p[2..]);
      assert WordSum(p[2..]) == FromU16(p[2..][..2]) + WordSum(p[2..][2..]);
      assert WordSum(p[2..][2..]) == FromU16(p[2..][2..][..2]) + WordSum(p[2..][2..][2..]);
    }
  }

  lemma {:induction false} UnwrappedChecksum(src: Addr16, dst: Addr16, payload: seq<byte>)
    requires |payload| <= 131034
    ensures TotalSum(src, dst, payload) > 0
    ensures Checksum(src, dst, payload) == 65535 - Fold(TotalSum(src, dst, payload))
  {
    SumFits(src, dst, payload);
    SumIsPositive(src, dst, payload);
  }

  /** A message verifies exactly when its sum is a multiple of 65535. */
  lemma {:induction false} ZeroExactlyWhenDivisible(src: Addr16, dst: Addr16, payload: seq<byte>)
    requires |payload| <= 131034
    ensures Checksum(src, dst, payload) == 0 <==> TotalSum(src, dst, payload) % 65535 == 0
  {
    var s := TotalSum(src, dst, payload);
    UnwrappedChecksum(src, dst, payload);
    FoldIsResidue(s);
    var (q, r) := ((s - 1) / 65535, (s - 1) % 65535);
    assert s == q * 65535 + (r + 1);
    if r == 65534 {
      DivModUnique(s, 65535, q + 1, 0);
    } else {
      DivModUnique(s, 65535, q, r + 1);
    }
  }

  // What the checksum is, without words or folding.

  /** The bytes it covers, written out: addresses, payload length, next header and payload, in whole words. */
  function Covered(src: Addr16, dst: Addr16, payload: seq<byte>): seq<byte> {
    var n := |payload|;
    src + dst + [n / 0x100_0000 % 256, n / 0x1_0000 % 256, n / 0x100 % 256, n % 256, 0, 0, 0, 58]
    + (if n % 2 == 1 then payload + [0] else payload)
  }

  lemma {:induction false} WordSumConcat(a: seq<byte>, b: seq<byte>)
    requires |a| % 2 == 0
    ensures WordSum(a + b) == WordSum(a) + WordSum(b)
    decreases |a|
  {
    if a == [] {
      assert a + b == b;
    } else {
      assert (a + b)[..2] == a[..2] && (a + b)[2..] == a[2..] + b;
      WordSumConcat(a[2..], b);
    }
  }

  /** An odd last byte counts as a word with a zero behind it. */
  lemma {:induction false} WordSumPadded(b: seq<byte>)
    requires |b| % 2 == 1
    ensures WordSum(b + [0]) == WordSum(b)
    decreases |b|
  {
    if |b| == 1 {
      assert (b + [0])[..2] == b + [0] && (b + [0])[2..] == [];
    } else {
      assert (b + [0])[..2] == b[..2] && (b + [0])[2..] == b[2..] + [0];
      WordSumPadded(b[2..]);
    }
  }

  lemma {:induction false} Digits(n: nat)
    requires n < UINT32
    ensures n / UINT16 / 256 == n / 0x100_0000 % 256
    ensures n / UINT16 % 256 == n / 0x1_0000 % 256
    ensures n % UINT16 / 256 == n / 0x100 % 256
    ensures n % UINT16 % 256 == n % 256
  {
    var (h, l) := (n / UINT16, n % UINT16);
    assert n == h * 65536 + l;
    assert n / 256 == h * 256 + l / 256;
    assert n / 0x100_0000 == h / 256;
  }

  lemma {:induction false} PseudoBytes(n: nat)
    requires n < UINT32
    ensures Pseudo(n) == [n / 0x100_0000 % 256, n / 0x1_0000 % 256, n / 0x100 % 256, n % 256, 0, 0, 0, 58]
  {
    assert Pseudo(n) == [n / UINT16 / 256, n / UINT16 % 256, n % UINT16 / 256, n % UINT16 % 256, 0, 0, 0, 58];
    Digits(n);
  }

  lemma {:induction false} FourParts(a: seq<byte>, b: seq<byte>, c: seq<byte>, d: seq<byte>)
    requires |a| % 2 == 0 && |b| % 2 == 0 && |c| % 2 == 0
    ensures WordSum(a + b + c + d) == WordSum(a) + WordSum(b) + WordSum(c) + WordSum(d)
  {
    WordSumConcat(a, b);
    WordSumConcat(a + b, c);
    WordSumConcat(a + b + c, d);
  }

  lemma {:induction false} CoveredSum(src: Addr16, dst: Addr16, payload: seq<byte>)
    ensures WordSum(src + dst + Pseudo(|payload|) + InWords(payload)) == TotalSum(src, dst, payload)
  {
    FourParts(src, dst, Pseudo(|payload|), InWords(payload));
    if |payload| % 2 == 1 {
      WordSumPadded(payload);
    }
  }

  function InWords(b: seq<byte>): (w: seq<byte>)
    ensures |w| % 2 == 0
  {
    if |b| % 2 == 1 then b + [0] else b
  }

  lemma {:induction false} CoveredParts(src: Addr16, dst: Addr16, payload: seq<byte>)
    requires |payload| < UINT32
    ensures Covered(src, dst, payload) == src + dst + Pseudo(|payload|) + InWords(payload)
  {
    PseudoBytes(|payload|);
  }

  /** Powers of 2^16 leave 1 modulo 65535. */
  lemma {:induction false} OnesPower(k: nat) returns (t: nat)
    ensures Pow2(16 * k) == 65535 * t + 1
  {
    t := 0;
    if k > 0 {
      t := OnesPower(k - 1);
      Pow2Byte(16 * (k - 1));
      Pow2Byte(16 * (k - 1) + 8);
      t := 65536 * t + 1;
    }
  }

  lemma {:induction false} AddMultiple(x: int, y: int, k: int)
    requires x == y + k * 65535
    ensures x % 65535 == y % 65535
  {
    DivModUnique(x, 65535, y / 65535 + k, y % 65535);
  }

  lemma {:induction false} PairValue(b: seq<byte>)
    requires |b| == 2
    ensures Value(b) == FromU16(b)
  {
    assert b[..1][..0] == [];
    assert Value(b[..1]) == b[0] as int;
  }

  lemma {:induction false} LeadingWord(x: nat, t: nat, rest: nat, v: nat)
    requires v == x * (65535 * t + 1) + rest
    ensures v % 65535 == (x + rest) % 65535
  {
    assert x * (65535 * t + 1) == x + (x * t) * 65535;
    AddMultiple(v, x + rest, x * t);
  }

  lemma {:induction false} SameResidueAdded(x: nat, y: nat, z: nat)
    requires y % 65535 == z % 65535
    ensures (x + y) % 65535 == (x + z) % 65535
  {
    AddMultiple(x + y, x + z, y / 65535 - z / 65535);
  }

  /** Modulo 65535, the sum of the words of a byte string is the number it writes. */
  lemma {:induction false} WordSumIsValue(b: seq<byte>)
    requires |b| % 2 == 0
    ensures WordSum(b) % 65535 == Value(b) % 65535
    decreases |b|
  {
    if b != [] {
      var (x, rest) := (FromU16(b[..2]), b[2..]);
      WordSumIsValue(rest);
      assert b == b[..2] + rest;
      ValueConcat(b[..2], rest);
      PairValue(b[..2]);
      var t := OnesPower(|b| / 2 - 1);
      LeadingWord(x, t, Value(rest), Value(b));
      SameResidueAdded(x, WordSum(rest), Value(rest));
    }
  }

  lemma {:induction false} NegatedResidue(a: nat, b: nat)
    requires a % 65535 == b % 65535
    ensures (0 - a) % 65535 == (0 - b) % 65535
  {
    AddMultiple(0 - a, 0 - b, b / 65535 - a / 65535);
  }

  lemma {:induction false} FoldedNegation(s: nat)
    requires s > 0
    ensures 65535 - Fold(s) == (0 - s) % 65535
  {
    FoldIsResidue(s);
    var (q, r) := ((s - 1) / 65535, (s - 1) % 65535);
    assert s == q * 65535 + (r + 1);
    DivModUnique(0 - s, 65535, -(q + 1), 65534 - r);
  }

  lemma {:induction false} CoveredValue(b: seq<byte>, s: nat)
    requires |b| % 2 == 0 && WordSum(b) == s
    ensures (0 - s) % 65535 == (0 - Value(b)) % 65535
  {
    WordSumIsValue(b);
    NegatedResidue(s, Value(b));
  }

  lemma {:induction false} ChecksumNegatesSum(src: Addr16, dst: Addr16, payload: seq<byte>)
    requires |payload| <= 131034
    ensures Checksum(src, dst, payload) == (0 - TotalSum(src, dst, payload)) % 65535
  {
    UnwrappedChecksum(src, dst, payload);
    FoldedNegation(TotalSum(src, dst, payload));
  }

  lemma {:induction false} EvenLength(a: seq<byte>, b: seq<byte>, c: seq<byte>, d: seq<byte>)
    requires |a| % 2 == 0 && |b| % 2 == 0 && |c| % 2 == 0 && |d| % 2 == 0
    ensures |a + b + c + d| % 2 == 0
  {
  }

  lemma {:induction false} SumIsPartsValue(src: Addr16, dst: Addr16, payload: seq<byte>)
    ensures (0 - TotalSum(src, dst, payload)) % 65535
         == (0 - Value(src + dst + Pseudo(|payload|) + InWords(payload))) % 65535
  {
    var b := src + dst + Pseudo(|payload|) + InWords(payload);
    CoveredSum(src, dst, payload);
    EvenLength(src, dst, Pseudo(|payload|), InWords(payload));
    CoveredValue(b, TotalSum(src, dst, payload));
  }

  /** The checksum is the negation, modulo 65535, of the number that the covered bytes write. */
  lemma {:induction false} ChecksumNegatesCovered(src: Addr16, dst: Addr16, payload: seq<byte>)
    requires |payload| <= 131034
    ensures Checksum(src, dst, payload) == (0 - Value(Covered(src, dst, payload))) % 65535
  {
    ChecksumNegatesSum(src, dst, payload);
    SumIsPartsValue(src, dst, payload);
    CoveredParts(src, dst, payload);
  }

  /** The word sum of a byte string with the aligned word at i replaced. */
  lemma {:induction false} WordSumUpdate(b: seq<byte>, i: nat, w: seq<byte>)
    requires i % 2 == 0 && i + 2 <= |b| && |w| == 2
    ensures WordSum(b[..i] + w + b[i + 2..]) == WordSum(b) - FromU16(b[i..i + 2]) + FromU16(w)
    decreases i
  {
    var c := b[..i] + w + b[i + 2..];
    if i == 0 {
      assert c[..2] == w && c[2..] == b[2..];
      assert b[0..2] == b[..2];
    } else {
      assert c[..2] == b[..2];
      assert c[2..] == b[2..][..i - 2] + w + b[2..][i..];
      assert b[2..][i - 2..i] == b[i..i + 2];
      WordSumUpdate(b[2..], i - 2, w);
    }
  }

  lemma {:induction false} FoldedComplement(s: nat)
    requires s > 0
    ensures (s + (65535 - Fold(s))) % 65535 == 0
  {
    FoldIsResidue(s);
    DivModUnique(s + (65535 - Fold(s)), 65535, (s - 1) / 65535 + 1, 0);
  }

  lemma {:induction false} FillingAddsToSum(src: Addr16, dst: Addr16, payload: seq<byte>, c: nat)
    requires 4 <= |payload| && payload[2] == 0 && payload[3] == 0 && c < UINT16
    ensures TotalSum(src, dst, payload[..2] + U16(c) + payload[4..]) == TotalSum(src, dst, payload) + c
  {
    WordSumUpdate(payload, 2, U16(c));
    U16RoundTrip(c);
    assert payload[2..4] == [0, 0];
  }

  /** A checksum filled into a message whose checksum field is zero always verifies. */
  lemma {:induction false} FilledChecksumVerifies(src: Addr16, dst: Addr16, payload: seq<byte>)
    requires 4 <= |payload| <= 65535 && payload[2] == 0 && payload[3] == 0
    ensures Checksum(src, dst, payload[..2] + U16(Checksum(src, dst, payload)) + payload[4..]) == 0
  {
    var c := Checksum(src, dst, payload);
    var filled := payload[..2] + U16(c) + payload[4..];
    assert TotalSum(src, dst, filled) % 65535 == 0 by {
      var s := TotalSum(src, dst, payload);
      FillingAddsToSum(src, dst, payload, c);
      UnwrappedChecksum(src, dst, payload);
      FoldedComplement(s);
    }
    ZeroExactlyWhenDivisible(src, dst, filled);
  }

  /** Replacing one aligned word of a message that verifies goes unnoticed exactly when old and new
      word agree modulo 65535, that is, when they are equal or 0x0000 and 0xffff. */
  lemma {:induction false} OneWordChangeDetected(src: Addr16, dst: Addr16, payload: seq<byte>, i: nat, w: seq<byte>)
    requires |payload| <= 65535 && i % 2 == 0 && i + 2 <= |payload| && |w| == 2
    requires Checksum(src, dst, payload) == 0
    ensures Checksum(src, dst, payload[..i] + w + payload[i + 2..]) == 0
       <==> FromU16(payload[i..i + 2]) % 65535 == FromU16(w) % 65535
  {
    var changed := payload[..i] + w + payload[i + 2..];
    WordSumUpdate(payload, i, w);
    ZeroExactlyWhenDivisible(src, dst, payload);
    ZeroExactlyWhenDivisible(src, dst, changed);
    SameResidue(TotalSum(src, dst, payload), FromU16(payload[i..i + 2]), FromU16(w));
    assert TotalSum(src, dst, changed)
        == TotalSum(src, dst, payload) - FromU16(payload[i..i + 2]) + FromU16(w);
  }

  lemma {:induction false} SameResidue(s: nat, o: nat, n: nat)
    requires s % 65535 == 0 && o < 65536 && n < 65536
    ensures (s - o + n) % 65535 == 0 <==> o % 65535 == n % 65535
  {
    var q := s / 65535;
    var d := n - o;
    if d == -65535 {
      DivModUnique(s + d, 65535, q - 1, 0);
    } else if d < 0 {
      DivModUnique(s + d, 65535, q - 1, 65535 + d);
    } else if d < 65535 {
      DivModUnique(s + d, 65535, q, d);
    } else {
      DivModUnique(s + d, 65535, q + 1, 0);
    }
  }

  /** Adds the words of b to a 32-bit accumulator, as the closure in checksum does. */
  method AddWords(sum0: nat, b: seq<byte>) returns (sum: nat)
    requires sum0 < UINT32
    ensures sum == (sum0 + WordSum(b)) % UINT32
  {
    sum := sum0;
    var i := 0;
    ghost var over: nat := 0; // what the accumulator has lost by wrapping around
    assert b[0..] == b;
    while i + 1 < |b|
      invariant 0 <= i <= |b| && i % 2 == 0 && sum < UINT32
      invariant Lost(over) && sum + over + WordSum(b[i..]) == sum0 + WordSum(b)
    {
      FirstWord(b, i);
      ghost var lost;
      sum, lost := Add32(sum, b[i] as int * 256 + b[i + 1] as int);
      LostAdds(over, lost);
      over := over + lost;
      i := i + 2;
    }
    LastByte(b, i);
    if |b| % 2 == 1 {
      ghost var lost;
      sum, lost := Add32(sum, b[|b| - 1] as int * 256);
      LostAdds(over, lost);
      over := over + lost;
    }
    LostIsLost(sum, over, sum0 + WordSum(b));
  }

  /** 32-bit addition. */
  method Add32(x: nat, y: nat) returns (sum: nat, ghost lost: nat)
    ensures sum < UINT32 && Lost(lost) && sum + lost == x + y
  {
    sum, lost := (x + y) % UINT32, (x + y) / UINT32 * UINT32;
    assert Lost(lost) by {
      DivModUnique(lost, UINT32, (x + y) / UINT32, 0);
    }
  }

  /** A whole number of times what a 32-bit accumulator holds. */
  ghost predicate Lost(n: nat) {
    n % UINT32 == 0
  }

  lemma {:induction false} LostAdds(m: nat, n: nat)
    requires Lost(m) && Lost(n)
    ensures Lost(m + n)
  {
    PlusTimes(m / UINT32, n / UINT32, UINT32);
    DivModUnique(m + n, UINT32, m / UINT32 + n / UINT32, 0);
  }

  lemma {:induction false} LostIsLost(sum: nat, over: nat, total: nat)
    requires sum < UINT32 && Lost(over) && sum + over == total
    ensures total % UINT32 == sum
  {
    DivModUnique(total, UINT32, over / UINT32, sum);
  }

  lemma {:induction false} LastByte(b: seq<byte>, i: nat)
    requires i % 2 == 0 && i <= |b| <= i + 1
    ensures WordSum(b[i..]) == if |b| % 2 == 1 then b[|b| - 1] as int * 256 else 0
  {
    assert |b| % 2 == 1 ==> b[i..] == [b[|b| - 1]];
  }

  lemma {:induction false} FirstWord(b: seq<byte>, i: nat)
    requires i + 1 < |b|
    ensures WordSum(b[i..]) == b[i] as int * 256 + b[i + 1] as int + WordSum(b[i + 2..])
  {
    assert b[i..][2..] == b[i + 2..];
    assert b[i..][..2] == [b[i], b[i + 1]];
  }

  lemma {:induction false} ModAdd(a: nat, b: nat)
    ensures (a % UINT32 + b) % UINT32 == (a + b) % UINT32
  {
  }

  lemma {:induction false} FourSums(a: nat, b: nat, c: nat, d: nat)
    ensures (((a % UINT32 + b) % UINT32 + c) % UINT32 + d) % UINT32 == (a + b + c + d) % UINT32
  {
    ModAdd(a, b);
    ModAdd(a + b, c);
    ModAdd(a + b + c, d);
  }

  /** The checksum function's loops compute Checksum, for payloads of any length. */
  method Compute(src: Addr16, dst: Addr16, payload: seq<byte>) returns (c: nat)
    ensures c == Checksum(src, dst, payload)
  {
    var s1 := AddWords(0, src);
    var s2 := AddWords(s1, dst);
    var s3 := AddWords(s2, Pseudo(|payload|));
    var sum := AddWords(s3, payload);
    FourSums(WordSum(src), WordSum(dst), WordSum(Pseudo(|payload|)), WordSum(payload));
    var folded := FoldLoop(sum);
    c := 65535 - folded;
  }

  /** Its last loop. */
  method FoldLoop(sum0: nat) returns (sum: nat)
    ensures sum == Fold(sum0)
  {
    sum := sum0;
    while sum / 65536 != 0
      invariant Fold(sum) == Fold(sum0)
      decreases sum
    {
      sum := sum % 65536 + sum / 65536;
    }
  }
}
