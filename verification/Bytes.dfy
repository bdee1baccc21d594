/** Bytes, big-endian integers and bit masks over byte strings. */
module Bytes {

  type byte = x: int | 0 <= x < 256

  const UINT16: nat := 0x1_0000
  const UINT32: nat := 0x1_0000_0000

  function U16(v: nat): (b: seq<byte>)
    requires v < UINT16
    ensures |b| == 2
  {
    [v / 256, v % 256]
  }

  function FromU16(b: seq<byte>): (v: nat)
    requires |b| == 2
    ensures v < UINT16
  {
    b[0] as int * 256 + b[1] as int
  }

  function U32(v: nat): (b: seq<byte>)
    requires v < UINT32
    ensures |b| == 4
  {
    U16(v / UINT16) + U16(v % UINT16)
  }

  function FromU32(b: seq<byte>): (v: nat)
    requires |b| == 4
    ensures v < UINT32
  {
    FromU16(b[..2]) * UINT16 + FromU16(b[2..])
  }

  lemma {:induction false} U16RoundTrip(v: nat)
    requires v < UINT16
    ensures FromU16(U16(v)) == v
  {
  }

  lemma {:induction false} U32RoundTrip(v: nat)
    requires v < UINT32
    ensures FromU32(U32(v)) == v
  {
    assert U32(v)[..2] == U16(v / UINT16);
    assert U32(v)[2..] == U16(v % UINT16);
  }

  /** A byte string of zeros. */
  function Zeros(n: nat): (z: seq<byte>)
    ensures |z| == n
    ensures forall i :: 0 <= i < n ==> z[i] == 0
  {
    seq(n, i => 0)
  }

  /** An IPv6 address in network byte order. */
  type Addr16 = s: seq<byte> | |s| == 16 witness Zeros(16)

  /** An IPv4-mapped address, ::ffff:0:0/96. */
  predicate Is4In6(a: Addr16) {
    (forall i :: 0 <= i < 10 ==> a[i] == 0) && a[10] == 255 && a[11] == 255
  }

  /** The value of a flag bit. */
  function Flag(b: bool, value: nat): nat {
    if b then value else 0
  }

  function Pow2(n: nat): (p: nat)
    ensures p >= 1
  {
    if n == 0 then 1 else 2 * Pow2(n - 1)
  }

  lemma {:induction false} Pow2Adds(m: nat, n: nat)
    ensures Pow2(m + n) == Pow2(m) * Pow2(n)
  {
    if m > 0 {
      Pow2Adds(m - 1, n);
      assert Pow2(m) * Pow2(n) == 2 * (Pow2(m - 1) * Pow2(n));
    }
  }

  lemma {:induction false} Pow2Grows(m: nat, n: nat)
    requires m <= n
    ensures Pow2(m) <= Pow2(n)
    ensures m < n ==> 2 * Pow2(m) <= Pow2(n)
  {
    if m < n {
      Pow2Grows(m, n - 1);
    }
  }

  lemma {:induction false} Pow2Sixteen(n: nat)
    ensures Pow2(n + 4) == 16 * Pow2(n)
  {
    assert Pow2(n + 2) == 2 * Pow2(n + 1) == 4 * Pow2(n);
    assert Pow2(n + 4) == 2 * Pow2(n + 3) == 4 * Pow2(n + 2);
  }

  lemma {:induction false} Pow2Squares(n: nat, x: nat)
    requires Pow2(n) == x
    ensures Pow2(2 * n) == x * x
  {
    Pow2Adds(n, n);
  }

  lemma {:induction false} Pow2Values()
    ensures Pow2(4) == 16 && Pow2(8) == 256 && Pow2(16) == 0x1_0000 && Pow2(32) == 0x1_0000_0000
    ensures Pow2(63) == 0x8000_0000_0000_0000 && Pow2(64) == 0x1_0000_0000_0000_0000
    ensures Pow2(128) == 0x1_0000_0000_0000_0000_0000_0000_0000_0000
  {
    assert Pow2(1) == 2;
    Pow2Squares(1, 2);
    Pow2Squares(2, 4);
    Pow2Squares(4, 16);
    Pow2Squares(8, 256);
    Pow2Squares(16, 0x1_0000);
    Pow2Squares(32, 0x1_0000_0000);
    Pow2Squares(64, 0x1_0000_0000_0000_0000);
  }

  /** The value of the lowest of a byte's k leading bits. */
  function LowestKept(k: int): (n: nat)
    ensures n > 0
  {
    if k <= 0 then 256 else if k == 1 then 128 else if k == 2 then 64 else if k == 3 then 32
    else if k == 4 then 16 else if k == 5 then 8 else if k == 6 then 4 else if k == 7 then 2 else 1
  }

  /** A byte with only its k leading bits kept. */
  function MaskByte(b: byte, k: int): (r: byte)
    ensures r <= b
    ensures k >= 8 ==> r == b
    ensures k <= 0 ==> r == 0
  {
    b - b % LowestKept(k)
  }

  lemma {:induction false} MultipleSize(x: int, n: int)
    requires n > 0
    ensures x >= 1 ==> x * n >= n
    ensures x <= -1 ==> x * n <= -n
  {
  }

  /** Quotient and remainder are determined by the division equation. */
  lemma {:induction false} DivModUnique(a: int, n: int, q: int, r: int)
    requires 0 <= r < n && a == q * n + r
    ensures a / n == q && a % n == r
  {
    var (k, x) := (a / n, a % n);
    assert a == k * n + x;
    assert (q - k) * n == x - r;
    MultipleSize(q - k, n);
  }

  lemma {:induction false} Euclid(x: nat, n: nat)
    requires n > 0
    ensures x == x / n * n + x % n && 0 <= x % n < n
  {
  }

  lemma {:induction false} DivDiv(v: nat, a: nat, b: nat)
    requires a > 0 && b > 0
    ensures a * b > 0 && v / (a * b) == v / a / b
  {
    var (q, r) := (v / a, v % a);
    var (p, s) := (q / b, q % b);
    Euclid(v, a);
    Euclid(q, b);
    Nested(p, s, r, a, b);
    DivModUnique(v, a * b, p, s * a + r);
  }

  /** Two digits of a number in the bases b and a, put together. */
  lemma {:induction false} Nested(p: nat, s: nat, r: nat, a: nat, b: nat)
    requires s < b && r < a
    ensures (p * b + s) * a + r == p * (a * b) + (s * a + r)
    ensures 0 <= s * a + r < a * b
  {
    PlusTimes(p * b, s, a);
    TimesTimes(p, b, a);
    MulMonotone(s, b - 1, a);
    PlusTimes(b, -1, a);
  }

  lemma {:induction false} PlusTimes(x: int, y: int, n: int)
    ensures (x + y) * n == x * n + y * n
  {
  }

  lemma {:induction false} TimesTimes(x: int, y: int, n: int)
    ensures x * (y * n) == (x * y) * n
  {
  }

  lemma {:induction false} MulMonotone(x: int, y: int, n: nat)
    requires x <= y
    ensures x * n <= y * n
  {
  }

  lemma {:induction false} MaskByteIdempotent(b: byte, k: int)
    ensures MaskByte(MaskByte(b, k), k) == MaskByte(b, k)
  {
    var n := LowestKept(k);
    DivModUnique(b - b % n, n, b / n, 0);
  }

  /** A byte string with only its leading bits kept. */
  function Masked(a: seq<byte>, bits: nat): (m: seq<byte>)
    ensures |m| == |a|
    ensures forall i :: 0 <= i < |a| ==> m[i] == MaskByte(a[i], bits - 8 * i)
  {
    seq(|a|, i requires 0 <= i < |a| => MaskByte(a[i], bits - 8 * i))
  }

  lemma {:induction false} MaskIdempotent(a: seq<byte>, bits: nat)
    ensures Masked(Masked(a, bits), bits) == Masked(a, bits)
  {
    forall i | 0 <= i < |a| ensures Masked(Masked(a, bits), bits)[i] == Masked(a, bits)[i] {
      MaskByteIdempotent(a[i], bits - 8 * i);
    }
  }

  // Byte strings as numbers.

  /** The big-endian number a byte string writes. */
  function Value(b: seq<byte>): nat {
    if b == [] then 0 else Value(b[..|b| - 1]) * 256 + b[|b| - 1] as int
  }

  lemma {:induction false} ValueConcat(a: seq<byte>, b: seq<byte>)
    ensures Value(a + b) == Value(a) * Pow2(8 * |b|) + Value(b)
    decreases |b|
  {
    if b == [] {
      assert a + b == a;
    } else {
      var (init, last) := (b[..|b| - 1], b[|b| - 1]);
      ValueConcat(a, init);
      assert (a + b)[..|a + b| - 1] == a + init;
      Pow2Byte(8 * |init|);
      var p := Pow2(8 * |init|);
      ShiftByte(Value(a), Value(init), p);
    }
  }

  lemma {:induction false} ShiftByte(x: nat, y: nat, p: nat)
    ensures (x * p + y) * 256 == x * (256 * p) + y * 256
  {
  }

  lemma {:induction false} Pow2Byte(n: nat)
    ensures Pow2(n + 8) == 256 * Pow2(n)
  {
    Pow2Sixteen(n);
    Pow2Sixteen(n + 4);
  }

  lemma {:induction false} ValueBound(b: seq<byte>)
    ensures Value(b) < Pow2(8 * |b|)
  {
    if b != [] {
      ValueBound(b[..|b| - 1]);
      Pow2Byte(8 * (|b| - 1));
    }
  }

  lemma {:induction false} ValueZeros(n: nat)
    ensures Value(Zeros(n)) == 0
  {
    if n > 0 {
      assert Zeros(n)[..n - 1] == Zeros(n - 1);
      ValueZeros(n - 1);
    }
  }

  lemma {:induction false} Spread(a: int, c: int, p: int)
    ensures (a * 256 + c) * p == a * (256 * p) + c * p
  {
  }

  /** A byte string around its k-th byte. */
  lemma {:induction false} ValueAround(b: Addr16, k: nat)
    requires k < 16
    ensures var p := Pow2(8 * (15 - k));
            Value(b) == Value(b[..k]) * (256 * p) + b[k] as int * p + Value(b[k + 1..])
    ensures Value(b[k + 1..]) < Pow2(8 * (15 - k))
  {
    assert b == b[..k + 1] + b[k + 1..];
    ValueConcat(b[..k + 1], b[k + 1..]);
    ValueBound(b[k + 1..]);
    assert b[..k + 1][..k] == b[..k];
    Spread(Value(b[..k]), b[k] as int, Pow2(8 * (15 - k)));
  }

  lemma {:induction false} ByteParts(x: nat, w: nat, p: nat, rest: nat)
    requires w > 0 && rest < p
    ensures x * p + rest == x / w * (w * p) + (x % w * p + rest) && 0 <= x % w * p + rest < w * p
  {
    TimesTimes(x / w, w, p);
    PlusTimes(x / w * w, x % w, p);
    MulMonotone(x % w + 1, w, p);
    PlusTimes(x % w, 1, p);
  }

  // Masking, on numbers.

  lemma {:induction false} LowestKeptIsPow2(j: nat)
    requires j < 8
    ensures LowestKept(j) == Pow2(8 - j) && 256 == Pow2(j) * LowestKept(j)
  {
    Pow2Sixteen(0);
    Pow2Sixteen(4);
    Pow2Adds(j, 8 - j);
    assert Pow2(1) == 2 && Pow2(2) == 4 && Pow2(3) == 8 && Pow2(5) == 32 && Pow2(6) == 64 && Pow2(7) == 128;
  }

  lemma {:induction false} MaskRemainder(h: nat, x: nat, rest: nat, w: nat, c: nat, p: nat)
    requires w > 0 && c * w == 256 && rest < p
    ensures w * p > 0 && (h * (256 * p) + x * p + rest) % (w * p) == x % w * p + rest
  {
    ByteParts(x, w, p, rest);
    TimesTimes(c, w, p);
    TimesTimes(h, c, w * p);
    PlusTimes(h * c, x / w, w * p);
    DivModUnique(h * (256 * p) + x * p + rest, w * p, h * c + x / w, x % w * p + rest);
  }

  lemma {:induction false} MaskedAround(a: Addr16, bits: nat, k: nat)
    requires k == bits / 8 < 16
    ensures var p := Pow2(8 * (15 - k));
            Value(Masked(a, bits)) == Value(a[..k]) * (256 * p) + MaskByte(a[k], bits - 8 * k) as int * p
  {
    MaskedParts(a, bits, k);
    ValueAround(Masked(a, bits), k);
    ValueZeros(15 - k);
  }

  lemma {:induction false} MaskedParts(a: Addr16, bits: nat, k: nat)
    requires k == bits / 8 < 16
    ensures var m := Masked(a, bits);
            m[..k] == a[..k] && m[k] == MaskByte(a[k], bits - 8 * k) && m[k + 1..] == Zeros(15 - k)
  {
    var m := Masked(a, bits);
    forall i | 0 <= i < k ensures m[i] == a[i] {
      assert bits - 8 * i >= 8;
    }
    forall i | k < i < 16 ensures m[i] == 0 {
      assert bits - 8 * i <= 0;
    }
  }

  lemma {:induction false} MaskOfParts(h: nat, x: nat, rest: nat, w: nat, c: nat, p: nat)
    requires w > 0 && c * w == 256 && rest < p
    ensures var v := h * (256 * p) + x * p + rest;
            w * p > 0 && h * (256 * p) + (x - x % w) * p == v - v % (w * p)
  {
    MaskRemainder(h, x, rest, w, c, p);
    PlusTimes(x - x % w, x % w, p);
  }

  lemma {:induction false} MaskWeight(bits: nat, k: nat)
    requires k == bits / 8 < 16
    ensures LowestKept(bits - 8 * k) * Pow2(8 * (15 - k)) == Pow2(128 - bits)
    ensures Pow2(bits - 8 * k) * LowestKept(bits - 8 * k) == 256
  {
    var j := bits - 8 * k;
    LowestKeptIsPow2(j);
    Pow2Adds(8 - j, 8 * (15 - k));
  }

  lemma {:induction false} MaskedInside(a: Addr16, bits: nat, k: nat)
    requires k == bits / 8 < 16
    ensures Value(Masked(a, bits)) == Value(a) - Value(a) % Pow2(128 - bits)
  {
    MaskWeight(bits, k);
    ValueAround(a, k);
    MaskedAround(a, bits, k);
    var j := bits - 8 * k;
    MaskOfNumber(Value(a), Value(Masked(a, bits)), Value(a[..k]), a[k], MaskByte(a[k], j), Value(a[k + 1..]),
                 LowestKept(j), Pow2(j), Pow2(8 * (15 - k)), Pow2(128 - bits));
  }

  lemma {:induction false} MaskOfNumber(v: nat, m: nat, h: nat, x: nat, y: nat, rest: nat, w: nat, c: nat, p: nat,
                                        n: nat)
    requires v == h * (256 * p) + x * p + rest && m == h * (256 * p) + y * p
    requires w > 0 && y == x - x % w && c * w == 256 && rest < p && w * p == n
    ensures n > 0 && m == v - v % n
  {
    MaskOfParts(h, x, rest, w, c, p);
  }

  /** Keeping the leading bits of an address rounds its number down to a multiple of what the others can hold. */
  lemma {:induction false} MaskedRoundsDown(a: Addr16, bits: nat)
    requires bits <= 128
    ensures Value(Masked(a, bits)) == Value(a) - Value(a) % Pow2(128 - bits)
  {
    if bits == 128 {
      assert Masked(a, bits) == a;
    } else {
      MaskedInside(a, bits, bits / 8);
    }
  }

  /** Keeping whole bytes. */
  lemma {:induction false} MaskedWholeBytes(a: Addr16, m: Addr16, k: nat)
    requires k <= 16 && m[k..] == Zeros(16 - k)
    ensures Masked(a, 8 * k) == m <==> a[..k] == m[..k]
  {
    var x := Masked(a, 8 * k);
    assert x[..k] == a[..k] by {
      assert forall i :: 0 <= i < k ==> 8 * k - 8 * i >= 8;
    }
    assert x[k..] == Zeros(16 - k) by {
      assert forall i :: k <= i < 16 ==> 8 * k - 8 * i <= 0;
    }
    assert x == x[..k] + x[k..] && m == m[..k] + m[k..];
  }
}
