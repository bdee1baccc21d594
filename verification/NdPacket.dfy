/**
 The IPv6 packets that carry Neighbor Discovery messages (RFC 8200 section 3; RFC 4861
 sections 6.1.1 and 6.1.2 for what a receiver checks).
 */
module NdPacket {
  import opened Results
  import opened Bytes
  import Checksum
  import opened NdMessage
  import opened NdRoundTrip

  const HOP_LIMIT: byte := 255

  datatype Received = Received(msg: Message, src: Addr16, dst: Addr16)

  predicate IsUnspecified(a: Addr16) {
    forall i :: 0 <= i < 16 ==> a[i] == 0
  }

  /** fe80::/10, or an IPv4-mapped 169.254.0.0/16. */
  predicate IsLinkLocalUnicast(a: Addr16) {
    if Is4In6(a) then a[12] == 169 && a[13] == 254
    else a[0] == 0xfe && a[1] / 64 == 2
  }

  const LINK_LOCAL: Addr16 := [0xfe, 0x80, 0, 0, 0, 0, 0, 0, 0, 0, 0, 0, 0, 0, 0, 0]
  const MAPPED_LINK_LOCAL: Addr16 := [0, 0, 0, 0, 0, 0, 0, 0, 0, 0, 255, 255, 169, 254, 0, 0]

  lemma {:induction false} LinkLocalIPv6(a: Addr16)
    ensures Masked(a, 10) == LINK_LOCAL <==> a[0] == 0xfe && a[1] / 64 == 2
  {
    var (m, l) := (Masked(a, 10), LINK_LOCAL);
    MaskedParts(a, 10, 1);
    assert m == m[..1] + [m[1]] + m[2..] && m[..1] == [a[0]];
    assert l == [0xfe] + [0x80] + Zeros(14);
    assert m == l <==> a[0] == 0xfe && m[1] == 0x80 by {
      assert m == l ==> m[0] == l[0] && m[1] == l[1];
    }
    TopTwoBits(a[1]);
  }

  lemma {:induction false} TopTwoBits(b: byte)
    ensures MaskByte(b, 2) == 0x80 <==> b / 64 == 2
  {
    assert MaskByte(b, 2) == b - b % 64;
  }

  lemma {:induction false} LinkLocalMapped(a: Addr16)
    ensures Masked(a, 112) == MAPPED_LINK_LOCAL <==> Is4In6(a) && a[12] == 169 && a[13] == 254
  {
    var m := MAPPED_LINK_LOCAL;
    assert m[14..] == Zeros(2);
    MaskedWholeBytes(a, m, 14);
    LeadingBytes(a, m, 14);
  }

  lemma {:induction false} LeadingBytes(a: Addr16, m: Addr16, k: nat)
    requires k <= 16
    ensures a[..k] == m[..k] <==> forall i :: 0 <= i < k ==> a[i] == m[i]
  {
    if a[..k] == m[..k] {
      forall i | 0 <= i < k ensures a[i] == m[i] {
        assert a[..k][i] == m[..k][i];
      }
    }
  }

  /** A link-local address is one in fe80::/10 or in ::ffff:169.254.0.0/112. */
  lemma {:induction false} LinkLocalIs(a: Addr16)
    ensures IsLinkLocalUnicast(a) <==> Masked(a, 10) == LINK_LOCAL || Masked(a, 112) == MAPPED_LINK_LOCAL
  {
    LinkLocalIPv6(a);
    LinkLocalMapped(a);
  }

  /** The source addresses a receiver takes a message from. */
  predicate LegalSource(m: Message, src: Addr16) {
    match m
    case Solicitation(hw) => IsUnspecified(src) ==> hw == []
    case RouterAdvertisement(_) => IsLinkLocalUnicast(src)
  }

  /** The fixed header; the payload length field is 16 bits wide. */
  function Header(src: Addr16, dst: Addr16, len: nat): (h: seq<byte>)
    ensures |h| == 40
  {
    [0x60, 0, 0, 0] + U16(len % UINT16) + [Checksum.NEXT_HEADER_ICMPV6, HOP_LIMIT] + src + dst
  }

  /** The message with its checksum field filled in. */
  function Filled(src: Addr16, dst: Addr16, icmp: seq<byte>): (p: seq<byte>)
    requires |icmp| >= 4
    ensures |p| == |icmp|
  {
    var zeroed := icmp[..2] + [0, 0] + icmp[4..];
    zeroed[..2] + U16(Checksum.Checksum(src, dst, zeroed)) + zeroed[4..]
  }

  function MarshalPacket(src: Addr16, dst: Addr16, icmp: seq<byte>): seq<byte>
    requires |icmp| >= 4
  {
    Header(src, dst, |icmp|) + Filled(src, dst, icmp)
  }

  /** The checks on the payload: checksum, message and source. */
  function ParsePayload(src: Addr16, dst: Addr16, payload: seq<byte>): Result<Received> {
    if Checksum.Checksum(src, dst, payload) != 0 then Err
    else Delivered(ParseMessage(payload), src, dst)
  }

  function Delivered(m: Result<Message>, src: Addr16, dst: Addr16): Result<Received> {
    if m.Ok? && LegalSource(m.value, src) then Ok(Received(m.value, src, dst)) else Err
  }

  function ParsePacket(b: seq<byte>): Result<Received> {
    if |b| < 40 || b[0] / 16 != 6 || b[6] != Checksum.NEXT_HEADER_ICMPV6 || b[7] != HOP_LIMIT then Err
    else
      var n := FromU16(b[4..6]);
      if n > |b| - 40 then Err else ParsePayload(b[8..24], b[24..40], b[40..40 + n])
  }

  /** Neither parsing nor the message's length looks at the checksum field. */
  lemma {:induction false} ParseIgnoresChecksum(b: seq<byte>, c: seq<byte>)
    requires |b| >= 4 && |c| == 2
    ensures ParseMessage(b[..2] + c + b[4..]) == ParseMessage(b)
  {
    assert (b[..2] + c + b[4..])[4..] == b[4..];
  }

  /** A packet with the given header fields, of which the first 40 + n bytes count. */
  predicate Fields(b: seq<byte>, src: Addr16, dst: Addr16, n: nat) {
    && |b| >= 40 && b[0] == 0x60 && b[6] == Checksum.NEXT_HEADER_ICMPV6 && b[7] == HOP_LIMIT
    && FromU16(b[4..6]) == n && b[8..24] == src && b[24..40] == dst
  }

  lemma {:induction false} HeaderHasFields(src: Addr16, dst: Addr16, len: nat, b: seq<byte>)
    requires |b| >= 40 && b[..40] == Header(src, dst, len)
    ensures Fields(b, src, dst, len % UINT16)
  {
    var h := Header(src, dst, len);
    assert b[0] == h[0] && b[6] == h[6] && b[7] == h[7];
    assert b[4..6] == h[4..6] == U16(len % UINT16);
    U16RoundTrip(len % UINT16);
    assert b[8..24] == h[8..24] == src;
    assert b[24..40] == h[24..40] == dst;
  }

  lemma {:induction false} ParseByFields(b: seq<byte>, src: Addr16, dst: Addr16, n: nat)
    requires Fields(b, src, dst, n)
    ensures ParsePacket(b) == if n > |b| - 40 then Err else ParsePayload(src, dst, b[40..40 + n])
  {
  }

  lemma {:induction false} PaddedSlices(h: seq<byte>, payload: seq<byte>, padding: seq<byte>)
    requires |h| == 40
    ensures (h + payload + padding)[..40] == h
    ensures (h + payload + padding)[40..40 + |payload|] == payload
  {
  }

  lemma {:induction false} PaddingIsIgnored(src: Addr16, dst: Addr16, payload: seq<byte>, padding: seq<byte>)
    requires |payload| <= 65535
    ensures ParsePacket(Header(src, dst, |payload|) + payload + padding) == ParsePayload(src, dst, payload)
  {
    var b := Header(src, dst, |payload|) + payload + padding;
    PaddedFields(src, dst, payload, padding, b);
    ParseOfPayload(b, src, dst, payload);
  }

  lemma {:induction false} PaddedFields(src: Addr16, dst: Addr16, payload: seq<byte>, padding: seq<byte>, b: seq<byte>)
    requires |payload| <= 65535 && b == Header(src, dst, |payload|) + payload + padding
    ensures Fields(b, src, dst, |payload|) && 40 + |payload| <= |b| && b[40..40 + |payload|] == payload
  {
    PaddedSlices(Header(src, dst, |payload|), payload, padding);
    HeaderHasFields(src, dst, |payload|, b);
  }

  lemma {:induction false} ParseOfPayload(b: seq<byte>, src: Addr16, dst: Addr16, payload: seq<byte>)
    requires Fields(b, src, dst, |payload|) && 40 + |payload| <= |b| && b[40..40 + |payload|] == payload
    ensures ParsePacket(b) == ParsePayload(src, dst, payload)
  {
    ParseByFields(b, src, dst, |payload|);
  }

  lemma {:induction false} FilledParses(src: Addr16, dst: Addr16, icmp: seq<byte>)
    requires 4 <= |icmp| <= 65535
    ensures ParsePayload(src, dst, Filled(src, dst, icmp)) == Delivered(ParseMessage(icmp), src, dst)
  {
    var zeroed := icmp[..2] + [0, 0] + icmp[4..];
    Checksum.FilledChecksumVerifies(src, dst, zeroed);
    ParseIgnoresChecksum(icmp, [0, 0]);
    ParseIgnoresChecksum(zeroed, U16(Checksum.Checksum(src, dst, zeroed)));
  }

  /** What parsing a marshalled packet comes down to. */
  lemma {:induction false} ParseOfMarshal(src: Addr16, dst: Addr16, icmp: seq<byte>, padding: seq<byte>)
    requires 4 <= |icmp| <= 65535
    ensures ParsePacket(MarshalPacket(src, dst, icmp) + padding) == Delivered(ParseMessage(icmp), src, dst)
  {
    PaddingIsIgnored(src, dst, Filled(src, dst, icmp), padding);
    FilledParses(src, dst, icmp);
  }

  lemma {:induction false} ParsedFromShorter(src: Addr16, dst: Addr16, icmp: seq<byte>, padding: seq<byte>)
    requires |icmp| > 65535
    requires ParsePacket(MarshalPacket(src, dst, icmp) + padding).Ok?
    ensures WireLen(ParsePacket(MarshalPacket(src, dst, icmp) + padding).value.msg) < |icmp|
  {
    var b := MarshalPacket(src, dst, icmp) + padding;
    var n := |icmp| % UINT16;
    PaddedSlices(Header(src, dst, |icmp|), Filled(src, dst, icmp), padding);
    HeaderHasFields(src, dst, |icmp|, b);
    ParseByFields(b, src, dst, n);
    ParsedLen(b[40..40 + n]);
  }

  lemma {:induction false} NormalKeepsLegality(m: Message, src: Addr16)
    ensures LegalSource(Normal(m), src) <==> LegalSource(m, src)
  {
  }

  /** Sending and receiving gives back source, destination and message (as the wire keeps it),
      whatever padding follows the packet, if and only if the message fits the 16-bit payload length,
      its link-layer address fits an option and its source is legal. */
  lemma {:induction false} PacketRoundTrip(m: Message, src: Addr16, dst: Addr16, padding: seq<byte>)
    requires MarshalMessage(m).Ok?
    ensures var icmp := MarshalMessage(m).value;
            ParsePacket(MarshalPacket(src, dst, icmp) + padding) == Ok(Received(Normal(m), src, dst))
            <==> |icmp| <= 65535 && |SllaOf(m)| <= MAX_SLLA && LegalSource(m, src)
  {
    var icmp := MarshalMessage(m).value;
    MarshalledLen(m);
    NormalLen(m);
    NormalKeepsLegality(m, src);
    if |icmp| <= 65535 {
      MessageRoundTrip(m);
      ParseOfMarshal(src, dst, icmp, padding);
    } else if ParsePacket(MarshalPacket(src, dst, icmp) + padding).Ok? {
      ParsedFromShorter(src, dst, icmp, padding);
    }
  }

  /** Corrupting one aligned word of a valid packet's payload makes the receiver drop it, unless it
      turns 0x0000 into 0xffff or back. */
  lemma {:induction false} CorruptedWordRejected(src: Addr16, dst: Addr16, payload: seq<byte>, padding: seq<byte>,
                                                 i: nat, w: seq<byte>)
    requires |payload| <= 65535 && i % 2 == 0 && i + 2 <= |payload| && |w| == 2
    requires ParsePacket(Header(src, dst, |payload|) + payload + padding).Ok?
    requires FromU16(payload[i..i + 2]) % 65535 != FromU16(w) % 65535
    ensures var corrupted := payload[..i] + w + payload[i + 2..];
            ParsePacket(Header(src, dst, |corrupted|) + corrupted + padding).Err?
  {
    PaddingIsIgnored(src, dst, payload, padding);
    PaddingIsIgnored(src, dst, payload[..i] + w + payload[i + 2..], padding);
    Checksum.OneWordChangeDetected(src, dst, payload, i, w);
  }

  lemma {:induction false} HeaderByFields(h: seq<byte>, src: Addr16, dst: Addr16, len: nat)
    requires |h| == 40 && h[0] == 0x60 && h[1] == 0 && h[2] == 0 && h[3] == 0
    requires h[4] == len % UINT16 / 256 && h[5] == len % UINT16 % 256
    requires h[6] == Checksum.NEXT_HEADER_ICMPV6 && h[7] == HOP_LIMIT
    requires forall i :: 0 <= i < 16 ==> h[8 + i] == src[i]
    requires forall i :: 0 <= i < 16 ==> h[24 + i] == dst[i]
    ensures h == Header(src, dst, len)
  {
    assert h[8..24] == src && h[24..] == dst;
    assert h == h[..4] + h[4..6] + h[6..8] + h[8..24] + h[24..];
  }

  /** The header, in a buffer of zeros. */
  method WriteHeader(b: array<byte>, src: Addr16, dst: Addr16, len: nat)
    requires b.Length >= 40 && forall i :: 0 <= i < 40 ==> b[i] == 0
    modifies b
    ensures b[..40] == Header(src, dst, len) && b[40..] == old(b[40..])
  {
    b[0] := 6 * 16;
    b[4], b[5] := len % UINT16 / 256, len % UINT16 % 256;
    b[6], b[7] := Checksum.NEXT_HEADER_ICMPV6, HOP_LIMIT;
    forall i | 0 <= i < 16 {
      b[8 + i] := src[i];
    }
    forall i | 0 <= i < 16 {
      b[24 + i] := dst[i];
    }
    HeaderByFields(b[..40], src, dst, len);
  }

  /** The payload at 40 behind a header. */
  method WritePayload(b: array<byte>, payload: seq<byte>)
    requires b.Length == 40 + |payload|
    modifies b
    ensures b[..40] == old(b[..40]) && b[40..] == payload
  {
    forall i | 0 <= i < |payload| {
      b[40 + i] := payload[i];
    }
  }

  /** The checksum field of the message behind the header. */
  method WriteChecksum(b: array<byte>, c: nat)
    requires b.Length >= 44 && c < UINT16
    modifies b
    ensures b[..40] == old(b[..40])
    ensures b[40..] == old(b[40..42]) + U16(c) + old(b[44..])
  {
    b[42], b[43] := c / 256, c % 256;
    assert b[40..] == b[40..42] + [b[42], b[43]] + b[44..];
  }

  /** marshalPacket, filling a buffer in place. */
  method MarshalPacketInPlace(src: Addr16, dst: Addr16, icmp: seq<byte>) returns (b: array<byte>)
    requires |icmp| >= 4
    ensures fresh(b) && b[..] == MarshalPacket(src, dst, icmp)
  {
    b := new byte[40 + |icmp|](i => 0);
    WriteHeader(b, src, dst, |icmp|);
    WritePayload(b, icmp);
    assert b[40..42] == icmp[..2] && b[44..] == icmp[4..];
    WriteChecksum(b, 0);
    ghost var zeroed := icmp[..2] + [0, 0] + icmp[4..];
    assert b[40..] == zeroed && b[40..42] == zeroed[..2] && b[44..] == zeroed[4..];
    var c := Checksum.Compute(src, dst, b[40..]);
    WriteChecksum(b, c);
    assert b[..] == b[..40] + b[40..];
  }
}
