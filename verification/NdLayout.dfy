/**
 The wire formats byte by byte: what stands where in a marshalled message and packet (RFC 4861
 sections 4.1, 4.2 and 4.6, RFC 4191 sections 2.2 and 2.3, RFC 8200 section 3), and which bytes
 a receiver accepts. Numbers are big-endian, as Value reads them.
 */
module NdLayout {
  import opened Results
  import opened Bytes
  import Checksum
  import opened NdMessage
  import opened NdRoundTrip
  import opened NdPacket

  lemma {:induction false} ValueOfPair(b: seq<byte>)
    requires |b| == 2
    ensures Value(b) == b[0] as int * 256 + b[1] as int
  {
    assert b[..1][..0] == [];
    assert Value(b[..1]) == b[0] as int;
  }

  lemma {:induction false} FromU16IsValue(b: seq<byte>)
    requires |b| == 2
    ensures FromU16(b) == Value(b)
  {
    ValueOfPair(b);
  }

  lemma {:induction false} FromU32IsValue(b: seq<byte>)
    requires |b| == 4
    ensures FromU32(b) == Value(b)
  {
    assert b == b[..2] + b[2..];
    ValueConcat(b[..2], b[2..]);
    FromU16IsValue(b[..2]);
    FromU16IsValue(b[2..]);
    Pow2Byte(0);
    Pow2Byte(8);
  }

  lemma {:induction false} U16Value(n: nat)
    requires n < UINT16
    ensures Value(U16(n)) == n
  {
    U16RoundTrip(n);
    FromU16IsValue(U16(n));
  }

  lemma {:induction false} U32Value(n: nat)
    requires n < UINT32
    ensures Value(U32(n)) == n
  {
    U32RoundTrip(n);
    FromU32IsValue(U32(n));
  }

  // What is sent.

  /** The two preference bits: 01 high, 00 medium, 11 low. */
  function PreferenceField(p: int): nat {
    if p == 1 then 8 else if p == -1 then 24 else 0
  }

  /** The fixed part of an advertisement: type 134, code and checksum zero, hop limit, flags, lifetime in
      seconds, the two timers in milliseconds. */
  lemma {:induction false} AdvertisementLayout(ra: Advertisement)
    requires MarshalMessage(RouterAdvertisement(ra)).Ok?
    ensures var b := MarshalMessage(RouterAdvertisement(ra)).value;
            && |b| >= 16 && b[..4] == [134, 0, 0, 0] && b[4] == ra.hopLimit
            && b[5] == (if ra.managed then 128 else 0) + (if ra.other then 64 else 0) + PreferenceField(ra.preference)
            && Value(b[6..8]) == ra.lifetime / 1_000_000_000
            && Value(b[8..12]) == ra.reachable / 1_000_000 && Value(b[12..16]) == ra.retransmit / 1_000_000
  {
    var (b, h) := (MarshalMessage(RouterAdvertisement(ra)).value, HeaderBytes(ra));
    assert b[4..16] == h;
    assert b[4] == h[0] && b[5] == h[1];
    assert b[6..8] == h[2..4] == U16(ra.lifetime / SECOND);
    assert b[8..12] == h[4..8] == U32(ra.reachable / MILLISECOND);
    assert b[12..16] == h[8..12] == U32(ra.retransmit / MILLISECOND);
    U16Value(ra.lifetime / SECOND);
    U32Value(ra.reachable / MILLISECOND);
    U32Value(ra.retransmit / MILLISECOND);
  }

  /** Behind it: the link-layer address, the MTU, the prefixes and the routes, each as options. */
  lemma {:induction false} AdvertisementOptions(ra: Advertisement)
    requires MarshalMessage(RouterAdvertisement(ra)).Ok?
    ensures PrefixesBytes(ra.prefixes).Ok? && RoutesBytes(ra.routes).Ok?
    ensures var (ps, rs) := (PrefixesBytes(ra.prefixes).value, RoutesBytes(ra.routes).value);
            MarshalMessage(RouterAdvertisement(ra)).value[16..]
            == LinkLayerOption(ra.slla) + MtuOption(ra.mtu) + ps + rs
  {
    var (hw, mtu) := (LinkLayerOption(ra.slla), MtuOption(ra.mtu));
    var (ps, rs) := (PrefixesBytes(ra.prefixes).value, RoutesBytes(ra.routes).value);
    BehindHeader(HeaderBytes(ra), hw, mtu, ps, rs);
    assert MarshalMessage(RouterAdvertisement(ra)).value == [TYPE_RA, 0, 0, 0] + HeaderBytes(ra) + (hw + mtu + ps + rs);
  }

  /** A solicitation: type 133, seven zero bytes, and the link-layer address option. */
  lemma {:induction false} SolicitationLayout(hw: seq<byte>)
    ensures MarshalMessage(Solicitation(hw)).Ok?
    ensures MarshalMessage(Solicitation(hw)).value == [133, 0, 0, 0, 0, 0, 0, 0] + LinkLayerOption(hw)
  {
    assert [TYPE_RS, 0, 0, 0] + Zeros(4) == [133, 0, 0, 0, 0, 0, 0, 0];
  }

  /** A link-layer address option: type 1, the number of 8-byte units, the address, and zeros. */
  lemma {:induction false} LinkLayerOptionLayout(hw: seq<byte>)
    requires 0 < |hw| <= MAX_SLLA
    ensures var o := LinkLayerOption(hw);
            && |o| % 8 == 0 && |hw| + 2 <= |o| < |hw| + 10
            && o[0] == 1 && o[1] as int * 8 == |o| && o[2..2 + |hw|] == hw
            && forall i :: 2 + |hw| <= i < |o| ==> o[i] == 0
  {
  }

  lemma {:induction false} MtuOptionLayout(mtu: uint32)
    ensures MtuOption(0) == []
    ensures mtu != 0 ==>
              var o := MtuOption(mtu);
              |o| == 8 && o[..4] == [5, 1, 0, 0] && Value(o[4..]) == mtu
  {
    if mtu != 0 {
      assert MtuOption(mtu)[4..] == U32(mtu);
      U32Value(mtu);
    }
  }

  /** A prefix option: type 3 and 32 bytes, prefix length, the on-link and autonomous flags, both lifetimes in
      seconds, four zeros, the prefix. */
  lemma {:induction false} PrefixOptionLayout(p: PrefixInformation)
    requires PrefixesBytes([p]).Ok?
    ensures p.prefix.V6?
    ensures var o := PrefixesBytes([p]).value;
            && |o| == 32 && o[0] == 3 && o[1] == 4 && o[2] == p.prefix.bits
            && o[3] == (if p.onLink then 128 else 0) + (if p.autonomous then 64 else 0)
            && Value(o[4..8]) == p.valid / 1_000_000_000 && Value(o[8..12]) == p.preferred / 1_000_000_000
            && o[12..16] == [0, 0, 0, 0] && o[16..] == Masked(p.prefix.addr, p.prefix.bits)
  {
    var (o, b) := (PrefixesBytes([p]).value, PrefixBody(p));
    assert [p][1..] == [];
    assert o == [OPT_PREFIX, 4] + b + [] == [OPT_PREFIX, 4] + b;
    assert o[2..] == b;
    assert o[4..8] == b[2..6] == U32(p.valid / SECOND);
    assert o[8..12] == b[6..10] == U32(p.preferred / SECOND);
    assert o[12..16] == b[10..14] == [0, 0, 0, 0];
    assert o[16..] == b[14..] == Masked(p.prefix.addr, p.prefix.bits);
    U32Value(p.valid / SECOND);
    U32Value(p.preferred / SECOND);
  }

  /** A route option: type 24, as many units as its 0, 8 or 16 prefix bytes need, prefix length, preference,
      lifetime in seconds, the prefix bytes. */
  lemma {:induction false} RouteOptionLayout(r: RouteInformation)
    requires RoutesBytes([r]).Ok?
    ensures r.prefix.V6?
    ensures var k := if r.prefix.bits == 0 then 0 else if r.prefix.bits <= 64 then 8 else 16;
            var o := RoutesBytes([r]).value;
            && |o| == 8 + k && o[0] == 24 && o[1] as int * 8 == |o| && o[2] == r.prefix.bits
            && o[3] == PreferenceField(r.preference)
            && Value(o[4..8]) == r.lifetime / 1_000_000_000 && o[8..] == Masked(r.prefix.addr, r.prefix.bits)[..k]
  {
    var (o, b) := (RoutesBytes([r]).value, RouteBody(r));
    var head: seq<byte> := [OPT_ROUTE, 1 + RoutePrefixBytes(r.prefix.bits) / 8];
    assert [r][1..] == [];
    assert o == head + b + [] == head + b;
    assert o[2..] == b && o[0] == head[0] && o[1] == head[1];
    assert o[4..8] == b[2..6] == U32(r.lifetime / SECOND);
    assert o[8..] == b[6..] == Masked(r.prefix.addr, r.prefix.bits)[..RoutePrefixBytes(r.prefix.bits)];
    U32Value(r.lifetime / SECOND);
  }

  /** A packet: version 6, payload length, next header 58, hop limit 255, both addresses, and the message with its
      checksum filled in. */
  lemma {:induction false} PacketLayout(src: Addr16, dst: Addr16, icmp: seq<byte>)
    requires |icmp| >= 4
    ensures var b := MarshalPacket(src, dst, icmp);
            && |b| == 40 + |icmp| && b[..4] == [0x60, 0, 0, 0] && Value(b[4..6]) == |icmp| % 65536
            && b[6] == 58 && b[7] == 255 && b[8..24] == src && b[24..40] == dst
            && b[40..42] == icmp[..2] && b[44..] == icmp[4..]
            && Value(b[42..44]) == Checksum.Checksum(src, dst, icmp[..2] + [0, 0] + icmp[4..])
  {
    var (h, f) := (Header(src, dst, |icmp|), Filled(src, dst, icmp));
    var b := h + f;
    var zeroed := icmp[..2] + [0, 0] + icmp[4..];
    assert b[..4] == h[..4] && b[4..6] == h[4..6] == U16(|icmp| % UINT16);
    assert b[6] == h[6] && b[7] == h[7] && b[8..24] == h[8..24] == src && b[24..40] == h[24..40] == dst;
    U16Value(|icmp| % UINT16);
    FilledParts(src, dst, icmp);
    assert b[40..] == f;
    assert b[40..42] == f[..2] && b[42..44] == f[2..4] && b[44..] == f[4..];
    U16Value(Checksum.Checksum(src, dst, zeroed));
  }

  lemma {:induction false} FilledParts(src: Addr16, dst: Addr16, icmp: seq<byte>)
    requires |icmp| >= 4
    ensures var (f, zeroed) := (Filled(src, dst, icmp), icmp[..2] + [0, 0] + icmp[4..]);
            f[..2] == icmp[..2] && f[2..4] == U16(Checksum.Checksum(src, dst, zeroed)) && f[4..] == icmp[4..]
  {
    var zeroed := icmp[..2] + [0, 0] + icmp[4..];
    assert zeroed[..2] == icmp[..2] && zeroed[4..] == icmp[4..];
  }

  // What is accepted.

  /** A prefix option's body is accepted exactly when it has 30 bytes and a possible length. */
  lemma {:induction false} PrefixAccepted(body: seq<byte>)
    ensures ParsePrefixInformation(body).Some? <==> |body| == 30 && body[0] <= 128
    ensures ParsePrefixInformation(body).Some? ==>
              var p := ParsePrefixInformation(body).value;
              && p.prefix == V6(Masked(body[14..], body[0]), body[0])
              && p.onLink == (body[1] / 128 == 1) && p.autonomous == (body[1] / 64 % 2 == 1)
              && p.valid == Value(body[2..6]) * 1_000_000_000 && p.preferred == Value(body[6..10]) * 1_000_000_000
  {
    if ParsePrefixInformation(body).Some? {
      FromU32IsValue(body[2..6]);
      FromU32IsValue(body[6..10]);
      assert body[14..30] == body[14..];
    }
  }

  /** A route option's body is accepted exactly when it carries at least as many prefix bytes as its length needs
      and at most 16, and its preference is not the reserved one. */
  lemma {:induction false} RouteAccepted(body: seq<byte>)
    ensures ParseRouteInformation(body).Some? <==>
              6 <= |body| <= 22 && body[0] <= 128 && body[0] as int <= (|body| - 6) * 8 && body[1] / 8 % 4 != 2
    ensures ParseRouteInformation(body).Some? ==>
              var r := ParseRouteInformation(body).value;
              && r.prefix == V6(Masked(body[6..] + Zeros(22 - |body|), body[0]), body[0])
              && r.preference == (if body[1] / 8 % 4 == 1 then 1 else if body[1] / 8 % 4 == 3 then -1 else 0)
              && r.lifetime == Value(body[2..6]) * 1_000_000_000
  {
    if ParseRouteInformation(body).Some? {
      FromU32IsValue(body[2..6]);
    }
  }

  /** A message is accepted exactly when it is a solicitation or an advertisement with code zero, its fixed part
      complete, and options behind it. */
  lemma {:induction false} MessageAccepted(b: seq<byte>)
    ensures ParseMessage(b).Ok? <==>
              && |b| >= 8 && b[1] == 0
              && (|| (b[0] == 133 && HasOptions(b[8..]))
                  || (b[0] == 134 && |b| >= 16 && HasOptions(b[16..])))
  {
    if |b| >= 8 {
      assert b[4..][4..] == b[8..];
      OptionsWhen(b[8..]);
    }
    if |b| >= 16 {
      assert b[4..][12..] == b[16..];
      OptionsWhen(b[16..]);
    }
  }

  /** The bytes are a series of options of whole units. */
  ghost predicate HasOptions(b: seq<byte>) {
    exists opts :: AllWellFormed(opts) && Concat(opts) == b
  }

  lemma {:induction false} OptionsWhen(b: seq<byte>)
    ensures ParseOptions(b).Ok? <==> HasOptions(b)
  {
    if ParseOptions(b).Ok? {
      OptionsExact(b, ParseOptions(b).value);
    }
    if HasOptions(b) {
      var opts :| AllWellFormed(opts) && Concat(opts) == b;
      OptionsExact(b, opts);
    }
  }

  /** A packet is accepted exactly when it is IPv6 with next header 58 and hop limit 255, holds its announced
      payload, and that payload verifies, is an accepted message and comes from a legal source. */
  lemma {:induction false} PacketAccepted(b: seq<byte>)
    ensures ParsePacket(b).Ok? <==>
              && |b| >= 40 && b[0] / 16 == 6 && b[6] == 58 && b[7] == 255
              && var n := Value(b[4..6]);
                 && 40 + n <= |b|
                 && Checksum.Checksum(b[8..24], b[24..40], b[40..40 + n]) == 0
                 && ParseMessage(b[40..40 + n]).Ok? && LegalSource(ParseMessage(b[40..40 + n]).value, b[8..24])
    ensures ParsePacket(b).Ok? ==> ParsePacket(b).value.src == b[8..24] && ParsePacket(b).value.dst == b[24..40]
  {
    if |b| >= 40 {
      FromU16IsValue(b[4..6]);
    }
  }

  /** The sources a message is taken from: a solicitation with a link-layer address not from ::, an advertisement
      only from a link-local address. */
  lemma {:induction false} LegalSourceIs(m: Message, src: Addr16)
    ensures LegalSource(m, src) <==>
              match m
              case Solicitation(hw) => hw == [] || src != Zeros(16)
              case RouterAdvertisement(_) =>
                Masked(src, 10) == LINK_LOCAL || Masked(src, 112) == MAPPED_LINK_LOCAL
  {
    match m
    case Solicitation(_) => UnspecifiedIs(src);
    case RouterAdvertisement(_) => LinkLocalIs(src);
  }

  lemma {:induction false} UnspecifiedIs(a: Addr16)
    ensures IsUnspecified(a) <==> a == Zeros(16)
  {
  }

  // What an accepted advertisement says.

  /** The prefixes of the accepted prefix options, in order. */
  function PrefixesIn(opts: seq<Opt>): seq<PrefixInformation> {
    if opts == [] then []
    else
      var p := if opts[0].typ == 3 then ParsePrefixInformation(opts[0].body) else None;
      (if p.Some? then [p.value] else []) + PrefixesIn(opts[1..])
  }

  /** The routes of the accepted route options, in order. */
  function RoutesIn(opts: seq<Opt>): seq<RouteInformation> {
    if opts == [] then []
    else
      var r := if opts[0].typ == 24 then ParseRouteInformation(opts[0].body) else None;
      (if r.Some? then [r.value] else []) + RoutesIn(opts[1..])
  }

  /** The last option of a type, among those whose body has the given length if one is asked for. */
  ghost predicate IsLastOf(opts: seq<Opt>, typ: byte, len: int, k: nat) {
    && k < |opts| && Counts(opts[k], typ, len)
    && forall j :: k < j < |opts| ==> !Counts(opts[j], typ, len)
  }

  predicate Counts(o: Opt, typ: byte, len: int) {
    o.typ == typ && (len < 0 || |o.body| == len)
  }

  lemma {:induction false} OptionsGive(ra: Advertisement, opts: seq<Opt>)
    ensures var r := ApplyOpts(ra, opts);
            && r == ra.(slla := r.slla, mtu := r.mtu, prefixes := r.prefixes, routes := r.routes)
            && r.prefixes == ra.prefixes + PrefixesIn(opts) && r.routes == ra.routes + RoutesIn(opts)
    decreases |opts|
  {
    if opts != [] {
      ApplyOptGives(ra, opts[0]);
      OptionsGive(ApplyOpt(ra, opts[0]), opts[1..]);
    }
  }

  lemma {:induction false} ApplyOptGives(ra: Advertisement, o: Opt)
    ensures var r := ApplyOpt(ra, o);
            && r == ra.(slla := r.slla, mtu := r.mtu, prefixes := r.prefixes, routes := r.routes)
            && r.prefixes == ra.prefixes + (var p := if o.typ == 3 then ParsePrefixInformation(o.body) else None;
                                            if p.Some? then [p.value] else [])
            && r.routes == ra.routes + (var p := if o.typ == 24 then ParseRouteInformation(o.body) else None;
                                        if p.Some? then [p.value] else [])
  {
  }

  lemma {:induction false} ApplyLast(ra: Advertisement, opts: seq<Opt>)
    requires opts != []
    ensures ApplyOpts(ra, opts) == ApplyOpt(ApplyOpts(ra, opts[..|opts| - 1]), opts[|opts| - 1])
  {
    var (init, last) := (opts[..|opts| - 1], opts[|opts| - 1]);
    assert opts == init + [last];
    ApplyOptsAppends(ra, init, [last]);
    assert [last][1..] == [];
  }

  lemma {:induction false} ApplyOptScalars(ra: Advertisement, o: Opt)
    ensures ApplyOpt(ra, o).slla == if Counts(o, 1, -1) then o.body else ra.slla
    ensures ApplyOpt(ra, o).mtu == if Counts(o, 5, 6) then Value(o.body[2..]) else ra.mtu
  {
    if Counts(o, 5, 6) {
      FromU32IsValue(o.body[2..6]);
      assert o.body[2..6] == o.body[2..];
    }
  }

  lemma {:induction false} LastOfInit(opts: seq<Opt>, typ: byte, len: int, k: nat)
    requires opts != [] && IsLastOf(opts, typ, len, k) && k < |opts| - 1
    ensures IsLastOf(opts[..|opts| - 1], typ, len, k) && !Counts(opts[|opts| - 1], typ, len)
  {
  }

  ghost predicate NoneCounts(opts: seq<Opt>, typ: byte, len: int) {
    forall j :: 0 <= j < |opts| ==> !Counts(opts[j], typ, len)
  }

  lemma {:induction false} LastSllaWins(ra: Advertisement, opts: seq<Opt>, k: nat)
    ensures IsLastOf(opts, 1, -1, k) ==> ApplyOpts(ra, opts).slla == opts[k].body
    ensures NoneCounts(opts, 1, -1) ==> ApplyOpts(ra, opts).slla == ra.slla
    decreases |opts|
  {
    if opts != [] {
      var (init, last) := (opts[..|opts| - 1], opts[|opts| - 1]);
      ApplyLast(ra, opts);
      ApplyOptScalars(ApplyOpts(ra, init), last);
      LastSllaWins(ra, init, k);
      if IsLastOf(opts, 1, -1, k) && k < |init| {
        LastOfInit(opts, 1, -1, k);
      }
    }
  }

  lemma {:induction false} LastMtuWins(ra: Advertisement, opts: seq<Opt>, k: nat)
    ensures IsLastOf(opts, 5, 6, k) ==> ApplyOpts(ra, opts).mtu == Value(opts[k].body[2..])
    ensures NoneCounts(opts, 5, 6) ==> ApplyOpts(ra, opts).mtu == ra.mtu
    decreases |opts|
  {
    if opts != [] {
      var (init, last) := (opts[..|opts| - 1], opts[|opts| - 1]);
      ApplyLast(ra, opts);
      ApplyOptScalars(ApplyOpts(ra, init), last);
      LastMtuWins(ra, init, k);
      if IsLastOf(opts, 5, 6, k) && k < |init| {
        LastOfInit(opts, 5, 6, k);
      }
    }
  }

  /** The last link-layer address wins, and the last MTU of the right size. */
  lemma {:induction false} LastOptionWins(ra: Advertisement, opts: seq<Opt>)
    ensures forall k: nat :: IsLastOf(opts, 1, -1, k) ==> ApplyOpts(ra, opts).slla == opts[k].body
    ensures forall k: nat :: IsLastOf(opts, 5, 6, k) ==> ApplyOpts(ra, opts).mtu == Value(opts[k].body[2..])
    ensures NoneCounts(opts, 1, -1) ==> ApplyOpts(ra, opts).slla == ra.slla
    ensures NoneCounts(opts, 5, 6) ==> ApplyOpts(ra, opts).mtu == ra.mtu
  {
    LastSllaWins(ra, opts, 0);
    LastMtuWins(ra, opts, 0);
    forall k: nat | IsLastOf(opts, 1, -1, k) ensures ApplyOpts(ra, opts).slla == opts[k].body {
      LastSllaWins(ra, opts, k);
    }
    forall k: nat | IsLastOf(opts, 5, 6, k) ensures ApplyOpts(ra, opts).mtu == Value(opts[k].body[2..]) {
      LastMtuWins(ra, opts, k);
    }
  }

  lemma {:induction false} SameSlla(ra: Advertisement, opts: seq<Opt>)
    ensures LastSlla(ra.slla, opts) == ApplyOpts(ra, opts).slla
    decreases |opts|
  {
    if opts != [] {
      ApplyOptScalars(ra, opts[0]);
      SameSlla(ApplyOpt(ra, opts[0]), opts[1..]);
    }
  }

  /** What an accepted solicitation says: its last link-layer address, if it has one. */
  lemma {:induction false} SolicitationSays(b: seq<byte>)
    requires ParseMessage(b).Ok? && b[0] == 133
    ensures |b| >= 8 && ParseOptions(b[8..]).Ok? && ParseMessage(b).value.Solicitation?
    ensures var (hw, opts) := (ParseMessage(b).value.slla, ParseOptions(b[8..]).value);
            && (forall k: nat :: IsLastOf(opts, 1, -1, k) ==> hw == opts[k].body)
            && (NoneCounts(opts, 1, -1) ==> hw == [])
  {
    assert b[4..][4..] == b[8..];
    var none := Advertisement(0, false, false, 0, 0, 0, 0, [], 0, [], []);
    SameSlla(none, ParseOptions(b[8..]).value);
    LastOptionWins(none, ParseOptions(b[8..]).value);
  }

  /** What an accepted advertisement says: its fixed fields, and of its options the accepted prefixes and routes in
      order, the last link-layer address and the last MTU. */
  lemma {:induction false} AdvertisementSays(b: seq<byte>)
    requires ParseMessage(b).Ok? && b[0] == 134
    ensures |b| >= 16 && ParseOptions(b[16..]).Ok? && ParseMessage(b).value.RouterAdvertisement?
    ensures var (ra, opts) := (ParseMessage(b).value.ra, ParseOptions(b[16..]).value);
            && ra.hopLimit == b[4] && ra.managed == (b[5] / 128 == 1) && ra.other == (b[5] / 64 % 2 == 1)
            && ra.preference == (if b[5] / 8 % 4 == 1 then 1 else if b[5] / 8 % 4 == 3 then -1 else 0)
            && ra.lifetime == Value(b[6..8]) * 1_000_000_000
            && ra.reachable == Value(b[8..12]) * 1_000_000 && ra.retransmit == Value(b[12..16]) * 1_000_000
            && ra.prefixes == PrefixesIn(opts) && ra.routes == RoutesIn(opts)
    ensures var (ra, opts) := (ParseMessage(b).value.ra, ParseOptions(b[16..]).value);
            && (forall k: nat :: IsLastOf(opts, 1, -1, k) ==> ra.slla == opts[k].body)
            && (forall k: nat :: IsLastOf(opts, 5, 6, k) ==> ra.mtu == Value(opts[k].body[2..]))
            && (NoneCounts(opts, 1, -1) ==> ra.slla == [])
            && (NoneCounts(opts, 5, 6) ==> ra.mtu == 0)
  {
    var c := b[4..];
    assert c[12..] == b[16..];
    var opts := ParseOptions(b[16..]).value;
    HeaderSays(b);
    OptionsGive(ParseHeader(c), opts);
    LastOptionWins(ParseHeader(c), opts);
    assert [] + PrefixesIn(opts) == PrefixesIn(opts) && [] + RoutesIn(opts) == RoutesIn(opts);
  }

  lemma {:induction false} HeaderSays(b: seq<byte>)
    requires |b| >= 16
    ensures var h := ParseHeader(b[4..]);
            && h.hopLimit == b[4] && h.managed == (b[5] / 128 == 1) && h.other == (b[5] / 64 % 2 == 1)
            && h.preference == (if b[5] / 8 % 4 == 1 then 1 else if b[5] / 8 % 4 == 3 then -1 else 0)
            && h.lifetime == Value(b[6..8]) * 1_000_000_000
            && h.reachable == Value(b[8..12]) * 1_000_000 && h.retransmit == Value(b[12..16]) * 1_000_000
            && h.slla == [] && h.mtu == 0 && h.prefixes == [] && h.routes == []
  {
    var c := b[4..];
    assert c[2..4] == b[6..8] && c[4..8] == b[8..12] && c[8..12] == b[12..16];
    FromU16IsValue(b[6..8]);
    FromU32IsValue(b[8..12]);
    FromU32IsValue(b[12..16]);
  }
}
