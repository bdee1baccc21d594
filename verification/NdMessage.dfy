/**
 Neighbor Discovery messages: Router Solicitations and Router Advertisements with their
 options (RFC 4861 sections 4.1, 4.2 and 4.6, RFC 4191 sections 2.2 and 2.3), to and
 from the ICMPv6 bytes that carry them.
 */
module NdMessage {
  import opened Results
  import opened Bytes
  import opened Sequences

  const TYPE_RS: byte := 133
  const TYPE_RA: byte := 134

  const OPT_SLLA: byte := 1
  const OPT_PREFIX: byte := 3
  const OPT_MTU: byte := 5
  const OPT_ROUTE: byte := 24

  /** Nanoseconds in a signed 64-bit integer. */
  type Duration = d: int | -0x8000_0000_0000_0000 <= d < 0x8000_0000_0000_0000

  const SECOND: int := 1_000_000_000
  const MILLISECOND: int := 1_000_000

  type PrefixLen = n: int | 0 <= n <= 128

  type uint32 = n: int | 0 <= n < UINT32

  /** An IPv6 prefix, or one that is invalid or not IPv6. */
  datatype NetPrefix = V6(addr: Addr16, bits: PrefixLen) | OtherPrefix

  datatype PrefixInformation =
    PrefixInformation(prefix: NetPrefix, onLink: bool, autonomous: bool, valid: Duration, preferred: Duration)

  datatype RouteInformation = RouteInformation(prefix: NetPrefix, preference: int, lifetime: Duration)

  datatype Advertisement = Advertisement(
    hopLimit: byte, managed: bool, other: bool, preference: int,
    lifetime: Duration, reachable: Duration, retransmit: Duration,
    slla: seq<byte>, mtu: uint32,
    prefixes: seq<PrefixInformation>, routes: seq<RouteInformation>)

  datatype Message = Solicitation(slla: seq<byte>) | RouterAdvertisement(ra: Advertisement)

  function SllaOf(m: Message): seq<byte> {
    if m.Solicitation? then m.slla else m.ra.slla
  }

  predicate Advertisable(p: NetPrefix) {
    p.V6? && !Is4In6(p.addr)
  }

  // Scalar codecs.

  predicate FitsUnits(d: Duration, unit: int, limit: int)
    requires unit > 0
  {
    d >= 0 && d / unit < limit
  }

  predicate KnownPreference(p: int) {
    -1 <= p <= 1
  }

  function EncodePreference(p: int): (bits: nat)
    requires KnownPreference(p)
    ensures bits < 4 && bits != 2
  {
    if p == 1 then 1 else if p == 0 then 0 else 3
  }

  function DecodePreference(bits: nat): (p: int)
    ensures KnownPreference(p)
  {
    if bits % 4 == 1 then 1 else if bits % 4 == 3 then -1 else 0
  }

  // Options.

  /** An option without its length byte, which the body implies. */
  datatype Opt = Opt(typ: byte, body: seq<byte>)

  /** The option fits whole 8-byte units, from 1 to 255 of them. */
  predicate WellFormed(o: Opt) {
    6 <= |o.body| <= 2038 && (|o.body| + 2) % 8 == 0
  }

  function OptBytes(o: Opt): seq<byte>
    requires WellFormed(o)
  {
    [o.typ, (|o.body| + 2) / 8] + o.body
  }

  predicate AllWellFormed(opts: seq<Opt>) {
    forall i :: 0 <= i < |opts| ==> WellFormed(opts[i])
  }

  function Concat(opts: seq<Opt>): seq<byte>
    requires AllWellFormed(opts)
  {
    if opts == [] then [] else OptBytes(opts[0]) + Concat(opts[1..])
  }

  function ParseOptions(b: seq<byte>): Result<seq<Opt>>
    decreases |b|
  {
    if |b| == 0 then Ok([])
    else if |b| < 2 then Err
    else
      var n := b[1] as int * 8;
      if n == 0 || n > |b| then Err
      else match ParseOptions(b[n..])
        case Err => Err
        case Ok(rest) => Ok([Opt(b[0], b[2..n])] + rest)
  }

  function Behind(opts: seq<Opt>, r: Result<seq<Opt>>): Result<seq<Opt>> {
    if r.Err? then Err else Ok(opts + r.value)
  }

  /** parseOptions's loop. */
  method ParseOptionsLoop(b0: seq<byte>) returns (r: Result<seq<Opt>>)
    ensures r == ParseOptions(b0)
  {
    var b := b0;
    var opts: seq<Opt> := [];
    assert ParseOptions(b0) == Behind(opts, ParseOptions(b)) by {
      assert ParseOptions(b0).Ok? ==> [] + ParseOptions(b0).value == ParseOptions(b0).value;
    }
    while |b| > 0
      invariant ParseOptions(b0) == Behind(opts, ParseOptions(b))
      decreases |b|
    {
      if |b| < 2 {
        return Err;
      }
      var n := b[1] as int * 8;
      if n == 0 {
        return Err;
      }
      if n > |b| {
        return Err;
      }
      ghost var before := opts;
      opts := opts + [Opt(b[0], b[2..n])];
      ghost var rest := ParseOptions(b[n..]);
      if rest.Ok? {
        assert before + ([Opt(b[0], b[2..n])] + rest.value) == opts + rest.value;
      }
      b := b[n..];
    }
    assert opts + [] == opts;
    return Ok(opts);
  }

  lemma {:induction false} ParsedConcatenate(b: seq<byte>)
    requires ParseOptions(b).Ok?
    ensures AllWellFormed(ParseOptions(b).value) && Concat(ParseOptions(b).value) == b
    decreases |b|
  {
    if |b| > 0 {
      var n := b[1] as int * 8;
      ParsedConcatenate(b[n..]);
      ConcatFirst(b, n, ParseOptions(b[n..]).value);
    }
  }

  lemma {:induction false} ConcatFirst(b: seq<byte>, n: nat, rest: seq<Opt>)
    requires 2 <= n <= |b| && n == b[1] as int * 8
    requires AllWellFormed(rest) && Concat(rest) == b[n..]
    ensures AllWellFormed([Opt(b[0], b[2..n])] + rest) && Concat([Opt(b[0], b[2..n])] + rest) == b
  {
    OptBytesAt(b, n);
    ConcatCons(Opt(b[0], b[2..n]), rest);
    assert b == b[..n] + b[n..];
  }

  lemma {:induction false} ConcatCons(o: Opt, opts: seq<Opt>)
    requires WellFormed(o) && AllWellFormed(opts)
    ensures AllWellFormed([o] + opts) && Concat([o] + opts) == OptBytes(o) + Concat(opts)
  {
    assert ([o] + opts)[1..] == opts;
  }

  lemma {:induction false} FirstOptBytes(o: Opt, rest: seq<byte>)
    requires WellFormed(o)
    ensures var (b, n) := (OptBytes(o) + rest, |o.body| + 2);
            && 2 <= n <= |b| && b[0] == o.typ && b[1] as int * 8 == n
            && b[2..n] == o.body && b[n..] == rest
  {
  }

  lemma {:induction false} ConcatenatedParse(opts: seq<Opt>)
    requires AllWellFormed(opts)
    ensures ParseOptions(Concat(opts)) == Ok(opts)
  {
    if opts != [] {
      FirstOptBytes(opts[0], Concat(opts[1..]));
      ConcatenatedParse(opts[1..]);
      assert opts == [opts[0]] + opts[1..];
    }
  }

  /** The options of a byte string are the one way, if there is one, to write it as a concatenation
      of options of 1 to 255 whole units. */
  lemma {:induction false} OptionsExact(b: seq<byte>, opts: seq<Opt>)
    ensures ParseOptions(b) == Ok(opts) <==> AllWellFormed(opts) && Concat(opts) == b
  {
    if ParseOptions(b) == Ok(opts) {
      ParsedConcatenate(b);
    }
    if AllWellFormed(opts) {
      ConcatenatedParse(opts);
    }
  }

  lemma {:induction false} OptBytesAt(b: seq<byte>, n: nat)
    requires 2 <= n <= |b| && n == b[1] as int * 8
    ensures WellFormed(Opt(b[0], b[2..n])) && OptBytes(Opt(b[0], b[2..n])) == b[..n]
  {
    assert b[..n] == [b[0], b[1]] + b[2..n];
  }

  lemma {:induction false} ConcatAppends(xs: seq<Opt>, ys: seq<Opt>)
    requires AllWellFormed(xs) && AllWellFormed(ys)
    ensures AllWellFormed(xs + ys) && Concat(xs + ys) == Concat(xs) + Concat(ys)
  {
    if xs == [] {
      assert xs + ys == ys;
    } else {
      ConcatAppends(xs[1..], ys);
      assert (xs + ys)[0] == xs[0] && (xs + ys)[1..] == xs[1..] + ys;
      Regroup(OptBytes(xs[0]), Concat(xs[1..]), Concat(ys));
    }
  }

  // Marshalling.

  /** A link-layer address option; its length field is one byte, so more than 255 units wrap around. */
  function LinkLayerOption(hw: seq<byte>): seq<byte> {
    if hw == [] then []
    else
      var n := (|hw| + 9) / 8;
      [OPT_SLLA, n % 256] + hw + Zeros(n * 8 - 2 - |hw|)
  }

  function MtuOption(mtu: uint32): seq<byte> {
    if mtu == 0 then [] else [OPT_MTU, 1, 0, 0] + U32(mtu)
  }

  predicate PrefixOk(p: PrefixInformation) {
    Advertisable(p.prefix) && FitsUnits(p.valid, SECOND, UINT32) && FitsUnits(p.preferred, SECOND, UINT32)
  }

  function PrefixBody(p: PrefixInformation): (b: seq<byte>)
    requires PrefixOk(p)
    ensures |b| == 30
  {
    [p.prefix.bits, Flag(p.onLink, 128) + Flag(p.autonomous, 64)]
    + U32(p.valid / SECOND) + U32(p.preferred / SECOND) + [0, 0, 0, 0] + Masked(p.prefix.addr, p.prefix.bits)
  }

  predicate RouteOk(r: RouteInformation) {
    Advertisable(r.prefix) && FitsUnits(r.lifetime, SECOND, UINT32) && KnownPreference(r.preference)
  }

  /** How many prefix bytes a route option carries. */
  function RoutePrefixBytes(bits: PrefixLen): nat {
    if bits == 0 then 0 else if bits <= 64 then 8 else 16
  }

  function RouteBody(r: RouteInformation): (b: seq<byte>)
    requires RouteOk(r)
    ensures |b| == 6 + RoutePrefixBytes(r.prefix.bits)
  {
    [r.prefix.bits, EncodePreference(r.preference) * 8] + U32(r.lifetime / SECOND)
    + Masked(r.prefix.addr, r.prefix.bits)[..RoutePrefixBytes(r.prefix.bits)]
  }

  function PrefixesBytes(ps: seq<PrefixInformation>): Result<seq<byte>> {
    if ps == [] then Ok([])
    else if !PrefixOk(ps[0]) then Err
    else match PrefixesBytes(ps[1..])
      case Err => Err
      case Ok(rest) => Ok([OPT_PREFIX, 4] + PrefixBody(ps[0]) + rest)
  }

  function RoutesBytes(rs: seq<RouteInformation>): Result<seq<byte>> {
    if rs == [] then Ok([])
    else if !RouteOk(rs[0]) then Err
    else match RoutesBytes(rs[1..])
      case Err => Err
      case Ok(rest) =>
        Ok([OPT_ROUTE, 1 + RoutePrefixBytes(rs[0].prefix.bits) / 8] + RouteBody(rs[0]) + rest)
  }

  predicate HeaderOk(ra: Advertisement) {
    && FitsUnits(ra.lifetime, SECOND, UINT16)
    && FitsUnits(ra.reachable, MILLISECOND, UINT32)
    && FitsUnits(ra.retransmit, MILLISECOND, UINT32)
    && KnownPreference(ra.preference)
  }

  function HeaderBytes(ra: Advertisement): (b: seq<byte>)
    requires HeaderOk(ra)
    ensures |b| == 12
  {
    [ra.hopLimit, Flag(ra.managed, 128) + Flag(ra.other, 64) + EncodePreference(ra.preference) * 8]
    + U16(ra.lifetime / SECOND) + U32(ra.reachable / MILLISECOND) + U32(ra.retransmit / MILLISECOND)
  }

  function AdvertisementBody(ra: Advertisement): Result<seq<byte>> {
    if !HeaderOk(ra) then Err
    else match (PrefixesBytes(ra.prefixes), RoutesBytes(ra.routes))
      case (Ok(ps), Ok(rs)) => Ok(HeaderBytes(ra) + LinkLayerOption(ra.slla) + MtuOption(ra.mtu) + ps + rs)
      case _ => Err
  }

  /** An ICMPv6 message with its checksum field zero. */
  function MarshalMessage(m: Message): Result<seq<byte>> {
    match m
    case Solicitation(hw) => Ok([TYPE_RS, 0, 0, 0] + Zeros(4) + LinkLayerOption(hw))
    case RouterAdvertisement(ra) =>
      match AdvertisementBody(ra)
      case Err => Err
      case Ok(body) => Ok([TYPE_RA, 0, 0, 0] + body)
  }

  // Parsing.

  function ParsePrefixInformation(body: seq<byte>): Option<PrefixInformation> {
    if |body| != 30 || body[0] > 128 then None
    else Some(PrefixInformation(V6(Masked(body[14..30], body[0]), body[0]),
                                body[1] >= 128, body[1] / 64 % 2 == 1,
                                FromU32(body[2..6]) * SECOND, FromU32(body[6..10]) * SECOND))
  }

  function ParseRouteInformation(body: seq<byte>): Option<RouteInformation> {
    if |body| < 6 then None
    else
      var bits := body[0];
      var carried := |body| - 6;
      if bits > 128 || bits as int > carried * 8 || carried > 16 then None
      else if body[1] / 8 % 4 == 2 then None
      else
        var raw := body[6..] + Zeros(16 - carried);
        Some(RouteInformation(V6(Masked(raw, bits), bits), DecodePreference(body[1] / 8), FromU32(body[2..6]) * SECOND))
  }

  /** One step of the option loop of parseRouterAdvertisement; unknown and malformed options are skipped. */
  function ApplyOpt(ra: Advertisement, o: Opt): Advertisement {
    if o.typ == OPT_SLLA then ra.(slla := o.body)
    else if o.typ == OPT_MTU then
      if |o.body| == 6 then ra.(mtu := FromU32(o.body[2..6])) else ra
    else if o.typ == OPT_PREFIX then
      match ParsePrefixInformation(o.body)
      case None => ra
      case Some(p) => ra.(prefixes := ra.prefixes + [p])
    else if o.typ == OPT_ROUTE then
      match ParseRouteInformation(o.body)
      case None => ra
      case Some(r) => ra.(routes := ra.routes + [r])
    else ra
  }

  function ApplyOpts(ra: Advertisement, opts: seq<Opt>): Advertisement
    decreases |opts|
  {
    if opts == [] then ra else ApplyOpts(ApplyOpt(ra, opts[0]), opts[1..])
  }

  function ParseHeader(b: seq<byte>): Advertisement
    requires |b| >= 12
  {
    Advertisement(b[0], b[1] >= 128, b[1] / 64 % 2 == 1, DecodePreference(b[1] / 8),
                  FromU16(b[2..4]) * SECOND, FromU32(b[4..8]) * MILLISECOND, FromU32(b[8..12]) * MILLISECOND,
                  [], 0, [], [])
  }

  function ParseAdvertisement(b: seq<byte>): Result<Advertisement> {
    if |b| < 12 then Err
    else match ParseOptions(b[12..])
      case Err => Err
      case Ok(opts) => Ok(ApplyOpts(ParseHeader(b), opts))
  }

  /** The last source link-layer address option wins. */
  function LastSlla(current: seq<byte>, opts: seq<Opt>): seq<byte>
    decreases |opts|
  {
    if opts == [] then current
    else LastSlla(if opts[0].typ == OPT_SLLA then opts[0].body else current, opts[1..])
  }

  function ParseSolicitation(b: seq<byte>): Result<seq<byte>> {
    if |b| < 4 then Err
    else match ParseOptions(b[4..])
      case Err => Err
      case Ok(opts) => Ok(LastSlla([], opts))
  }

  function ParseMessage(b: seq<byte>): Result<Message> {
    if |b| < 4 || b[1] != 0 then Err
    else if b[0] == TYPE_RS then
      match ParseSolicitation(b[4..])
      case Err => Err
      case Ok(hw) => Ok(Solicitation(hw))
    else if b[0] == TYPE_RA then
      match ParseAdvertisement(b[4..])
      case Err => Err
      case Ok(ra) => Ok(RouterAdvertisement(ra))
    else Err
  }

  // The loops of marshalBody and parseRouterAdvertisement.

  function Appended(b: seq<byte>, r: Result<seq<byte>>): Result<seq<byte>> {
    if r.Err? then Err else Ok(b + r.value)
  }

  lemma {:induction false} AppendedTwice(b: seq<byte>, x: seq<byte>, r: Result<seq<byte>>)
    ensures Appended(b + x, r) == Appended(b, Appended(x, r))
  {
    if r.Ok? {
      assert b + x + r.value == b + (x + r.value);
    }
  }

  method AppendPrefixes(b0: seq<byte>, ps: seq<PrefixInformation>) returns (r: Result<seq<byte>>)
    ensures r == Appended(b0, PrefixesBytes(ps))
  {
    var b: seq<byte> := b0;
    assert ps[0..] == ps;
    for i := 0 to |ps|
      invariant Appended(b, PrefixesBytes(ps[i..])) == Appended(b0, PrefixesBytes(ps))
    {
      assert ps[i..][1..] == ps[i + 1..];
      if !PrefixOk(ps[i]) {
        return Err;
      }
      AppendedTwice(b, [OPT_PREFIX, 4] + PrefixBody(ps[i]), PrefixesBytes(ps[i + 1..]));
      b := b + ([OPT_PREFIX, 4] + PrefixBody(ps[i]));
    }
    assert b + [] == b;
    return Ok(b);
  }

  method AppendRoutes(b0: seq<byte>, rs: seq<RouteInformation>) returns (r: Result<seq<byte>>)
    ensures r == Appended(b0, RoutesBytes(rs))
  {
    var b: seq<byte> := b0;
    assert rs[0..] == rs;
    for i := 0 to |rs|
      invariant Appended(b, RoutesBytes(rs[i..])) == Appended(b0, RoutesBytes(rs))
    {
      assert rs[i..][1..] == rs[i + 1..];
      if !RouteOk(rs[i]) {
        return Err;
      }
      var option: seq<byte> := [OPT_ROUTE, 1 + RoutePrefixBytes(rs[i].prefix.bits) / 8] + RouteBody(rs[i]);
      AppendedTwice(b, option, RoutesBytes(rs[i + 1..]));
      b := b + option;
    }
    assert b + [] == b;
    return Ok(b);
  }

  method MarshalAdvertisement(ra: Advertisement) returns (r: Result<seq<byte>>)
    ensures r == AdvertisementBody(ra)
  {
    if !HeaderOk(ra) {
      return Err;
    }
    r := AppendPrefixes(HeaderBytes(ra) + LinkLayerOption(ra.slla) + MtuOption(ra.mtu), ra.prefixes);
    if r.Ok? {
      r := AppendRoutes(r.value, ra.routes);
    }
  }

  method ParseAdvertisementLoop(b: seq<byte>) returns (r: Result<Advertisement>)
    ensures r == ParseAdvertisement(b)
  {
    if |b| < 12 {
      return Err;
    }
    var opts := ParseOptionsLoop(b[12..]);
    if opts.Err? {
      return Err;
    }
    var ra := ParseHeader(b);
    assert opts.value[0..] == opts.value;
    for i := 0 to |opts.value|
      invariant ApplyOpts(ra, opts.value[i..]) == ApplyOpts(ParseHeader(b), opts.value)
    {
      assert opts.value[i..][1..] == opts.value[i + 1..];
      ra := ApplyOpt(ra, opts.value[i]);
    }
    return Ok(ra);
  }
}
