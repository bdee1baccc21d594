/**
 Parsing undoes marshalling: what survives a trip over the wire, for which messages, and
 that parsing then marshalling loses nothing more.
 */
module NdRoundTrip {
  import opened Results
  import opened Bytes
  import opened NdMessage

  // What the wire keeps of a message.

  /** A link-layer address padded with zeros to the end of its last 8-byte unit. */
  function Padded(hw: seq<byte>): seq<byte> {
    if hw == [] then [] else hw + Zeros((|hw| + 9) / 8 * 8 - 2 - |hw|)
  }

  /** A duration in whole units. */
  function Truncated(d: Duration, unit: int): (t: Duration)
    requires unit > 0
  {
    if d < 0 then d else d / unit * unit
  }

  function MaskedPrefix(p: NetPrefix): NetPrefix {
    if p.V6? then V6(Masked(p.addr, p.bits), p.bits) else p
  }

  function NormalPrefix(p: PrefixInformation): PrefixInformation {
    p.(prefix := MaskedPrefix(p.prefix), valid := Truncated(p.valid, SECOND),
       preferred := Truncated(p.preferred, SECOND))
  }

  function NormalRoute(r: RouteInformation): RouteInformation {
    r.(prefix := MaskedPrefix(r.prefix), lifetime := Truncated(r.lifetime, SECOND))
  }

  function NormalPrefixes(ps: seq<PrefixInformation>): seq<PrefixInformation> {
    seq(|ps|, i requires 0 <= i < |ps| => NormalPrefix(ps[i]))
  }

  function NormalRoutes(rs: seq<RouteInformation>): seq<RouteInformation> {
    seq(|rs|, i requires 0 <= i < |rs| => NormalRoute(rs[i]))
  }

  function NormalAdvertisement(ra: Advertisement): Advertisement {
    ra.(lifetime := Truncated(ra.lifetime, SECOND), reachable := Truncated(ra.reachable, MILLISECOND),
        retransmit := Truncated(ra.retransmit, MILLISECOND), slla := Padded(ra.slla),
        prefixes := NormalPrefixes(ra.prefixes), routes := NormalRoutes(ra.routes))
  }

  function Normal(m: Message): Message {
    match m
    case Solicitation(hw) => Solicitation(Padded(hw))
    case RouterAdvertisement(ra) => RouterAdvertisement(NormalAdvertisement(ra))
  }

  /** The longest address whose option fits the one-byte length field. */
  const MAX_SLLA := 2038

  // The option lists behind the bytes.

  function HwOpts(hw: seq<byte>): (opts: seq<Opt>)
    requires |hw| <= MAX_SLLA
    ensures AllWellFormed(opts) && Concat(opts) == LinkLayerOption(hw)
  {
    if hw == [] then []
    else
      HwOptBytes(hw);
      OneOption(Opt(OPT_SLLA, Padded(hw)));
      [Opt(OPT_SLLA, Padded(hw))]
  }

  lemma {:induction false} HwOptBytes(hw: seq<byte>)
    requires 0 < |hw| <= MAX_SLLA
    ensures WellFormed(Opt(OPT_SLLA, Padded(hw))) && OptBytes(Opt(OPT_SLLA, Padded(hw))) == LinkLayerOption(hw)
  {
  }

  lemma {:induction false} OneOption(o: Opt)
    requires WellFormed(o)
    ensures Concat([o]) == OptBytes(o)
  {
    assert [o][1..] == [];
    assert OptBytes(o) + [] == OptBytes(o);
  }

  function MtuOpts(mtu: uint32): (opts: seq<Opt>)
    ensures AllWellFormed(opts) && Concat(opts) == MtuOption(mtu)
  {
    if mtu == 0 then []
    else
      var o := Opt(OPT_MTU, [0, 0] + U32(mtu));
      assert [o][1..] == [];
      assert Concat([o]) == OptBytes(o) + [] == OptBytes(o);
      [o]
  }

  predicate AllPrefixesOk(ps: seq<PrefixInformation>) {
    forall i :: 0 <= i < |ps| ==> PrefixOk(ps[i])
  }

  predicate AllRoutesOk(rs: seq<RouteInformation>) {
    forall i :: 0 <= i < |rs| ==> RouteOk(rs[i])
  }

  function PrefixOpts(ps: seq<PrefixInformation>): (opts: seq<Opt>)
    requires AllPrefixesOk(ps)
    ensures AllWellFormed(opts)
  {
    if ps == [] then [] else [Opt(OPT_PREFIX, PrefixBody(ps[0]))] + PrefixOpts(ps[1..])
  }

  function RouteOpts(rs: seq<RouteInformation>): (opts: seq<Opt>)
    requires AllRoutesOk(rs)
    ensures AllWellFormed(opts)
  {
    if rs == [] then [] else [Opt(OPT_ROUTE, RouteBody(rs[0]))] + RouteOpts(rs[1..])
  }

  lemma {:induction false} PrefixesAreOptions(ps: seq<PrefixInformation>)
    ensures PrefixesBytes(ps).Ok? <==> AllPrefixesOk(ps)
    ensures AllPrefixesOk(ps) ==> PrefixesBytes(ps).value == Concat(PrefixOpts(ps))
  {
    if ps != [] {
      PrefixesAreOptions(ps[1..]);
      if AllPrefixesOk(ps) {
        ConcatCons(Opt(OPT_PREFIX, PrefixBody(ps[0])), PrefixOpts(ps[1..]));
      }
    }
  }

  lemma {:induction false} RoutesAreOptions(rs: seq<RouteInformation>)
    ensures RoutesBytes(rs).Ok? <==> AllRoutesOk(rs)
    ensures AllRoutesOk(rs) ==> RoutesBytes(rs).value == Concat(RouteOpts(rs))
  {
    if rs != [] {
      RoutesAreOptions(rs[1..]);
      if AllRoutesOk(rs) {
        var o := Opt(OPT_ROUTE, RouteBody(rs[0]));
        ConcatCons(o, RouteOpts(rs[1..]));
        assert OptBytes(o) == [OPT_ROUTE, 1 + RoutePrefixBytes(rs[0].prefix.bits) / 8] + RouteBody(rs[0]);
      }
    }
  }

  // Each option, back and forth.

  lemma {:induction false} PrefixRoundTrip(p: PrefixInformation)
    requires PrefixOk(p)
    ensures ParsePrefixInformation(PrefixBody(p)) == Some(NormalPrefix(p))
  {
    var b := PrefixBody(p);
    assert b[2..6] == U32(p.valid / SECOND);
    assert b[6..10] == U32(p.preferred / SECOND);
    assert b[14..30] == Masked(p.prefix.addr, p.prefix.bits);
    U32RoundTrip(p.valid / SECOND);
    U32RoundTrip(p.preferred / SECOND);
    MaskIdempotent(p.prefix.addr, p.prefix.bits);
  }

  /** The prefix bytes a route option leaves out are the zeros the mask leaves. */
  lemma {:induction false} RouteRaw(addr: Addr16, bits: PrefixLen)
    ensures var k := RoutePrefixBytes(bits);
            Masked(addr, bits)[..k] + Zeros(16 - k) == Masked(addr, bits)
  {
  }

  lemma {:induction false} RoutePreferenceRoundTrip(p: int)
    requires KnownPreference(p)
    ensures EncodePreference(p) * 8 / 8 % 4 != 2 && DecodePreference(EncodePreference(p) * 8 / 8) == p
  {
  }

  lemma {:induction false} RouteRoundTrip(r: RouteInformation)
    requires RouteOk(r)
    ensures ParseRouteInformation(RouteBody(r)) == Some(NormalRoute(r))
  {
    var b := RouteBody(r);
    var k := RoutePrefixBytes(r.prefix.bits);
    assert b[0] == r.prefix.bits && b[1] == EncodePreference(r.preference) * 8;
    assert b[2..6] == U32(r.lifetime / SECOND);
    assert b[6..] == Masked(r.prefix.addr, r.prefix.bits)[..k];
    RouteRaw(r.prefix.addr, r.prefix.bits);
    RoutePreferenceRoundTrip(r.preference);
    U32RoundTrip(r.lifetime / SECOND);
    MaskIdempotent(r.prefix.addr, r.prefix.bits);
  }

  lemma {:induction false} HeaderRoundTrip(ra: Advertisement, rest: seq<byte>)
    requires HeaderOk(ra)
    ensures ParseHeader(HeaderBytes(ra) + rest)
         == NormalAdvertisement(ra).(slla := [], mtu := 0, prefixes := [], routes := [])
  {
    var b := HeaderBytes(ra) + rest;
    assert b[2..4] == U16(ra.lifetime / SECOND);
    assert b[4..8] == U32(ra.reachable / MILLISECOND);
    assert b[8..12] == U32(ra.retransmit / MILLISECOND);
    U16RoundTrip(ra.lifetime / SECOND);
    U32RoundTrip(ra.reachable / MILLISECOND);
    U32RoundTrip(ra.retransmit / MILLISECOND);
  }

  // The option loop.

  lemma {:induction false} ApplyOptsAppends(ra: Advertisement, xs: seq<Opt>, ys: seq<Opt>)
    ensures ApplyOpts(ra, xs + ys) == ApplyOpts(ApplyOpts(ra, xs), ys)
    decreases |xs|
  {
    if xs == [] {
      assert xs + ys == ys;
    } else {
      ApplyOptsAppends(ApplyOpt(ra, xs[0]), xs[1..], ys);
      assert (xs + ys)[1..] == xs[1..] + ys;
    }
  }

  lemma {:induction false} ApplyPrefix(ra: Advertisement, p: PrefixInformation)
    requires PrefixOk(p)
    ensures ApplyOpt(ra, Opt(OPT_PREFIX, PrefixBody(p))) == ra.(prefixes := ra.prefixes + [NormalPrefix(p)])
  {
    PrefixRoundTrip(p);
  }

  lemma {:induction false} ApplyRoute(ra: Advertisement, r: RouteInformation)
    requires RouteOk(r)
    ensures ApplyOpt(ra, Opt(OPT_ROUTE, RouteBody(r))) == ra.(routes := ra.routes + [NormalRoute(r)])
  {
    RouteRoundTrip(r);
  }

  lemma {:induction false} ApplyOptsCons(ra: Advertisement, o: Opt, opts: seq<Opt>)
    ensures ApplyOpts(ra, [o] + opts) == ApplyOpts(ApplyOpt(ra, o), opts)
  {
    assert ([o] + opts)[1..] == opts;
  }

  lemma {:induction false} NormalPrefixesCons(done: seq<PrefixInformation>, ps: seq<PrefixInformation>)
    requires ps != []
    ensures done + [NormalPrefix(ps[0])] + NormalPrefixes(ps[1..]) == done + NormalPrefixes(ps)
  {
  }

  lemma {:induction false} NormalRoutesCons(done: seq<RouteInformation>, rs: seq<RouteInformation>)
    requires rs != []
    ensures done + [NormalRoute(rs[0])] + NormalRoutes(rs[1..]) == done + NormalRoutes(rs)
  {
  }

  lemma {:induction false} ApplyPrefixes(ra: Advertisement, ps: seq<PrefixInformation>)
    requires AllPrefixesOk(ps)
    ensures ApplyOpts(ra, PrefixOpts(ps)) == ra.(prefixes := ra.prefixes + NormalPrefixes(ps))
    decreases |ps|
  {
    if ps == [] {
      assert ra.prefixes + NormalPrefixes(ps) == ra.prefixes;
    } else {
      var next := ra.(prefixes := ra.prefixes + [NormalPrefix(ps[0])]);
      ApplyPrefix(ra, ps[0]);
      ApplyOptsCons(ra, Opt(OPT_PREFIX, PrefixBody(ps[0])), PrefixOpts(ps[1..]));
      ApplyPrefixes(next, ps[1..]);
      NormalPrefixesCons(ra.prefixes, ps);
    }
  }

  lemma {:induction false} ApplyRoutes(ra: Advertisement, rs: seq<RouteInformation>)
    requires AllRoutesOk(rs)
    ensures ApplyOpts(ra, RouteOpts(rs)) == ra.(routes := ra.routes + NormalRoutes(rs))
    decreases |rs|
  {
    if rs == [] {
      assert ra.routes + NormalRoutes(rs) == ra.routes;
    } else {
      var next := ra.(routes := ra.routes + [NormalRoute(rs[0])]);
      ApplyRoute(ra, rs[0]);
      ApplyOptsCons(ra, Opt(OPT_ROUTE, RouteBody(rs[0])), RouteOpts(rs[1..]));
      ApplyRoutes(next, rs[1..]);
      NormalRoutesCons(ra.routes, rs);
    }
  }

  lemma {:induction false} ApplyScalars(ra: Advertisement, hw: seq<byte>, mtu: uint32)
    requires |hw| <= MAX_SLLA && ra.slla == [] && ra.mtu == 0
    ensures ApplyOpts(ra, HwOpts(hw) + MtuOpts(mtu)) == ra.(slla := Padded(hw), mtu := mtu)
  {
    ApplyOptsAppends(ra, HwOpts(hw), MtuOpts(mtu));
    assert ApplyOpts(ra, HwOpts(hw)) == ra.(slla := Padded(hw));
    if mtu != 0 {
      var body := [0, 0] + U32(mtu);
      assert body[2..6] == U32(mtu);
      U32RoundTrip(mtu);
    }
  }

  function AllOpts(ra: Advertisement): seq<Opt>
    requires |ra.slla| <= MAX_SLLA && AllPrefixesOk(ra.prefixes) && AllRoutesOk(ra.routes)
  {
    HwOpts(ra.slla) + MtuOpts(ra.mtu) + PrefixOpts(ra.prefixes) + RouteOpts(ra.routes)
  }

  lemma {:induction false} AllOptsBytes(ra: Advertisement)
    requires AdvertisementBody(ra).Ok? && |ra.slla| <= MAX_SLLA
    ensures AllPrefixesOk(ra.prefixes) && AllRoutesOk(ra.routes)
    ensures AllWellFormed(AllOpts(ra)) && AdvertisementBody(ra).value == HeaderBytes(ra) + Concat(AllOpts(ra))
  {
    PrefixesAreOptions(ra.prefixes);
    RoutesAreOptions(ra.routes);
    var (h, m, p, r) := (HwOpts(ra.slla), MtuOpts(ra.mtu), PrefixOpts(ra.prefixes), RouteOpts(ra.routes));
    ConcatAppends(h, m);
    ConcatAppends(h + m, p);
    ConcatAppends(h + m + p, r);
    BehindHeader(HeaderBytes(ra), LinkLayerOption(ra.slla), MtuOption(ra.mtu), Concat(p), Concat(r));
  }

  lemma {:induction false} BehindHeader(a: seq<byte>, b: seq<byte>, c: seq<byte>, d: seq<byte>, e: seq<byte>)
    ensures a + b + c + d + e == a + (b + c + d + e)
  {
  }

  lemma {:induction false} ApplyAllOpts(ra: Advertisement, start: Advertisement)
    requires |ra.slla| <= MAX_SLLA && AllPrefixesOk(ra.prefixes) && AllRoutesOk(ra.routes)
    requires start == NormalAdvertisement(ra).(slla := [], mtu := 0, prefixes := [], routes := [])
    ensures ApplyOpts(start, AllOpts(ra)) == NormalAdvertisement(ra)
  {
    var (h, m, p, r) := (HwOpts(ra.slla), MtuOpts(ra.mtu), PrefixOpts(ra.prefixes), RouteOpts(ra.routes));
    ApplyScalars(start, ra.slla, ra.mtu);
    ApplyOptsAppends(start, h + m, p);
    var s1 := start.(slla := Padded(ra.slla), mtu := ra.mtu);
    ApplyPrefixes(s1, ra.prefixes);
    ApplyOptsAppends(start, h + m + p, r);
    var s2 := s1.(prefixes := [] + NormalPrefixes(ra.prefixes));
    ApplyRoutes(s2, ra.routes);
    assert [] + NormalPrefixes(ra.prefixes) == NormalPrefixes(ra.prefixes);
    assert [] + NormalRoutes(ra.routes) == NormalRoutes(ra.routes);
  }

  lemma {:induction false} AdvertisementRoundTrip(ra: Advertisement)
    requires AdvertisementBody(ra).Ok? && |ra.slla| <= MAX_SLLA
    ensures ParseAdvertisement(AdvertisementBody(ra).value) == Ok(NormalAdvertisement(ra))
  {
    var b := AdvertisementBody(ra).value;
    AllOptsBytes(ra);
    var opts := AllOpts(ra);
    assert b[12..] == Concat(opts);
    OptionsExact(b[12..], opts);
    HeaderRoundTrip(ra, Concat(opts));
    ApplyAllOpts(ra, ParseHeader(b));
  }

  lemma {:induction false} SolicitationRoundTrip(hw: seq<byte>)
    requires |hw| <= MAX_SLLA
    ensures ParseSolicitation(Zeros(4) + LinkLayerOption(hw)) == Ok(Padded(hw))
  {
    var b := Zeros(4) + LinkLayerOption(hw);
    assert b[4..] == LinkLayerOption(hw);
    OptionsExact(b[4..], HwOpts(hw));
    if hw != [] {
      assert HwOpts(hw)[1..] == [];
      assert LastSlla([], HwOpts(hw)) == LastSlla(Padded(hw), []);
    }
  }

  // Link-layer addresses too long for their option.

  lemma {:induction false} ParsedSllaBound(ra: Advertisement, opts: seq<Opt>)
    requires AllWellFormed(opts) && |ra.slla| <= MAX_SLLA
    ensures |ApplyOpts(ra, opts).slla| <= MAX_SLLA
    ensures |LastSlla(ra.slla, opts)| <= MAX_SLLA
    decreases |opts|
  {
    if opts != [] {
      ParsedSllaBound(ApplyOpt(ra, opts[0]), opts[1..]);
    }
  }

  lemma {:induction false} ParsedSllaFits(b: seq<byte>)
    requires ParseMessage(b).Ok?
    ensures |SllaOf(ParseMessage(b).value)| <= MAX_SLLA
  {
    var blank := Advertisement(0, false, false, 0, 0, 0, 0, [], 0, [], []);
    if b[0] == TYPE_RS {
      var opts := ParseOptions(b[4..][4..]).value;
      OptionsExact(b[4..][4..], opts);
      ParsedSllaBound(blank, opts);
    } else {
      var opts := ParseOptions(b[4..][12..]).value;
      OptionsExact(b[4..][12..], opts);
      ParsedSllaBound(ParseHeader(b[4..]), opts);
    }
  }

  /** Parsing a marshalled message gives it back with prefixes masked, lifetimes in whole units and
      the link-layer address padded, if and only if that address fits its option. */
  lemma {:induction false} MessageRoundTrip(m: Message)
    requires MarshalMessage(m).Ok?
    ensures ParseMessage(MarshalMessage(m).value) == Ok(Normal(m)) <==> |SllaOf(m)| <= MAX_SLLA
  {
    if |SllaOf(m)| <= MAX_SLLA {
      ShortMessageRoundTrip(m);
    } else {
      LongMessageFails(m);
    }
  }

  lemma {:induction false} ShortMessageRoundTrip(m: Message)
    requires MarshalMessage(m).Ok? && |SllaOf(m)| <= MAX_SLLA
    ensures ParseMessage(MarshalMessage(m).value) == Ok(Normal(m))
  {
    var b := MarshalMessage(m).value;
    match m
    case Solicitation(hw) =>
      SolicitationRoundTrip(hw);
      assert b[4..] == Zeros(4) + LinkLayerOption(hw);
    case RouterAdvertisement(ra) =>
      AdvertisementRoundTrip(ra);
      assert b[4..] == AdvertisementBody(ra).value;
  }

  /** No parsed message carries an address longer than an option can. */
  lemma {:induction false} LongMessageFails(m: Message)
    requires MarshalMessage(m).Ok? && |SllaOf(m)| > MAX_SLLA
    ensures forall b :: ParseMessage(b) != Ok(Normal(m))
  {
    forall b ensures ParseMessage(b) != Ok(Normal(m)) {
      if ParseMessage(b).Ok? {
        ParsedSllaFits(b);
      }
      assert |SllaOf(Normal(m))| >= |SllaOf(m)|;
    }
  }

  // Parsing, then marshalling.

  predicate CleanPrefix(p: PrefixInformation) {
    && p.prefix.V6? && NormalPrefix(p) == p
    && FitsUnits(p.valid, SECOND, UINT32) && FitsUnits(p.preferred, SECOND, UINT32)
  }

  predicate CleanRoute(r: RouteInformation) {
    && r.prefix.V6? && NormalRoute(r) == r
    && FitsUnits(r.lifetime, SECOND, UINT32) && KnownPreference(r.preference)
  }

  /** Everything in the advertisement survives the wire as it is. */
  predicate Clean(ra: Advertisement) {
    && HeaderOk(ra) && Padded(ra.slla) == ra.slla && |ra.slla| <= MAX_SLLA
    && Truncated(ra.lifetime, SECOND) == ra.lifetime
    && Truncated(ra.reachable, MILLISECOND) == ra.reachable
    && Truncated(ra.retransmit, MILLISECOND) == ra.retransmit
    && (forall i :: 0 <= i < |ra.prefixes| ==> CleanPrefix(ra.prefixes[i]))
    && (forall i :: 0 <= i < |ra.routes| ==> CleanRoute(ra.routes[i]))
  }

  /** A whole number of units is not truncated. */
  lemma {:induction false} WholeUnits(d: Duration, n: nat, unit: int, limit: int)
    requires unit > 0 && n < limit && d == n * unit
    ensures FitsUnits(d, unit, limit) && Truncated(d, unit) == d
  {
    MulMonotone(0, n, unit);
    DivModUnique(d, unit, n, 0);
  }

  lemma {:induction false} ParsedPrefixIsClean(body: seq<byte>)
    ensures var p := ParsePrefixInformation(body); p.Some? ==> CleanPrefix(p.value)
  {
    if |body| == 30 && body[0] <= 128 {
      MaskIdempotent(body[14..30], body[0]);
      WholeUnits(FromU32(body[2..6]) * SECOND, FromU32(body[2..6]), SECOND, UINT32);
      WholeUnits(FromU32(body[6..10]) * SECOND, FromU32(body[6..10]), SECOND, UINT32);
    }
  }

  lemma {:induction false} ParsedRouteIsClean(body: seq<byte>)
    ensures var r := ParseRouteInformation(body); r.Some? ==> CleanRoute(r.value)
  {
    if ParseRouteInformation(body).Some? {
      MaskIdempotent(body[6..] + Zeros(16 - (|body| - 6)), body[0]);
      WholeUnits(FromU32(body[2..6]) * SECOND, FromU32(body[2..6]), SECOND, UINT32);
    }
  }

  lemma {:induction false} ApplyOptKeepsClean(ra: Advertisement, o: Opt)
    requires Clean(ra) && WellFormed(o)
    ensures Clean(ApplyOpt(ra, o))
  {
    if o.typ == OPT_SLLA {
      assert Padded(o.body) == o.body + [] == o.body;
    } else if o.typ == OPT_PREFIX {
      ParsedPrefixIsClean(o.body);
    } else if o.typ == OPT_ROUTE {
      ParsedRouteIsClean(o.body);
    }
  }

  lemma {:induction false} ApplyOptsKeepsClean(ra: Advertisement, opts: seq<Opt>)
    requires Clean(ra) && AllWellFormed(opts)
    ensures Clean(ApplyOpts(ra, opts))
    decreases |opts|
  {
    if opts != [] {
      ApplyOptKeepsClean(ra, opts[0]);
      ApplyOptsKeepsClean(ApplyOpt(ra, opts[0]), opts[1..]);
    }
  }

  lemma {:induction false} ParsedHeaderIsClean(b: seq<byte>)
    requires |b| >= 12
    ensures Clean(ParseHeader(b))
  {
    WholeUnits(FromU16(b[2..4]) * SECOND, FromU16(b[2..4]), SECOND, UINT16);
    WholeUnits(FromU32(b[4..8]) * MILLISECOND, FromU32(b[4..8]), MILLISECOND, UINT32);
    WholeUnits(FromU32(b[8..12]) * MILLISECOND, FromU32(b[8..12]), MILLISECOND, UINT32);
  }

  lemma {:induction false} CleanIsNormal(ra: Advertisement)
    requires Clean(ra)
    ensures NormalAdvertisement(ra) == ra
  {
    assert NormalPrefixes(ra.prefixes) == ra.prefixes;
    assert NormalRoutes(ra.routes) == ra.routes;
  }

  /** No prefix or route of the message is IPv4-mapped. */
  predicate NoMapped(m: Message) {
    m.RouterAdvertisement? ==>
      && (forall i :: 0 <= i < |m.ra.prefixes| ==> Advertisable(m.ra.prefixes[i].prefix))
      && (forall i :: 0 <= i < |m.ra.routes| ==> Advertisable(m.ra.routes[i].prefix))
  }

  lemma {:induction false} CleanMarshals(ra: Advertisement)
    requires Clean(ra)
    ensures AdvertisementBody(ra).Ok? <==> NoMapped(RouterAdvertisement(ra))
  {
    PrefixesAreOptions(ra.prefixes);
    RoutesAreOptions(ra.routes);
    assert AllPrefixesOk(ra.prefixes) <==>
        forall i :: 0 <= i < |ra.prefixes| ==> Advertisable(ra.prefixes[i].prefix);
    assert AllRoutesOk(ra.routes) <==>
        forall i :: 0 <= i < |ra.routes| ==> Advertisable(ra.routes[i].prefix);
  }

  lemma {:induction false} ParsedAdvertisementIsClean(b: seq<byte>)
    requires ParseAdvertisement(b).Ok?
    ensures Clean(ParseAdvertisement(b).value)
  {
    var opts := ParseOptions(b[12..]).value;
    OptionsExact(b[12..], opts);
    ParsedHeaderIsClean(b);
    ApplyOptsKeepsClean(ParseHeader(b), opts);
  }

  lemma {:induction false} LastSllaIsPadded(current: seq<byte>, opts: seq<Opt>)
    requires AllWellFormed(opts) && Padded(current) == current
    ensures Padded(LastSlla(current, opts)) == LastSlla(current, opts)
    decreases |opts|
  {
    if opts != [] {
      if opts[0].typ == OPT_SLLA {
        assert Padded(opts[0].body) == opts[0].body + [] == opts[0].body;
      }
      LastSllaIsPadded(if opts[0].typ == OPT_SLLA then opts[0].body else current, opts[1..]);
    }
  }

  /** A parsed message marshals again if and only if it has no IPv4-mapped prefix, and then parsing
      the result gives the same message: one trip is as good as any number. */
  lemma {:induction false} ParseMarshalParse(b: seq<byte>)
    requires ParseMessage(b).Ok?
    ensures var m := ParseMessage(b).value;
            && Normal(m) == m
            && (MarshalMessage(m).Ok? <==> NoMapped(m))
            && (MarshalMessage(m).Ok? ==> ParseMessage(MarshalMessage(m).value) == Ok(m))
  {
    var m := ParseMessage(b).value;
    ParsedSllaFits(b);
    if m.RouterAdvertisement? {
      ParsedAdvertisementIsClean(b[4..]);
      CleanIsNormal(m.ra);
      CleanMarshals(m.ra);
    } else {
      var opts := ParseOptions(b[4..][4..]).value;
      OptionsExact(b[4..][4..], opts);
      LastSllaIsPadded([], opts);
    }
    if MarshalMessage(m).Ok? {
      ShortMessageRoundTrip(m);
    }
  }

  // A marshalled message is never longer than the bytes it was parsed from.

  function HwLen(hw: seq<byte>): nat {
    if hw == [] then 0 else (|hw| + 9) / 8 * 8
  }

  function RoutesLen(rs: seq<RouteInformation>): nat {
    if rs == [] then 0
    else (if rs[0].prefix.V6? then 8 + RoutePrefixBytes(rs[0].prefix.bits) else 0) + RoutesLen(rs[1..])
  }

  function OptionsLen(ra: Advertisement): nat {
    HwLen(ra.slla) + (if ra.mtu == 0 then 0 else 8) + 32 * |ra.prefixes| + RoutesLen(ra.routes)
  }

  function WireLen(m: Message): nat {
    match m
    case Solicitation(hw) => 8 + HwLen(hw)
    case RouterAdvertisement(ra) => 16 + OptionsLen(ra)
  }

  lemma {:induction false} PrefixesBytesLen(ps: seq<PrefixInformation>)
    ensures PrefixesBytes(ps).Ok? ==> |PrefixesBytes(ps).value| == 32 * |ps|
  {
    if ps != [] {
      PrefixesBytesLen(ps[1..]);
    }
  }

  lemma {:induction false} RoutesBytesLen(rs: seq<RouteInformation>)
    ensures RoutesBytes(rs).Ok? ==> |RoutesBytes(rs).value| == RoutesLen(rs)
  {
    if rs != [] {
      RoutesBytesLen(rs[1..]);
    }
  }

  lemma {:induction false} MarshalledLen(m: Message)
    requires MarshalMessage(m).Ok?
    ensures |MarshalMessage(m).value| == WireLen(m)
  {
    if m.RouterAdvertisement? {
      PrefixesBytesLen(m.ra.prefixes);
      RoutesBytesLen(m.ra.routes);
    }
  }

  lemma {:induction false} RoutesLenAppend(rs: seq<RouteInformation>, r: RouteInformation)
    ensures RoutesLen(rs + [r]) == RoutesLen(rs) + RoutesLen([r])
  {
    if rs == [] {
      assert rs + [r] == [r];
    } else {
      RoutesLenAppend(rs[1..], r);
      assert (rs + [r])[1..] == rs[1..] + [r];
    }
  }

  lemma {:induction false} ApplyOptLen(ra: Advertisement, o: Opt)
    requires WellFormed(o)
    ensures OptionsLen(ApplyOpt(ra, o)) <= OptionsLen(ra) + |OptBytes(o)|
  {
    if o.typ == OPT_ROUTE {
      var r := ParseRouteInformation(o.body);
      if r.Some? {
        RoutesLenAppend(ra.routes, r.value);
        ParsedRouteLen(o.body);
      }
    }
  }

  lemma {:induction false} ParsedRouteLen(body: seq<byte>)
    requires ParseRouteInformation(body).Some? && (|body| + 2) % 8 == 0
    ensures RoutesLen([ParseRouteInformation(body).value]) <= |body| + 2
  {
    var r := ParseRouteInformation(body).value;
    assert [r][1..] == [];
    assert RoutesLen([r]) == 8 + RoutePrefixBytes(r.prefix.bits);
  }

  lemma {:induction false} ApplyOptsLen(ra: Advertisement, opts: seq<Opt>)
    requires AllWellFormed(opts)
    ensures OptionsLen(ApplyOpts(ra, opts)) <= OptionsLen(ra) + |Concat(opts)|
    decreases |opts|
  {
    if opts != [] {
      ApplyOptLen(ra, opts[0]);
      ApplyOptsLen(ApplyOpt(ra, opts[0]), opts[1..]);
    }
  }

  lemma {:induction false} LastSllaLen(current: seq<byte>, opts: seq<Opt>)
    requires AllWellFormed(opts)
    ensures HwLen(LastSlla(current, opts)) <= HwLen(current) + |Concat(opts)|
    decreases |opts|
  {
    if opts != [] {
      LastSllaLen(if opts[0].typ == OPT_SLLA then opts[0].body else current, opts[1..]);
    }
  }

  lemma {:induction false} ParsedLen(b: seq<byte>)
    requires ParseMessage(b).Ok?
    ensures WireLen(ParseMessage(b).value) <= |b|
  {
    if b[0] == TYPE_RS {
      var opts := ParseOptions(b[4..][4..]).value;
      OptionsExact(b[4..][4..], opts);
      LastSllaLen([], opts);
    } else {
      var opts := ParseOptions(b[4..][12..]).value;
      OptionsExact(b[4..][12..], opts);
      ApplyOptsLen(ParseHeader(b[4..]), opts);
    }
  }

  lemma {:induction false} NormalRoutesLen(rs: seq<RouteInformation>)
    ensures RoutesLen(NormalRoutes(rs)) == RoutesLen(rs)
  {
    if rs != [] {
      NormalRoutesLen(rs[1..]);
      assert NormalRoutes(rs)[1..] == NormalRoutes(rs[1..]);
    }
  }

  lemma {:induction false} NormalLen(m: Message)
    ensures WireLen(Normal(m)) == WireLen(m)
  {
    if m.RouterAdvertisement? {
      NormalRoutesLen(m.ra.routes);
    }
  }
}
