/**
 Turning an advertisement into interface configuration. Prefix options become addresses
 (RFC 4862 section 5.5.3) or on-link routes, the router's own lifetime decides on a
 default route, and route options add the rest.
 */
module Autoconf {
  import opened Results
  import opened Bytes
  import opened NdMessage
  import opened NdRoundTrip
  import opened NdPacket

  type Identifier = s: seq<byte> | |s| == 8 witness Zeros(8)

  /** An address and the length it is assigned with. */
  datatype Address = Address(addr: Addr16, bits: nat)

  /** A route; without a gateway its destination is on-link. */
  datatype Route = Route(destination: NetPrefix, gateway: Option<Addr16>)

  datatype Config = Config(addresses: seq<Address>, routes: seq<Route>)

  const DEFAULT: NetPrefix := V6(Zeros(16), 0)

  predicate IsLoopback(a: Addr16) {
    if Is4In6(a) then a[12] == 127 else (forall i :: 0 <= i < 15 ==> a[i] == 0) && a[15] == 1
  }

  predicate IsMulticast(a: Addr16) {
    if Is4In6(a) then a[12] / 16 == 14 else a[0] == 0xff
  }

  /** Only asked of addresses that are not IPv4-mapped. */
  predicate IsGlobalUnicast(a: Addr16) {
    !IsUnspecified(a) && !IsLoopback(a) && !IsMulticast(a) && !IsLinkLocalUnicast(a)
  }

  /** Destinations a route may have: everything, or a network of global unicast addresses. */
  predicate Routable(p: NetPrefix) {
    p.V6? && (p.bits == 0 || (IsGlobalUnicast(p.addr) && !Is4In6(p.addr)))
  }

  /** The prefix's first 64 bits followed by the identifier. */
  function FormAddress(id: Identifier, p: NetPrefix): Option<Addr16> {
    if !p.V6? || Is4In6(p.addr) || p.bits != 64 then None
    else Some(Masked(p.addr, p.bits)[..8] + id)
  }

  /** A prefix option the host acts on: global unicast, not the default route, and not withdrawn. */
  predicate Effective(p: PrefixInformation) {
    var prefix := MaskedPrefix(p.prefix);
    Routable(prefix) && prefix.bits != 0 && p.valid != 0
  }

  /** The address an option forms: it is autonomous, preferred for a while but no longer than valid,
      and a /64. */
  function Formed(p: PrefixInformation, id: Identifier): Option<Addr16> {
    if p.autonomous && p.preferred > 0 && p.preferred <= p.valid then FormAddress(id, MaskedPrefix(p.prefix)) else None
  }

  predicate Configured(addresses: seq<Address>, addr: Addr16) {
    exists i :: 0 <= i < |addresses| && addresses[i].addr == addr
  }

  function AddAddress(addresses: seq<Address>, a: Address): seq<Address> {
    if Configured(addresses, a.addr) then addresses else addresses + [a]
  }

  function AppendRoute(routes: seq<Route>, r: Route): seq<Route> {
    if r in routes then routes else routes + [r]
  }

  /** One turn of the prefix loop. */
  function ApplyPrefix(c: Config, p: PrefixInformation, id: Identifier): Config {
    if !Effective(p) then c
    else
      var prefix := MaskedPrefix(p.prefix);
      match Formed(p, id)
      case Some(addr) =>
        c.(addresses := AddAddress(c.addresses, Address(addr, AddressBits(p))))
      case None =>
        if p.onLink then c.(routes := AppendRoute(c.routes, Route(prefix, None))) else c
  }

  /** One turn of the route loop. */
  function ApplyRouteOption(c: Config, r: RouteInformation, router: Addr16): Config {
    var prefix := MaskedPrefix(r.prefix);
    if r.lifetime == 0 || !Routable(prefix) then c
    else c.(routes := AppendRoute(c.routes, Route(prefix, Some(router))))
  }

  function ApplyDefault(c: Config, ra: Advertisement, router: Addr16): Config {
    if ra.lifetime > 0 then c.(routes := AppendRoute(c.routes, Route(DEFAULT, Some(router)))) else c
  }

  function ApplyPrefixes(c: Config, ps: seq<PrefixInformation>, id: Identifier): Config {
    if ps == [] then c else ApplyPrefix(ApplyPrefixes(c, ps[..|ps| - 1], id), ps[|ps| - 1], id)
  }

  function ApplyRouteOptions(c: Config, rs: seq<RouteInformation>, router: Addr16): Config {
    if rs == [] then c else ApplyRouteOption(ApplyRouteOptions(c, rs[..|rs| - 1], router), rs[|rs| - 1], router)
  }

  const NOTHING := Config([], [])

  function Autoconfigure(ra: Advertisement, router: Addr16, id: Identifier): Config {
    ApplyRouteOptions(ApplyDefault(ApplyPrefixes(NOTHING, ra.prefixes, id), ra, router), ra.routes, router)
  }

  /** Autoconfigure's loops. */
  method AutoconfigureLoop(ra: Advertisement, router: Addr16, id: Identifier) returns (ac: Config)
    ensures ac == Autoconfigure(ra, router, id)
  {
    ac := NOTHING;
    for i := 0 to |ra.prefixes|
      invariant ac == ApplyPrefixes(NOTHING, ra.prefixes[..i], id)
    {
      assert ra.prefixes[..i + 1][..i] == ra.prefixes[..i];
      var p := ra.prefixes[i];
      var prefix := MaskedPrefix(p.prefix);
      if !Routable(prefix) || prefix.bits == 0 || p.valid == 0 {
        continue;
      }
      var formed := false;
      if p.autonomous && p.preferred > 0 && p.preferred <= p.valid {
        var addr := FormAddress(id, prefix);
        if addr.Some? {
          var bits := if p.onLink then prefix.bits else 128;
          ac := ac.(addresses := AddAddress(ac.addresses, Address(addr.value, bits)));
          formed := true;
        }
      }
      if p.onLink && !formed {
        ac := ac.(routes := AppendRoute(ac.routes, Route(prefix, None)));
      }
    }
    assert ra.prefixes[..|ra.prefixes|] == ra.prefixes;
    if ra.lifetime > 0 {
      ac := ac.(routes := AppendRoute(ac.routes, Route(DEFAULT, Some(router))));
    }
    ghost var start := ac;
    for i := 0 to |ra.routes|
      invariant ac == ApplyRouteOptions(start, ra.routes[..i], router)
    {
      assert ra.routes[..i + 1][..i] == ra.routes[..i];
      var r := ra.routes[i];
      var prefix := MaskedPrefix(r.prefix);
      if r.lifetime == 0 || !Routable(prefix) {
        continue;
      }
      ac := ac.(routes := AppendRoute(ac.routes, Route(prefix, Some(router))));
    }
    assert ra.routes[..|ra.routes|] == ra.routes;
  }

  // What ends up configured, exactly.

  /** Option i is the first to form addr. */
  ghost predicate FirstToForm(ps: seq<PrefixInformation>, id: Identifier, i: nat, addr: Addr16) {
    && i < |ps| && Effective(ps[i]) && Formed(ps[i], id) == Some(addr)
    && forall j :: 0 <= j < i && Effective(ps[j]) ==> Formed(ps[j], id) != Some(addr)
  }

  /** The addresses, described without reference to the loop: one per formed address, its length
      decided by the first option that forms it. */
  ghost predicate WantsAddress(ps: seq<PrefixInformation>, id: Identifier, a: Address) {
    exists i: nat :: FirstToForm(ps, id, i, a.addr) && a.bits == AddressBits(ps[i])
  }

  /** The length an option's address gets: the prefix's if that is on-link, or a host's. */
  function AddressBits(p: PrefixInformation): nat
    requires Effective(p)
  {
    if p.onLink then MaskedPrefix(p.prefix).bits else 128
  }

  /** An effective on-link option that forms no address asks for an on-link route. */
  ghost predicate WantsOnLinkRoute(ps: seq<PrefixInformation>, id: Identifier, prefix: NetPrefix) {
    exists i :: 0 <= i < |ps| && Effective(ps[i]) && ps[i].onLink && Formed(ps[i], id).None?
                && MaskedPrefix(ps[i].prefix) == prefix
  }

  ghost predicate WantsGatewayRoute(ra: Advertisement, prefix: NetPrefix) {
    (ra.lifetime > 0 && prefix == DEFAULT) || Offered(ra.routes, prefix)
  }

  ghost predicate WantsRoute(ra: Advertisement, router: Addr16, id: Identifier, r: Route) {
    match r.gateway
    case None => WantsOnLinkRoute(ra.prefixes, id, r.destination)
    case Some(gw) => gw == router && WantsGatewayRoute(ra, r.destination)
  }

  ghost predicate DistinctConfig(c: Config) {
    && (forall i, j :: 0 <= i < j < |c.addresses| ==> c.addresses[i].addr != c.addresses[j].addr)
    && (forall i, j :: 0 <= i < j < |c.routes| ==> c.routes[i] != c.routes[j])
  }

  /** The prefix loop has done what the options so far want, and nothing else. */
  ghost predicate PrefixesDone(c: Config, ps: seq<PrefixInformation>, id: Identifier) {
    && DistinctConfig(c)
    && (forall a :: a in c.addresses <==> WantsAddress(ps, id, a))
    && (forall r :: r in c.routes <==> r.gateway.None? && WantsOnLinkRoute(ps, id, r.destination))
  }

  lemma {:induction false} WantsOnLinkRouteSnoc(ps: seq<PrefixInformation>, p: PrefixInformation, id: Identifier,
                                                d: NetPrefix)
    ensures WantsOnLinkRoute(ps + [p], id, d) <==>
              || WantsOnLinkRoute(ps, id, d)
              || (Effective(p) && p.onLink && Formed(p, id).None? && MaskedPrefix(p.prefix) == d)
  {
    var qs := ps + [p];
    if WantsOnLinkRoute(ps, id, d) {
      var i :| 0 <= i < |ps| && Effective(ps[i]) && ps[i].onLink && Formed(ps[i], id).None?
               && MaskedPrefix(ps[i].prefix) == d;
      assert qs[i] == ps[i];
    }
    if Effective(p) && p.onLink && Formed(p, id).None? && MaskedPrefix(p.prefix) == d {
      assert qs[|ps|] == p;
    }
  }

  ghost predicate FormedBefore(ps: seq<PrefixInformation>, id: Identifier, addr: Addr16) {
    exists i :: 0 <= i < |ps| && Effective(ps[i]) && Formed(ps[i], id) == Some(addr)
  }

  lemma {:induction false} WantsAddressSnoc(ps: seq<PrefixInformation>, p: PrefixInformation, id: Identifier,
                                            a: Address)
    ensures WantsAddress(ps + [p], id, a) <==>
              || WantsAddress(ps, id, a)
              || (&& Effective(p) && Formed(p, id) == Some(a.addr) && !FormedBefore(ps, id, a.addr)
                  && a.bits == AddressBits(p))
  {
    var qs := ps + [p];
    assert forall i :: 0 <= i < |ps| ==> qs[i] == ps[i];
    if i: nat :| FirstToForm(ps, id, i, a.addr) && a.bits == AddressBits(ps[i]) {
      assert FirstToForm(qs, id, i, a.addr);
    }
    if WantsAddress(qs, id, a) {
      var i: nat :| FirstToForm(qs, id, i, a.addr) && a.bits == AddressBits(qs[i]);
      if i < |ps| {
        assert FirstToForm(ps, id, i, a.addr);
      }
    }
    if Effective(p) && Formed(p, id) == Some(a.addr) && !FormedBefore(ps, id, a.addr) {
      assert FirstToForm(qs, id, |ps|, a.addr);
    }
  }

  /** An address formed by some option has a first option that forms it. */
  lemma {:induction false} FormedHasFirst(ps: seq<PrefixInformation>, id: Identifier, addr: Addr16, i: nat)
    returns (k: nat)
    requires i < |ps| && Effective(ps[i]) && Formed(ps[i], id) == Some(addr)
    ensures FirstToForm(ps, id, k, addr)
    decreases i
  {
    if j :| 0 <= j < i && Effective(ps[j]) && Formed(ps[j], id) == Some(addr) {
      k := FormedHasFirst(ps, id, addr, j);
    } else {
      k := i;
    }
  }

  lemma {:induction false} FormedIsConfigured(c: Config, ps: seq<PrefixInformation>, id: Identifier, i: nat)
    requires forall a :: WantsAddress(ps, id, a) ==> a in c.addresses
    requires i < |ps| && Effective(ps[i]) && Formed(ps[i], id).Some?
    ensures Configured(c.addresses, Formed(ps[i], id).value)
  {
    var addr := Formed(ps[i], id).value;
    var k := FormedHasFirst(ps, id, addr, i);
    var a := Address(addr, AddressBits(ps[k]));
    assert WantsAddress(ps, id, a);
    var x :| 0 <= x < |c.addresses| && c.addresses[x] == a;
  }

  /** An address is configured exactly when some option formed it. */
  lemma {:induction false} AddressPresent(c: Config, ps: seq<PrefixInformation>, id: Identifier, addr: Addr16)
    requires forall a :: a in c.addresses <==> WantsAddress(ps, id, a)
    ensures Configured(c.addresses, addr) <==> FormedBefore(ps, id, addr)
  {
    if FormedBefore(ps, id, addr) {
      var i :| 0 <= i < |ps| && Effective(ps[i]) && Formed(ps[i], id) == Some(addr);
      FormedIsConfigured(c, ps, id, i);
    }
    if x :| 0 <= x < |c.addresses| && c.addresses[x].addr == addr {
      assert WantsAddress(ps, id, c.addresses[x]);
    }
  }

  lemma {:induction false} AddressStep(c: Config, ps: seq<PrefixInformation>, p: PrefixInformation, id: Identifier,
                                       a: Address)
    requires forall x :: x in c.addresses <==> WantsAddress(ps, id, x)
    ensures a in ApplyPrefix(c, p, id).addresses <==> WantsAddress(ps + [p], id, a)
  {
    WantsAddressSnoc(ps, p, id, a);
    if Formed(p, id).Some? {
      AddressPresent(c, ps, id, Formed(p, id).value);
    }
  }

  lemma {:induction false} OnLinkStep(c: Config, ps: seq<PrefixInformation>, p: PrefixInformation, id: Identifier,
                                      r: Route)
    requires r in c.routes <==> r.gateway.None? && WantsOnLinkRoute(ps, id, r.destination)
    ensures r in ApplyPrefix(c, p, id).routes <==> r.gateway.None? && WantsOnLinkRoute(ps + [p], id, r.destination)
  {
    WantsOnLinkRouteSnoc(ps, p, id, r.destination);
  }

  lemma {:induction false} DistinctStep(c: Config, p: PrefixInformation, id: Identifier)
    requires DistinctConfig(c)
    ensures DistinctConfig(ApplyPrefix(c, p, id))
  {
  }

  lemma {:induction false} ApplyPrefixDone(c: Config, ps: seq<PrefixInformation>, id: Identifier)
    requires ps != [] && PrefixesDone(c, ps[..|ps| - 1], id)
    ensures PrefixesDone(ApplyPrefix(c, ps[|ps| - 1], id), ps, id)
  {
    var (rest, p) := (ps[..|ps| - 1], ps[|ps| - 1]);
    var d := ApplyPrefix(c, p, id);
    assert ps == rest + [p];
    DistinctStep(c, p, id);
    forall a ensures a in d.addresses <==> WantsAddress(ps, id, a) {
      AddressStep(c, rest, p, id, a);
    }
    forall r ensures r in d.routes <==> r.gateway.None? && WantsOnLinkRoute(ps, id, r.destination) {
      OnLinkStep(c, rest, p, id, r);
    }
  }

  lemma {:induction false} PrefixLoopExact(ps: seq<PrefixInformation>, id: Identifier)
    ensures PrefixesDone(ApplyPrefixes(NOTHING, ps, id), ps, id)
  {
    if ps != [] {
      PrefixLoopExact(ps[..|ps| - 1], id);
      ApplyPrefixDone(ApplyPrefixes(NOTHING, ps[..|ps| - 1], id), ps, id);
    }
  }

  // The default route and the route options.

  /** Some route option among rs asks for the prefix. */
  ghost predicate Offered(rs: seq<RouteInformation>, d: NetPrefix) {
    exists i :: 0 <= i < |rs| && rs[i].lifetime != 0 && Routable(MaskedPrefix(rs[i].prefix))
                && MaskedPrefix(rs[i].prefix) == d
  }

  lemma {:induction false} OfferedSnoc(rs: seq<RouteInformation>, r: RouteInformation, d: NetPrefix)
    ensures Offered(rs + [r], d) <==>
              Offered(rs, d) || (r.lifetime != 0 && Routable(MaskedPrefix(r.prefix)) && MaskedPrefix(r.prefix) == d)
  {
    var qs := rs + [r];
    if Offered(rs, d) {
      var i :| 0 <= i < |rs| && rs[i].lifetime != 0 && Routable(MaskedPrefix(rs[i].prefix))
               && MaskedPrefix(rs[i].prefix) == d;
      assert qs[i] == rs[i];
    }
    if r.lifetime != 0 && Routable(MaskedPrefix(r.prefix)) && MaskedPrefix(r.prefix) == d {
      assert qs[|rs|] == r;
    }
  }

  lemma {:induction false} RouteLoopExact(c: Config, rs: seq<RouteInformation>, router: Addr16)
    requires DistinctConfig(c)
    ensures var d := ApplyRouteOptions(c, rs, router);
            && DistinctConfig(d) && d.addresses == c.addresses
            && forall r :: r in d.routes <==> r in c.routes || (r.gateway == Some(router) && Offered(rs, r.destination))
  {
    if rs != [] {
      var (rest, last) := (rs[..|rs| - 1], rs[|rs| - 1]);
      RouteLoopExact(c, rest, router);
      var (b, d) := (ApplyRouteOptions(c, rest, router), ApplyRouteOptions(c, rs, router));
      assert rest + [last] == rs;
      forall r ensures r in d.routes <==> r in c.routes || (r.gateway == Some(router) && Offered(rs, r.destination)) {
        RouteStep(b, rest, last, router, r);
      }
    }
  }

  lemma {:induction false} RouteStep(c: Config, rs: seq<RouteInformation>, o: RouteInformation, router: Addr16,
                                     r: Route)
    ensures (r in ApplyRouteOption(c, o, router).routes || (r.gateway == Some(router) && Offered(rs, r.destination)))
       <==> (r in c.routes || (r.gateway == Some(router) && Offered(rs + [o], r.destination)))
  {
    OfferedSnoc(rs, o, r.destination);
  }

  /** The configuration holds exactly what the advertisement asks for, each thing once. */
  lemma {:induction false} AutoconfigureExact(ra: Advertisement, router: Addr16, id: Identifier)
    ensures var c := Autoconfigure(ra, router, id);
            && DistinctConfig(c)
            && (forall a :: a in c.addresses <==> WantsAddress(ra.prefixes, id, a))
            && (forall r :: r in c.routes <==> WantsRoute(ra, router, id, r))
  {
    PrefixLoopExact(ra.prefixes, id);
    var c1 := ApplyPrefixes(NOTHING, ra.prefixes, id);
    var c2 := ApplyDefault(c1, ra, router);
    RouteLoopExact(c2, ra.routes, router);
  }

  const MAPPED: Addr16 := [0, 0, 0, 0, 0, 0, 0, 0, 0, 0, 255, 255, 0, 0, 0, 0]
  const MULTICAST: Addr16 := [0xff, 0, 0, 0, 0, 0, 0, 0, 0, 0, 0, 0, 0, 0, 0, 0]
  const UNSPECIFIED: Addr16 := [0, 0, 0, 0, 0, 0, 0, 0, 0, 0, 0, 0, 0, 0, 0, 0]
  const LOOPBACK: Addr16 := [0, 0, 0, 0, 0, 0, 0, 0, 0, 0, 0, 0, 0, 0, 0, 1]

  /** A prefix can be routed exactly when it is ::/0, or its address is neither ::, ::1 nor in ::ffff:0:0/96,
      ff00::/8 or fe80::/10. */
  lemma {:induction false} RoutableIs(p: NetPrefix)
    ensures Routable(p) <==>
              && p.V6?
              && (|| p.bits == 0
                  || (&& p.addr != UNSPECIFIED && p.addr != LOOPBACK && Masked(p.addr, 96) != MAPPED
                      && Masked(p.addr, 8) != MULTICAST && Masked(p.addr, 10) != LINK_LOCAL))
  {
    if p.V6? {
      MappedIs(p.addr);
      if !Is4In6(p.addr) {
        GlobalUnicastIs(p.addr);
      }
    }
  }

  lemma {:induction false} GlobalUnicastIs(a: Addr16)
    requires !Is4In6(a)
    ensures IsGlobalUnicast(a) <==>
              a != UNSPECIFIED && a != LOOPBACK && Masked(a, 8) != MULTICAST && Masked(a, 10) != LINK_LOCAL
  {
    MulticastIs(a);
    LinkLocalIPv6(a);
    OneAddress(a);
  }

  lemma {:induction false} MappedIs(a: Addr16)
    ensures Masked(a, 96) == MAPPED <==> Is4In6(a)
  {
    var m := MAPPED;
    assert m[12..] == Zeros(4);
    MaskedWholeBytes(a, m, 12);
    LeadingBytes(a, m, 12);
    MappedBytes(a);
  }

  lemma {:induction false} MappedBytes(a: Addr16)
    ensures (forall i :: 0 <= i < 12 ==> a[i] == MAPPED[i]) <==> Is4In6(a)
  {
    var m := MAPPED;
    assert forall i :: 0 <= i < 10 ==> m[i] == 0;
    if forall i :: 0 <= i < 12 ==> a[i] == m[i] {
      assert a[10] == m[10] && a[11] == m[11];
    }
  }

  lemma {:induction false} MulticastIs(a: Addr16)
    ensures Masked(a, 8) == MULTICAST <==> a[0] == 0xff
  {
    var m := MULTICAST;
    assert m[1..] == Zeros(15);
    MaskedWholeBytes(a, m, 1);
    LeadingBytes(a, m, 1);
  }

  lemma {:induction false} OneAddress(a: Addr16)
    ensures a == UNSPECIFIED <==> forall i :: 0 <= i < 16 ==> a[i] == 0
    ensures a == LOOPBACK <==> (forall i :: 0 <= i < 15 ==> a[i] == 0) && a[15] == 1
  {
  }

  /** Only the default route and global unicast prefixes are ever routed. */
  lemma {:induction false} RoutesAreRoutable(ra: Advertisement, router: Addr16, id: Identifier, r: Route)
    requires r in Autoconfigure(ra, router, id).routes
    ensures Routable(r.destination)
  {
    AutoconfigureExact(ra, router, id);
  }

  /** An address is formed exactly from a /64 that is not IPv4-mapped: it has the prefix's first 64 bits, so it
      lies in the prefix, and then the identifier. */
  lemma {:induction false} FormAddressIs(id: Identifier, p: NetPrefix)
    ensures FormAddress(id, p).Some? <==> p.V6? && p.bits == 64 && !Is4In6(p.addr)
    ensures FormAddress(id, p).Some? ==>
              var a := FormAddress(id, p).value;
              a[..8] == p.addr[..8] && a[8..] == id && Masked(a, 64) == Masked(p.addr, 64)
  {
    if FormAddress(id, p).Some? {
      var (a, m) := (FormAddress(id, p).value, Masked(p.addr, 64));
      forall i | 0 <= i < 8 ensures m[i] == p.addr[i] {
        assert 64 - 8 * i >= 8;
      }
      assert a[..8] == m[..8] == p.addr[..8];
      forall i | 0 <= i < 16 ensures Masked(a, 64)[i] == m[i] {
        assert i < 8 ==> a[i] == a[..8][i] == p.addr[..8][i] == p.addr[i];
      }
    }
  }

  /** Every configured address ends in the identifier and lies in an advertised /64 that is valid, preferred for a
      while and meant for autoconfiguration; its length is the prefix's if the option is on-link, and a host's
      otherwise. */
  lemma {:induction false} ConfiguredAddressIs(ra: Advertisement, router: Addr16, id: Identifier, a: Address)
    requires a in Autoconfigure(ra, router, id).addresses
    ensures a.addr[8..] == id
    ensures exists i :: 0 <= i < |ra.prefixes| && Source(ra.prefixes[i], a)
  {
    AutoconfigureExact(ra, router, id);
    var i: nat :| FirstToForm(ra.prefixes, id, i, a.addr) && a.bits == AddressBits(ra.prefixes[i]);
    var p := ra.prefixes[i];
    FormAddressIs(id, MaskedPrefix(p.prefix));
    MaskIdempotent(p.prefix.addr, 64);
    assert Source(p, a);
  }

  /** And every such option whose prefix can be routed is served: the address of its first 64 bits and the
      identifier is configured. */
  lemma {:induction false} OptionIsServed(ra: Advertisement, router: Addr16, id: Identifier, i: nat)
    requires i < |ra.prefixes|
    requires var p := ra.prefixes[i];
             && p.prefix.V6? && p.prefix.bits == 64 && p.autonomous && 0 < p.preferred <= p.valid
             && Routable(V6(Masked(p.prefix.addr, 64), 64))
    ensures Configured(Autoconfigure(ra, router, id).addresses, ra.prefixes[i].prefix.addr[..8] + id)
  {
    var p := ra.prefixes[i];
    var prefix := MaskedPrefix(p.prefix);
    AutoconfigureExact(ra, router, id);
    FormAddressIs(id, prefix);
    FormedIsConfigured(Autoconfigure(ra, router, id), ra.prefixes, id, i);
    var a := Formed(p, id).value;
    forall j | 0 <= j < 8 ensures prefix.addr[j] == p.prefix.addr[j] {
      assert 64 - 8 * j >= 8;
    }
    assert a == a[..8] + a[8..] == p.prefix.addr[..8] + id;
  }

  /** The option is one the address may come from. */
  predicate Source(p: PrefixInformation, a: Address) {
    && p.prefix.V6? && p.prefix.bits == 64 && p.autonomous && 0 < p.preferred <= p.valid
    && Masked(a.addr, 64) == Masked(p.prefix.addr, 64)
    && a.bits == if p.onLink then 64 else 128
  }

  /** A repeated prefix option changes nothing. */
  lemma {:induction false} RepeatedPrefixChangesNothing(ra: Advertisement, router: Addr16, id: Identifier, i: nat)
    requires i < |ra.prefixes|
    ensures Autoconfigure(ra.(prefixes := ra.prefixes + [ra.prefixes[i]]), router, id) == Autoconfigure(ra, router, id)
  {
    var (ps, p) := (ra.prefixes, ra.prefixes[i]);
    var c := ApplyPrefixes(NOTHING, ps, id);
    PrefixLoopExact(ps, id);
    AgainChangesNothing(c, ps, id, i);
    assert (ps + [p])[..|ps|] == ps;
    assert ApplyPrefixes(NOTHING, ps + [p], id) == c;
  }

  lemma {:induction false} AgainChangesNothing(c: Config, ps: seq<PrefixInformation>, id: Identifier, i: nat)
    requires PrefixesDone(c, ps, id) && i < |ps|
    ensures ApplyPrefix(c, ps[i], id) == c
  {
    var p := ps[i];
    if Effective(p) && Formed(p, id).Some? {
      FormedIsConfigured(c, ps, id, i);
    } else if Effective(p) && p.onLink {
      assert WantsOnLinkRoute(ps, id, MaskedPrefix(p.prefix));
      assert Route(MaskedPrefix(p.prefix), None) in c.routes;
    }
  }

  /** A repeated route option changes nothing. */
  lemma {:induction false} RepeatedRouteChangesNothing(ra: Advertisement, router: Addr16, id: Identifier, i: nat)
    requires i < |ra.routes|
    ensures Autoconfigure(ra.(routes := ra.routes + [ra.routes[i]]), router, id) == Autoconfigure(ra, router, id)
  {
    var (rs, r) := (ra.routes, ra.routes[i]);
    PrefixLoopExact(ra.prefixes, id);
    var c := ApplyDefault(ApplyPrefixes(NOTHING, ra.prefixes, id), ra, router);
    RouteLoopExact(c, rs, router);
    assert (rs + [r])[..|rs|] == rs;
    if r.lifetime != 0 && Routable(MaskedPrefix(r.prefix)) {
      assert Offered(rs, MaskedPrefix(r.prefix));
      assert Route(MaskedPrefix(r.prefix), Some(router)) in ApplyRouteOptions(c, rs, router).routes;
    }
  }

  // On-link prefixes.

  predicate ByAddress(c: Config, prefix: NetPrefix, id: Identifier) {
    var addr := FormAddress(id, prefix);
    addr.Some? && Address(addr.value, prefix.bits) in c.addresses
  }

  predicate ByRoute(c: Config, prefix: NetPrefix) {
    Route(prefix, None) in c.routes
  }

  /** A formed address determines the prefix it was formed from. */
  lemma {:induction false} FormAddressInjective(id: Identifier, p: NetPrefix, q: NetPrefix)
    requires MaskedPrefix(p) == p && MaskedPrefix(q) == q
    requires FormAddress(id, p).Some? && FormAddress(id, p) == FormAddress(id, q)
    ensures p == q
  {
    var a := FormAddress(id, p).value;
    assert Masked(p.addr, 64) == p.addr && Masked(q.addr, 64) == q.addr;
    forall i | 0 <= i < 16 ensures p.addr[i] == q.addr[i] {
      if i < 8 {
        assert a[i] == p.addr[i];
        assert a[i] == q.addr[i];
      } else {
        assert p.addr[i] == MaskByte(p.addr[i], 64 - 8 * i) && q.addr[i] == MaskByte(q.addr[i], 64 - 8 * i);
      }
    }
  }

  lemma {:induction false} MaskedPrefixIdempotent(p: NetPrefix)
    ensures MaskedPrefix(MaskedPrefix(p)) == MaskedPrefix(p)
  {
    if p.V6? {
      MaskIdempotent(p.addr, p.bits);
    }
  }

  /** Option k is the first the host acts on that forms an address from the prefix. */
  ghost predicate FirstFormer(ps: seq<PrefixInformation>, id: Identifier, k: nat, prefix: NetPrefix) {
    && k < |ps| && FormsFrom(ps[k], id, prefix)
    && forall j :: 0 <= j < k ==> !FormsFrom(ps[j], id, prefix)
  }

  ghost predicate FormsFrom(p: PrefixInformation, id: Identifier, prefix: NetPrefix) {
    Effective(p) && MaskedPrefix(p.prefix) == prefix && Formed(p, id).Some?
  }

  /** The first option that forms an address from the prefix is on-link. */
  ghost predicate FirstFormerOnLink(ps: seq<PrefixInformation>, id: Identifier, prefix: NetPrefix) {
    exists k: nat :: FirstFormer(ps, id, k, prefix) && ps[k].onLink
  }

  /** An option forms the address of a prefix exactly when it forms an address from that prefix. */
  lemma {:induction false} FormsThatAddress(p: PrefixInformation, id: Identifier, prefix: NetPrefix)
    requires MaskedPrefix(prefix) == prefix && FormAddress(id, prefix).Some?
    ensures Effective(p) && Formed(p, id) == FormAddress(id, prefix) <==> FormsFrom(p, id, prefix)
  {
    MaskedPrefixIdempotent(p.prefix);
    if Formed(p, id) == FormAddress(id, prefix) {
      FormAddressInjective(id, MaskedPrefix(p.prefix), prefix);
    }
  }

  lemma {:induction false} FirstToFormIsFirstFormer(ps: seq<PrefixInformation>, id: Identifier, k: nat,
                                                    prefix: NetPrefix)
    requires MaskedPrefix(prefix) == prefix && FormAddress(id, prefix).Some?
    ensures FirstToForm(ps, id, k, FormAddress(id, prefix).value) <==> FirstFormer(ps, id, k, prefix)
  {
    forall j: nat | j < |ps| ensures
        Effective(ps[j]) && Formed(ps[j], id) == FormAddress(id, prefix) <==> FormsFrom(ps[j], id, prefix) {
      FormsThatAddress(ps[j], id, prefix);
    }
  }

  /** A prefix has an on-link route if and only if some on-link option for it forms no address. */
  lemma {:induction false} ByRouteWhen(ra: Advertisement, router: Addr16, id: Identifier, prefix: NetPrefix)
    ensures ByRoute(Autoconfigure(ra, router, id), prefix) <==> WantsOnLinkRoute(ra.prefixes, id, prefix)
  {
    AutoconfigureExact(ra, router, id);
  }

  /** A prefix is represented by an address if and only if the first option that forms one is on-link. */
  lemma {:induction false} ByAddressWhen(ra: Advertisement, router: Addr16, id: Identifier, prefix: NetPrefix)
    requires MaskedPrefix(prefix) == prefix
    ensures ByAddress(Autoconfigure(ra, router, id), prefix, id) <==> FirstFormerOnLink(ra.prefixes, id, prefix)
  {
    var ps := ra.prefixes;
    AutoconfigureExact(ra, router, id);
    if FormAddress(id, prefix).Some? {
      var a := Address(FormAddress(id, prefix).value, prefix.bits);
      forall k: nat ensures FirstToForm(ps, id, k, a.addr) <==> FirstFormer(ps, id, k, prefix) {
        FirstToFormIsFirstFormer(ps, id, k, prefix);
      }
      assert WantsAddress(ps, id, a) <==> FirstFormerOnLink(ps, id, prefix);
    }
  }

  /** An on-link prefix is represented by exactly one of an address with its length and an on-link route,
      if and only if either the first option that forms its address is on-link or some on-link option for it
      forms none, but not both. It is lost if neither holds and represented twice if both do. */
  lemma {:induction false} RepresentedOnceWhen(ra: Advertisement, router: Addr16, id: Identifier, i: nat)
    requires i < |ra.prefixes| && Effective(ra.prefixes[i]) && ra.prefixes[i].onLink
    ensures var (c, prefix) := (Autoconfigure(ra, router, id), MaskedPrefix(ra.prefixes[i].prefix));
            var (byAddress, byRoute) := (FirstFormerOnLink(ra.prefixes, id, prefix),
                                         WantsOnLinkRoute(ra.prefixes, id, prefix));
            && (ByAddress(c, prefix, id) != ByRoute(c, prefix) <==> byAddress != byRoute)
            && (ByAddress(c, prefix, id) && ByRoute(c, prefix) <==> byAddress && byRoute)
            && (|| byAddress || byRoute
                || exists k: nat :: FirstFormer(ra.prefixes, id, k, prefix) && !ra.prefixes[k].onLink)
  {
    var (ps, prefix) := (ra.prefixes, MaskedPrefix(ra.prefixes[i].prefix));
    MaskedPrefixIdempotent(ps[i].prefix);
    ByRouteWhen(ra, router, id, prefix);
    ByAddressWhen(ra, router, id, prefix);
    if Formed(ps[i], id).Some? {
      var k := HasFirstFormer(ps, id, prefix, i);
    }
  }

  lemma {:induction false} HasFirstFormer(ps: seq<PrefixInformation>, id: Identifier, prefix: NetPrefix, i: nat)
    returns (k: nat)
    requires i < |ps| && FormsFrom(ps[i], id, prefix)
    ensures FirstFormer(ps, id, k, prefix)
    decreases i
  {
    if j :| 0 <= j < i && FormsFrom(ps[j], id, prefix) {
      k := HasFirstFormer(ps, id, prefix, j);
    } else {
      k := i;
    }
  }

  /** No two options the host acts on carry the same prefix. */
  ghost predicate AdvertisedOnce(ps: seq<PrefixInformation>) {
    forall i, j :: 0 <= i < j < |ps| && Effective(ps[i]) && Effective(ps[j]) ==>
      MaskedPrefix(ps[i].prefix) != MaskedPrefix(ps[j].prefix)
  }

  /** In particular, if no prefix is advertised twice, every on-link one is represented exactly once. */
  lemma {:induction false} OnLinkPrefixRepresentedOnce(ra: Advertisement, router: Addr16, id: Identifier, i: nat)
    requires AdvertisedOnce(ra.prefixes)
    requires i < |ra.prefixes| && Effective(ra.prefixes[i]) && ra.prefixes[i].onLink
    ensures var (c, prefix) := (Autoconfigure(ra, router, id), MaskedPrefix(ra.prefixes[i].prefix));
            ByAddress(c, prefix, id) != ByRoute(c, prefix)
  {
    var (ps, prefix) := (ra.prefixes, MaskedPrefix(ra.prefixes[i].prefix));
    RepresentedOnceWhen(ra, router, id, i);
    forall j: nat | j < |ps| && Effective(ps[j]) && MaskedPrefix(ps[j].prefix) == prefix ensures j == i {
    }
    assert FirstFormerOnLink(ps, id, prefix) <==> Formed(ps[i], id).Some? by {
      if Formed(ps[i], id).Some? {
        assert FirstFormer(ps, id, i, prefix);
      }
    }
  }

  /** A prefix advertised twice can be lost: off-link first, then on-link, it forms one /128 address and
      the on-link option adds nothing. */
  lemma {:induction false} TwiceAdvertisedCanBeLost(p: PrefixInformation, router: Addr16, id: Identifier,
                                                    ra: Advertisement)
    requires Effective(p) && Formed(p, id).Some?
    requires ra.prefixes == [p.(onLink := false), p.(onLink := true)]
    ensures var c := Autoconfigure(ra, router, id);
            !ByAddress(c, MaskedPrefix(p.prefix), id) && !ByRoute(c, MaskedPrefix(p.prefix))
  {
    var ps := ra.prefixes;
    AutoconfigureExact(ra, router, id);
    var addr := Formed(p, id).value;
    assert FirstToForm(ps, id, 0, addr);
    assert !WantsAddress(ps, id, Address(addr, 64));
  }

  /** Or be represented twice: an on-link option that forms an address, and one that does not, give it an
      address and a route. */
  lemma {:induction false} TwiceAdvertisedCanBeDoubled(p: PrefixInformation, router: Addr16, id: Identifier,
                                                       ra: Advertisement)
    requires Effective(p) && p.onLink && Formed(p, id).Some?
    requires ra.prefixes == [p, p.(autonomous := false)]
    ensures var c := Autoconfigure(ra, router, id);
            ByAddress(c, MaskedPrefix(p.prefix), id) && ByRoute(c, MaskedPrefix(p.prefix))
  {
    var (ps, prefix) := (ra.prefixes, MaskedPrefix(p.prefix));
    MaskedPrefixIdempotent(p.prefix);
    ByRouteWhen(ra, router, id, prefix);
    ByAddressWhen(ra, router, id, prefix);
    assert FirstFormer(ps, id, 0, prefix);
    assert Effective(ps[1]) && ps[1].onLink && Formed(ps[1], id).None?;
  }
}
