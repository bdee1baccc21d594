/**
 Which interfaces the inventory must leave alone: the default-gateway uplinks with the
 lowest metric of each family, and every link below one of them.
 */
module Uplinks {
  import opened Results

  datatype Link = Link(name: string, index: int, master: int)

  // Links below an uplink.

  /** Following master indexes n times from l leads to a link named in gateways. */
  ghost predicate ReachesIn(links: seq<Link>, gateways: set<string>, l: Link, n: nat)
    decreases n
  {
    && l in links
    && if n == 0 then l.name in gateways
       else l.master != 0 && exists p :: p in links && p.index == l.master && ReachesIn(links, gateways, p, n - 1)
  }

  ghost predicate Reaches(links: seq<Link>, gateways: set<string>, l: Link) {
    exists n: nat :: ReachesIn(links, gateways, l, n)
  }

  /** The names to exclude: the gateways', and those of links whose chain of masters reaches one. */
  ghost predicate MustExclude(links: seq<Link>, gateways: set<string>, name: string) {
    name in gateways || exists l :: l in links && l.name == name && Reaches(links, gateways, l)
  }

  /** children holds, for every master index, exactly the links under it. */
  ghost predicate IsAdjacency(links: seq<Link>, children: map<int, seq<Link>>) {
    forall l :: l in links && l.master != 0 ==> l.master in children && l in children[l.master]
  }

  ghost predicate OnlyChildren(links: seq<Link>, children: map<int, seq<Link>>) {
    forall m, l :: m in children && l in children[m] ==> l in links && l.master == m && m != 0
  }

  method BuildAdjacency(links: seq<Link>, gateways: set<string>)
    returns (children: map<int, seq<Link>>, seeds: seq<int>)
    ensures IsAdjacency(links, children) && OnlyChildren(links, children)
    ensures forall l :: l in links && l.name in gateways ==> l.index in seeds
    ensures forall s :: s in seeds ==> exists l :: l in links && l.index == s && l.name in gateways
  {
    children, seeds := map[], [];
    for i := 0 to |links|
      invariant IsAdjacency(links[..i], children) && OnlyChildren(links, children)
      invariant forall l :: l in links[..i] && l.name in gateways ==> l.index in seeds
      invariant forall s :: s in seeds ==> exists l :: l in links && l.index == s && l.name in gateways
    {
      var l := links[i];
      assert links[..i + 1] == links[..i] + [l];
      if l.master != 0 {
        var siblings := if l.master in children then children[l.master] else [];
        children := children[l.master := siblings + [l]];
      }
      if l.name in gateways {
        seeds := seeds + [l.index];
      }
    }
    assert links[..|links|] == links;
  }

  /** The children of every visited entry are excluded and queued. */
  ghost predicate VisitedDone(all: map<int, seq<Link>>, left: map<int, seq<Link>>, excluded: set<string>,
                              seeds: seq<int>) {
    forall m, l :: m in all && m !in left && l in all[m] ==> l.name in excluded && l.index in seeds
  }

  ghost function ReachedIndexes(links: seq<Link>, gateways: set<string>): set<int> {
    set l | l in links && Reaches(links, gateways, l) :: l.index
  }

  ghost function ReachedNames(links: seq<Link>, gateways: set<string>): set<string> {
    gateways + set l | l in links && Reaches(links, gateways, l) :: l.name
  }

  /** Being reached passes from a master to its children. */
  ghost predicate PassesDown(children: map<int, seq<Link>>, indexes: set<int>, names: set<string>) {
    forall m, l :: m in children && m in indexes && l in children[m] ==> l.index in indexes && l.name in names
  }

  lemma {:induction false} ChildReaches(links: seq<Link>, gateways: set<string>, m: int, l: Link)
    requires m in ReachedIndexes(links, gateways) && l in links && l.master == m && m != 0
    ensures Reaches(links, gateways, l)
  {
    var p :| p in links && p.index == m && Reaches(links, gateways, p);
    var n: nat :| ReachesIn(links, gateways, p, n);
    assert ReachesIn(links, gateways, l, n + 1);
  }

  lemma {:induction false} ReachedPassesDown(links: seq<Link>, gateways: set<string>, children: map<int, seq<Link>>)
    requires OnlyChildren(links, children)
    ensures PassesDown(children, ReachedIndexes(links, gateways), ReachedNames(links, gateways))
  {
    forall m, l | m in children && m in ReachedIndexes(links, gateways) && l in children[m]
      ensures l.index in ReachedIndexes(links, gateways) && l.name in ReachedNames(links, gateways) {
      ChildReaches(links, gateways, m, l);
    }
  }

  lemma {:induction false} ClosedUnderChildren(links: seq<Link>, gateways: set<string>, all: map<int, seq<Link>>,
                                               left: map<int, seq<Link>>, excluded: set<string>, seeds: seq<int>,
                                               l: Link, n: nat)
    requires IsAdjacency(links, all) && VisitedDone(all, left, excluded, seeds)
    requires forall s :: s in seeds ==> s !in left
    requires forall x :: x in links && x.name in gateways ==> x.index in seeds
    requires gateways <= excluded
    requires ReachesIn(links, gateways, l, n)
    ensures l.name in excluded && l.index in seeds
    decreases n
  {
    if n > 0 {
      var p :| p in links && p.index == l.master && ReachesIn(links, gateways, p, n - 1);
      ClosedUnderChildren(links, gateways, all, left, excluded, seeds, p, n - 1);
      assert l.master in seeds;
      assert l in all[l.master];
    }
  }

  lemma {:induction false} RemoveShrinks<K, V>(m: map<K, V>, k: K)
    requires k in m
    ensures |m - {k}| < |m|
  {
    var rest := m - {k};
    assert rest.Keys == m.Keys - {k};
    assert |rest| == |rest.Keys| && |m| == |m.Keys|;
  }

  lemma {:induction false} VisitedOne(all: map<int, seq<Link>>, left: map<int, seq<Link>>, seed: int,
                                      excluded0: set<string>, seeds0: seq<int>, excluded: set<string>, seeds: seq<int>)
    requires VisitedDone(all, left, excluded0, seeds0) && excluded0 <= excluded && seeds0 <= seeds
    requires seed in left && seed in all
    requires forall l :: l in all[seed] ==> l.name in excluded && l.index in seeds
    ensures VisitedDone(all, left - {seed}, excluded, seeds)
  {
    forall m, l | m in all && m !in left - {seed} && l in all[m] ensures l.name in excluded && l.index in seeds {
      if m != seed {
        assert l.name in excluded0 && l.index in seeds0;
      }
    }
  }

  lemma {:induction false} GatewaysReach(links: seq<Link>, gateways: set<string>, seeds: seq<int>)
    requires forall s :: s in seeds ==> exists l :: l in links && l.index == s && l.name in gateways
    ensures forall s :: s in seeds ==> s in ReachedIndexes(links, gateways)
  {
    forall s | s in seeds ensures s in ReachedIndexes(links, gateways) {
      var l :| l in links && l.index == s && l.name in gateways;
      assert ReachesIn(links, gateways, l, 0);
    }
  }

  /** Once every seed is visited, everything that reaches a gateway is excluded. */
  lemma {:induction false} AllExcluded(links: seq<Link>, gateways: set<string>, all: map<int, seq<Link>>,
                                       left: map<int, seq<Link>>, excluded: set<string>, seeds: seq<int>)
    requires IsAdjacency(links, all) && VisitedDone(all, left, excluded, seeds)
    requires forall s :: s in seeds ==> s !in left
    requires forall x :: x in links && x.name in gateways ==> x.index in seeds
    requires gateways <= excluded
    ensures forall name :: MustExclude(links, gateways, name) ==> name in excluded
  {
    forall name | MustExclude(links, gateways, name) ensures name in excluded {
      if name !in gateways {
        var l :| l in links && l.name == name && Reaches(links, gateways, l);
        var n: nat :| ReachesIn(links, gateways, l, n);
        ClosedUnderChildren(links, gateways, all, left, excluded, seeds, l, n);
      }
    }
  }

  /** getExcludedUplinkInterfaces, on any link table, cyclic ones included. */
  method GetExcludedUplinkInterfaces(links: seq<Link>, gateways: set<string>) returns (excluded: set<string>)
    ensures forall name :: name in excluded <==> MustExclude(links, gateways, name)
  {
    var childrenOf, seeds := BuildAdjacency(links, gateways);
    GatewaysReach(links, gateways, seeds);
    ReachedPassesDown(links, gateways, childrenOf);
    ghost var left, visited;
    excluded, left, visited :=
      VisitBelow(childrenOf, seeds, gateways, ReachedIndexes(links, gateways), ReachedNames(links, gateways));
    AllExcluded(links, gateways, childrenOf, left, excluded, visited);
  }

  /** Its worklist: a breadth-first walk that deletes adjacency entries as it visits them, so it ends
      even where master indexes form a cycle. It stays within any set that passes down, and leaves
      nothing below a seed unvisited. */
  method VisitBelow(all: map<int, seq<Link>>, start: seq<int>, gateways: set<string>,
                    ghost indexes: set<int>, ghost names: set<string>)
    returns (excluded: set<string>, ghost left: map<int, seq<Link>>, ghost visited: seq<int>)
    requires PassesDown(all, indexes, names) && gateways <= names
    requires forall s :: s in start ==> s in indexes
    ensures gateways <= excluded <= names && start <= visited
    ensures VisitedDone(all, left, excluded, visited)
    ensures forall s :: s in visited ==> s !in left
  {
    excluded := gateways;
    var childrenOf, seeds := all, start;
    var i := 0;
    while i < |seeds|
      invariant 0 <= i <= |seeds|
      invariant gateways <= excluded <= names && start <= seeds
      invariant forall s :: s in seeds ==> s in indexes
      invariant forall m :: m in childrenOf ==> m in all && childrenOf[m] == all[m]
      invariant VisitedDone(all, childrenOf, excluded, seeds)
      invariant forall k :: 0 <= k < i ==> seeds[k] !in childrenOf
      decreases |childrenOf|, |seeds| - i
    {
      var seed := seeds[i];
      if seed in childrenOf {
        var children := childrenOf[seed];
        ghost var (before, x, q) := (childrenOf, excluded, seeds);
        childrenOf := childrenOf - {seed};
        RemoveShrinks(before, seed);
        excluded, seeds := Enqueue(children, excluded, seeds, indexes, names);
        VisitedOne(all, before, seed, x, q, excluded, seeds);
      }
      i := i + 1;
    }
    left, visited := childrenOf, seeds;
  }

  /** The inner loop: the children of one visited link are excluded and queued. */
  method Enqueue(children: seq<Link>, excluded0: set<string>, seeds0: seq<int>,
                 ghost indexes: set<int>, ghost names: set<string>)
    returns (excluded: set<string>, seeds: seq<int>)
    requires excluded0 <= names && forall s :: s in seeds0 ==> s in indexes
    requires forall l :: l in children ==> l.index in indexes && l.name in names
    ensures excluded0 <= excluded <= names && seeds0 <= seeds
    ensures forall s :: s in seeds ==> s in indexes
    ensures forall l :: l in children ==> l.name in excluded && l.index in seeds
  {
    excluded, seeds := excluded0, seeds0;
    for i := 0 to |children|
      invariant excluded0 <= excluded <= names && seeds0 <= seeds
      invariant forall s :: s in seeds ==> s in indexes
      invariant forall j :: 0 <= j < i ==> children[j].name in excluded && children[j].index in seeds
    {
      excluded := excluded + {children[i].name};
      seeds := seeds + [children[i].index];
    }
  }

  // Default gateways.

  datatype Family = V4 | V6 | OtherFamily

  /** A route of the main table: whether its destination is a default one, and the name of the
      interface of each of its next hops, if it can be looked up. */
  datatype Route = Route(family: Family, isDefault: bool, metric: int, hops: seq<Option<string>>)

  const MAX_INT32 := 0x7FFF_FFFF

  /** An interface that a default route of the family uses, with its metric. */
  ghost predicate Offers(routes: seq<Route>, f: Family, name: string, metric: int) {
    exists r :: r in routes && r.family == f && r.isDefault && r.metric == metric && Some(name) in r.hops
  }

  /** An interface of a default route of the family with the lowest metric, that metric being at most
      MaxInt32: the scan starts from there, so a higher one never wins. */
  ghost predicate Wins(routes: seq<Route>, f: Family, name: string) {
    exists m :: Offers(routes, f, name, m) && m <= MAX_INT32
                && forall n, k :: Offers(routes, f, n, k) ==> m <= k
  }

  /** The lowest metric so far (or MaxInt32) and the interfaces that have it. */
  datatype Best = Best(metric: int, names: set<string>)

  function Consider(b: Best, name: string, metric: int): Best {
    if metric < b.metric then Best(metric, {name})
    else if metric == b.metric then Best(b.metric, b.names + {name})
    else b
  }

  /** b is what the scan of the routes seen leaves for a family. */
  ghost predicate IsBest(b: Best, seen: seq<Route>, f: Family) {
    && b.metric <= MAX_INT32
    && (forall n, m :: Offers(seen, f, n, m) ==> b.metric <= m)
    && (forall n :: n in b.names <==> Offers(seen, f, n, b.metric))
    && (b.metric < MAX_INT32 ==> exists n :: Offers(seen, f, n, b.metric))
  }

  lemma {:induction false} OffersSnoc(seen: seq<Route>, r: Route, f: Family, name: string, metric: int)
    ensures Offers(seen + [r], f, name, metric) <==>
              || Offers(seen, f, name, metric)
              || (r.family == f && r.isDefault && r.metric == metric && Some(name) in r.hops)
  {
    assert forall x :: x in seen + [r] <==> x in seen || x == r;
  }

  /** A route with one more hop. */
  lemma {:induction false} ConsiderKeepsBest(b: Best, seen: seq<Route>, r: Route, f: Family, hop: Option<string>)
    requires r.isDefault && r.family == f && IsBest(b, seen + [r], f)
    ensures IsBest(if hop.Some? then Consider(b, hop.value, r.metric) else b, seen + [r.(hops := r.hops + [hop])], f)
  {
    var q := r.(hops := r.hops + [hop]);
    forall n, m
      ensures Offers(seen + [q], f, n, m) <==> Offers(seen + [r], f, n, m) || (hop == Some(n) && m == r.metric) {
      OffersSnoc(seen, r, f, n, m);
      OffersSnoc(seen, q, f, n, m);
      assert Some(n) in q.hops <==> Some(n) in r.hops || hop == Some(n);
    }
    if hop.Some? {
      assert Offers(seen + [q], f, hop.value, r.metric);
    }
    assert forall n, m :: Offers(seen + [r], f, n, m) ==> Offers(seen + [q], f, n, m);
  }

  lemma {:induction false} SkippedRouteOffersNothing(b: Best, seen: seq<Route>, r: Route, f: Family)
    requires IsBest(b, seen, f) && (!r.isDefault || r.family != f || r.hops == [])
    ensures IsBest(b, seen + [r], f)
  {
    forall n, m ensures Offers(seen + [r], f, n, m) <==> Offers(seen, f, n, m) {
      OffersSnoc(seen, r, f, n, m);
    }
  }

  method ConsiderHops(b0: Best, ghost seen: seq<Route>, r: Route) returns (b: Best)
    requires r.isDefault && IsBest(b0, seen, r.family)
    ensures IsBest(b, seen + [r], r.family)
  {
    b := b0;
    SkippedRouteOffersNothing(b, seen, r.(hops := []), r.family);
    assert r.hops[..0] == [];
    for i := 0 to |r.hops|
      invariant IsBest(b, seen + [r.(hops := r.hops[..i])], r.family)
    {
      ConsiderKeepsBest(b, seen, r.(hops := r.hops[..i]), r.family, r.hops[i]);
      assert r.hops[..i] + [r.hops[i]] == r.hops[..i + 1];
      if r.hops[i].Some? {
        b := Consider(b, r.hops[i].value, r.metric);
      }
    }
    assert r.hops[..|r.hops|] == r.hops;
  }

  lemma {:induction false} BestWins(b: Best, routes: seq<Route>, f: Family, name: string)
    requires IsBest(b, routes, f)
    ensures name in b.names <==> Wins(routes, f, name)
  {
    if name in b.names {
      assert Offers(routes, f, name, b.metric);
    }
    if m :| Offers(routes, f, name, m) && m <= MAX_INT32 && forall n, k :: Offers(routes, f, n, k) ==> m <= k {
      assert b.metric == m;
    }
  }

  /** getDefaultGwInterfaces: per family, the interfaces of the default routes with the lowest metric. */
  method GetDefaultGwInterfaces(routes: seq<Route>) returns (interfaces: set<string>)
    ensures forall name :: name in interfaces <==> Wins(routes, V4, name) || Wins(routes, V6, name)
  {
    var v4, v6 := Best(MAX_INT32, {}), Best(MAX_INT32, {});
    for i := 0 to |routes|
      invariant IsBest(v4, routes[..i], V4) && IsBest(v6, routes[..i], V6)
    {
      var r := routes[i];
      ghost var seen := routes[..i];
      assert routes[..i + 1] == seen + [r];
      if r.family.OtherFamily? || !r.isDefault {
        SkippedRouteOffersNothing(v4, seen, r, V4);
        SkippedRouteOffersNothing(v6, seen, r, V6);
      } else if r.family.V4? {
        SkippedRouteOffersNothing(v6, seen, r, V6);
        v4 := ConsiderHops(v4, seen, r);
      } else {
        SkippedRouteOffersNothing(v4, seen, r, V4);
        v6 := ConsiderHops(v6, seen, r);
      }
    }
    assert routes[..|routes|] == routes;
    interfaces := v4.names + v6.names;
    forall name ensures name in interfaces <==> Wins(routes, V4, name) || Wins(routes, V6, name) {
      BestWins(v4, routes, V4, name);
      BestWins(v6, routes, V6, name);
    }
  }

  /** Some interface wins for a family that has a default route if and only if one of its default
      routes has a metric of at most MaxInt32. */
  lemma {:induction false} SomeGatewayWinsWhen(routes: seq<Route>, f: Family)
    ensures (exists name :: Wins(routes, f, name)) <==>
            exists name, m :: Offers(routes, f, name, m) && m <= 0x7fff_ffff
  {
    if name, m :| Offers(routes, f, name, m) && m <= MAX_INT32 {
      LowestOffer(routes, f, name, m, routes);
    }
  }

  lemma {:induction false} LowestOffer(routes: seq<Route>, f: Family, name: string, m: int, rest: seq<Route>)
    requires Offers(routes, f, name, m) && m <= MAX_INT32
    requires forall n, k :: Offers(routes, f, n, k) && k < m ==> Offers(rest, f, n, k)
    ensures exists n :: Wins(routes, f, n)
    decreases |rest|
  {
    if n, k :| Offers(routes, f, n, k) && k < m {
      // drop one route that offers k and look for something still lower
      var r :| r in rest && r.family == f && r.isDefault && r.metric == k && Some(n) in r.hops;
      var i :| 0 <= i < |rest| && rest[i] == r;
      var others := rest[..i] + rest[i + 1..];
      forall p, j | Offers(routes, f, p, j) && j < k ensures Offers(others, f, p, j) {
        var q :| q in rest && q.family == f && q.isDefault && q.metric == j && Some(p) in q.hops;
        assert q in others;
      }
      LowestOffer(routes, f, n, k, others);
    } else {
      assert Wins(routes, f, name);
    }
  }
}
