/**
 Merging a cloud provider's network configuration under a user's: each list is the
 provider's followed by the user's, with only the last entry kept for every key.
 */
module ConfigMerge {

  import opened Results
  import opened Sequences

  function Keys<T, K(==)>(s: seq<T>, key: T -> K): set<K> {
    if s == [] then {} else {key(s[0])} + Keys(s[1..], key)
  }

  lemma {:induction false} KeysMembers<T, K>(s: seq<T>, key: T -> K, k: K)
    ensures k in Keys(s, key) <==> exists i :: 0 <= i < |s| && key(s[i]) == k
  {
    if s != [] {
      KeysMembers(s[1..], key, k);
      if k in Keys(s[1..], key) {
        var i :| 0 <= i < |s[1..]| && key(s[1..][i]) == k;
        assert key(s[i + 1]) == k;
      }
      if i :| 0 < i < |s| && key(s[i]) == k {
        assert s[1..][i - 1] == s[i];
      }
    }
  }

  /** Entry i is the last one with its key. */
  predicate IsLast<T, K(==)>(s: seq<T>, key: T -> K, i: nat)
    requires i < |s|
  {
    forall j :: i < j < |s| ==> key(s[j]) != key(s[i])
  }

  /** Keeps, in order, the last entry of every key. */
  function KeepLast<T, K(==)>(s: seq<T>, key: T -> K): seq<T> {
    if s == [] then []
    else if key(s[0]) in Keys(s[1..], key) then KeepLast(s[1..], key)
    else [s[0]] + KeepLast(s[1..], key)
  }

  /** The entries of s whose key is not in ks, in order. */
  function Without<T, K(==)>(s: seq<T>, key: T -> K, ks: set<K>): seq<T> {
    if s == [] then []
    else (if key(s[0]) in ks then [] else [s[0]]) + Without(s[1..], key, ks)
  }

  /** The shared body of the four deduplicate functions: a backward scan with a set of seen keys. */
  method Deduplicate<T, K(==)>(s: seq<T>, key: T -> K) returns (res: seq<T>)
    ensures res == KeepLast(s, key)
  {
    var seen: set<K> := {};
    res := [];
    var i := |s|;
    while i > 0
      invariant 0 <= i <= |s|
      invariant seen == Keys(s[i..], key)
      invariant res == KeepLast(s[i..], key)
    {
      i := i - 1;
      assert s[i..][1..] == s[i + 1..];
      if key(s[i]) !in seen {
        seen := seen + {key(s[i])};
        res := [s[i]] + res;
      }
    }
    assert s[0..] == s;
  }

  lemma {:induction false} KeysConcat<T, K>(a: seq<T>, b: seq<T>, key: T -> K)
    ensures Keys(a + b, key) == Keys(a, key) + Keys(b, key)
  {
    if a == [] {
      assert a + b == b;
    } else {
      assert (a + b)[1..] == a[1..] + b;
      KeysConcat(a[1..], b, key);
    }
  }

  /** The positions from n on, in increasing order, of the entries that are the last of their key. */
  ghost predicate LastPositions<T, K>(s: seq<T>, key: T -> K, n: nat, at: seq<nat>) {
    && (forall k :: 0 <= k < |at| ==> n <= at[k] < |s| && IsLast(s, key, at[k]))
    && (forall k, l :: 0 <= k < l < |at| ==> at[k] < at[l])
    && (forall i :: n <= i < |s| && IsLast(s, key, i) ==> i in at)
  }

  lemma {:induction false} IsLastInSuffix<T, K>(s: seq<T>, key: T -> K, n: nat)
    requires n < |s|
    ensures IsLast(s, key, n) <==> key(s[n]) !in Keys(s[n + 1..], key)
  {
    KeysMembers(s[n + 1..], key, key(s[n]));
    if key(s[n]) in Keys(s[n + 1..], key) {
      var j :| 0 <= j < |s[n + 1..]| && key(s[n + 1..][j]) == key(s[n]);
      assert s[n + 1 + j] == s[n + 1..][j];
    } else {
      forall j | n < j < |s| ensures key(s[j]) != key(s[n]) {
        assert s[n + 1..][j - n - 1] == s[j];
      }
    }
  }

  /** The entries kept of a suffix, and so of a whole list (n = 0), are exactly those that are the
      last of their key, in the original order. */
  lemma {:induction false} KeepsTheLastOfEachKey<T, K>(s: seq<T>, key: T -> K, n: nat) returns (at: seq<nat>)
    requires n <= |s|
    ensures LastPositions(s, key, n, at)
    ensures |KeepLast(s[n..], key)| == |at|
    ensures forall k :: 0 <= k < |at| ==> KeepLast(s[n..], key)[k] == s[at[k]]
    decreases |s| - n
  {
    if n == |s| {
      at := [];
    } else {
      at := KeepsTheLastOfEachKey(s, key, n + 1);
      IsLastInSuffix(s, key, n);
      assert s[n..][1..] == s[n + 1..];
      if IsLast(s, key, n) {
        var rest := at;
        at := [n] + at;
        forall i | n <= i < |s| && IsLast(s, key, i) ensures i in at {
          assert i == n || i in rest;
        }
      }
    }
  }

  /** Deduplication keeps the key set. */
  lemma {:induction false} KeepLastKeys<T, K>(s: seq<T>, key: T -> K)
    ensures Keys(KeepLast(s, key), key) == Keys(s, key)
  {
    if s != [] {
      KeepLastKeys(s[1..], key);
      if key(s[0]) !in Keys(s[1..], key) {
        var r := KeepLast(s, key);
        assert r[1..] == KeepLast(s[1..], key);
      }
    }
  }

  lemma {:induction false} KeepLastCons<T, K>(x: T, s: seq<T>, key: T -> K)
    ensures KeepLast([x] + s, key) == if key(x) in Keys(s, key) then KeepLast(s, key) else [x] + KeepLast(s, key)
  {
    assert ([x] + s)[1..] == s;
  }

  lemma {:induction false} WithoutCons<T, K>(x: T, s: seq<T>, key: T -> K, ks: set<K>)
    ensures Without([x] + s, key, ks) == if key(x) in ks then Without(s, key, ks) else [x] + Without(s, key, ks)
  {
    assert ([x] + s)[1..] == s;
  }

  /** "User wins": the deduplicated provider entries whose keys the user lacks, then the user's own. */
  lemma {:induction false} UserWins<T, K>(cloud: seq<T>, user: seq<T>, key: T -> K)
    ensures KeepLast(cloud + user, key) == Without(KeepLast(cloud, key), key, Keys(user, key)) + KeepLast(user, key)
  {
    if cloud == [] {
      assert cloud + user == user;
    } else {
      var (c, rest) := (cloud[0], cloud[1..]);
      UserWins(rest, user, key);
      UserWinsStep(c, rest, user, key);
      assert cloud == [c] + rest && cloud + user == [c] + (rest + user);
    }
  }

  lemma {:induction false} UserWinsStep<T, K>(c: T, rest: seq<T>, user: seq<T>, key: T -> K)
    requires KeepLast(rest + user, key) == Without(KeepLast(rest, key), key, Keys(user, key)) + KeepLast(user, key)
    ensures KeepLast([c] + (rest + user), key)
         == Without(KeepLast([c] + rest, key), key, Keys(user, key)) + KeepLast(user, key)
  {
    var (kept, mine) := (KeepLast(rest, key), KeepLast(user, key));
    var ks := Keys(user, key);
    KeysConcat(rest, user, key);
    KeepLastCons(c, rest + user, key);
    KeepLastCons(c, rest, key);
    WithoutCons(c, kept, key, ks);
    Regroup([c], Without(kept, key, ks), mine);
  }

  lemma {:induction false} KeepLastIdempotent<T, K>(s: seq<T>, key: T -> K)
    ensures KeepLast(KeepLast(s, key), key) == KeepLast(s, key)
  {
    if s != [] {
      KeepLastIdempotent(s[1..], key);
      if key(s[0]) !in Keys(s[1..], key) {
        var r := KeepLast(s, key);
        assert r[1..] == KeepLast(s[1..], key);
        KeepLastKeys(s[1..], key);
      }
    }
  }

  /** Deduplicating an inner layer first changes nothing: layers associate. */
  lemma {:induction false} NestedMergeIsFlat<T, K>(outer: seq<T>, inner: seq<T>, key: T -> K)
    ensures KeepLast(outer + KeepLast(inner, key), key) == KeepLast(outer + inner, key)
  {
    UserWins(outer, KeepLast(inner, key), key);
    UserWins(outer, inner, key);
    KeepLastKeys(inner, key);
    KeepLastIdempotent(inner, key);
  }

  // The lists of a network configuration and their keys.

  datatype Route = Route(destination: string, table: int, gateway: string, source: string, scope: int)
  datatype Rule = Rule(priority: int, source: string, destination: string, table: int)
  datatype Neighbor = Neighbor(destination: string, hardwareAddr: string)

  datatype Lists = Lists(addresses: seq<string>, routes: seq<Route>, rules: seq<Rule>, neighbors: seq<Neighbor>)

  function RouteKey(r: Route): (string, int) { (r.destination, r.table) }

  function NeighborKey(n: Neighbor): string { n.destination }

  function Dedup(l: Lists): Lists {
    Lists(KeepLast(l.addresses, (s: string) => s), KeepLast(l.routes, RouteKey),
          KeepLast(l.rules, (r: Rule) => r), KeepLast(l.neighbors, NeighborKey))
  }

  function Concat(a: Lists, b: Lists): Lists {
    Lists(a.addresses + b.addresses, a.routes + b.routes, a.rules + b.rules, a.neighbors + b.neighbors)
  }

  /** The list part of MergeNetworkConfig: without a provider configuration the user's lists are
      copied as they are, duplicates included. */
  function Merge(user: Lists, cloud: Option<Lists>): Lists {
    if cloud.None? then user else Dedup(Concat(cloud.value, user))
  }

  method MergeLists(user: Lists, cloud: Option<Lists>) returns (merged: Lists)
    ensures merged == Merge(user, cloud)
  {
    if cloud.None? {
      return user;
    }
    var both := Concat(cloud.value, user);
    var addresses := Deduplicate(both.addresses, (s: string) => s);
    var routes := Deduplicate(both.routes, RouteKey);
    var rules := Deduplicate(both.rules, (r: Rule) => r);
    var neighbors := Deduplicate(both.neighbors, NeighborKey);
    return Lists(addresses, routes, rules, neighbors);
  }

  const EMPTY := Lists([], [], [], [])

  function OrEmpty(l: Option<Lists>): Lists {
    if l.None? then EMPTY else l.value
  }

  lemma {:induction false} NestedListsAreFlat(outer: Lists, inner: Lists)
    ensures Dedup(Concat(outer, Dedup(inner))) == Dedup(Concat(outer, inner))
  {
    NestedMergeIsFlat(outer.addresses, inner.addresses, (s: string) => s);
    NestedMergeIsFlat(outer.routes, inner.routes, RouteKey);
    NestedMergeIsFlat(outer.rules, inner.rules, (r: Rule) => r);
    NestedMergeIsFlat(outer.neighbors, inner.neighbors, NeighborKey);
  }

  /** The configuration a device ends up with (the provider's configuration under the user's, then
      the profile's under both) has the lists of one flat merge, if and only if some layer below
      the user's is present or the user's own lists hold no duplicate keys. */
  lemma {:induction false} LayeredMergeIsFlat(user: Lists, cloud: Option<Lists>, profile: Option<Lists>)
    ensures Merge(Merge(user, cloud), profile) == Dedup(Concat(OrEmpty(profile), Concat(OrEmpty(cloud), user)))
       <==> cloud.Some? || profile.Some? || Dedup(user) == user
  {
    var (c, p) := (OrEmpty(cloud), OrEmpty(profile));
    assert Concat(EMPTY, user) == user;
    assert Concat(EMPTY, Concat(c, user)) == Concat(c, user);
    NestedListsAreFlat(p, Concat(c, user));
  }

  // What ends up in the merged lists, without keys.

  /** An entry is kept exactly when it stands somewhere with no entry of its key behind it. */
  lemma {:induction false} KeptWhen<T, K>(s: seq<T>, key: T -> K, x: T)
    ensures x in KeepLast(s, key) <==> exists i :: 0 <= i < |s| && s[i] == x && IsLast(s, key, i)
  {
    var at := KeepsTheLastOfEachKey(s, key, 0);
    assert s[0..] == s;
    if x in KeepLast(s, key) {
      var k :| 0 <= k < |KeepLast(s, key)| && KeepLast(s, key)[k] == x;
      assert s[at[k]] == x && IsLast(s, key, at[k]);
    }
    if i :| 0 <= i < |s| && s[i] == x && IsLast(s, key, i) {
      var k :| 0 <= k < |at| && at[k] == i;
      assert KeepLast(s, key)[k] == x;
    }
  }

  /** No two kept entries share a key. */
  lemma {:induction false} KeptOnce<T, K>(s: seq<T>, key: T -> K, i: nat, j: nat)
    requires i < j < |KeepLast(s, key)|
    ensures key(KeepLast(s, key)[i]) != key(KeepLast(s, key)[j])
  {
    var at := KeepsTheLastOfEachKey(s, key, 0);
    assert s[0..] == s;
    assert IsLast(s, key, at[i]) && at[i] < at[j];
  }

  /** With a provider layer, a route is in the merged list exactly when it stands in the provider's list followed by
      the user's with no route to the same destination in the same table behind it; a neighbor, with no neighbor
      for the same destination; an address or a rule, if it is in either list. */
  lemma {:induction false} MergedHolds(user: Lists, cloud: Lists, r: Route, n: Neighbor, a: string, u: Rule)
    ensures var (m, all) := (Merge(user, Some(cloud)), cloud.routes + user.routes);
            r in m.routes <==>
              exists i :: && 0 <= i < |all| && all[i] == r
                          && forall j :: i < j < |all| ==>
                               !(all[j].destination == r.destination && all[j].table == r.table)
    ensures var (m, all) := (Merge(user, Some(cloud)), cloud.neighbors + user.neighbors);
            n in m.neighbors <==>
              exists i :: && 0 <= i < |all| && all[i] == n
                          && forall j :: i < j < |all| ==> all[j].destination != n.destination
    ensures a in Merge(user, Some(cloud)).addresses <==> a in cloud.addresses || a in user.addresses
    ensures u in Merge(user, Some(cloud)).rules <==> u in cloud.rules || u in user.rules
  {
    RoutesHold(cloud.routes + user.routes, r);
    NeighborsHold(cloud.neighbors + user.neighbors, n);
    SameKept(cloud.addresses + user.addresses, (s: string) => s, a);
    SameKept(cloud.rules + user.rules, (x: Rule) => x, u);
  }

  lemma {:induction false} RoutesHold(all: seq<Route>, r: Route)
    ensures r in KeepLast(all, RouteKey) <==>
              exists i :: && 0 <= i < |all| && all[i] == r
                          && forall j :: i < j < |all| ==>
                               !(all[j].destination == r.destination && all[j].table == r.table)
  {
    KeptWhen(all, RouteKey, r);
    forall i | 0 <= i < |all| && all[i] == r
      ensures IsLast(all, RouteKey, i) <==>
                forall j :: i < j < |all| ==> !(all[j].destination == r.destination && all[j].table == r.table) {
      assert forall j :: i < j < |all| ==>
        (RouteKey(all[j]) == RouteKey(all[i]) <==> all[j].destination == r.destination && all[j].table == r.table);
    }
  }

  lemma {:induction false} NeighborsHold(all: seq<Neighbor>, n: Neighbor)
    ensures n in KeepLast(all, NeighborKey) <==>
              exists i :: && 0 <= i < |all| && all[i] == n
                          && forall j :: i < j < |all| ==> all[j].destination != n.destination
  {
    KeptWhen(all, NeighborKey, n);
    forall i | 0 <= i < |all| && all[i] == n
      ensures IsLast(all, NeighborKey, i) <==> forall j :: i < j < |all| ==> all[j].destination != n.destination {
      assert forall j :: i < j < |all| ==>
        (NeighborKey(all[j]) == NeighborKey(all[i]) <==> all[j].destination == n.destination);
    }
  }

  /** Keyed by itself, every entry is kept. */
  lemma {:induction false} SameKept<T>(s: seq<T>, id: T -> T, x: T)
    requires forall y :: id(y) == y
    ensures x in KeepLast(s, id) <==> x in s
  {
    var kept := KeepLast(s, id);
    KeepLastKeys(s, id);
    KeysMembers(s, id, x);
    KeysMembers(kept, id, x);
    MemberById(s, id, x);
    MemberById(kept, id, x);
  }

  lemma {:induction false} MemberById<T>(s: seq<T>, id: T -> T, x: T)
    requires forall y :: id(y) == y
    ensures (exists i :: 0 <= i < |s| && id(s[i]) == x) <==> x in s
  {
    if x in s {
      var i :| 0 <= i < |s| && s[i] == x;
      assert id(s[i]) == x;
    }
  }
}
