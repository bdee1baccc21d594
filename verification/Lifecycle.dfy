/**
 The claim lifecycle as a state machine over the allocator, the in-memory store and the
 checkpoint, with a crash possible between any two steps. A preparation resolves its
 profile (which takes addresses), then either aborts and gives them back or writes the
 checkpoint and then memory; an unpreparation releases the claim's devices one by one,
 then drops the pods that use the claim; a restart reloads memory from the checkpoint
 and reseeds the allocator from memory.
 */
module Lifecycle {
  import opened LocalIpam
  import opened PodConfigs
  import ConfigMerge

  /** A configuration whose addresses the provider's allocator manages. */
  predicate Managed(c: NetConf) {
    c.profile != "" && c.subinterface
  }

  /** The addresses ReleaseProfileConfig takes out of the allocator for a configuration. */
  function Released(c: NetConf): set<Addr> {
    if Managed(c) then AddrsOf(c.addresses) else {}
  }

  /** A provider's answer to a profile request: no configuration, or one with these addresses. */
  datatype Profile = NoConf | Conf(addresses: seq<CidrText>)

  /** The addresses a successful profile request put in the allocator. A device the provider does
      not recognise gets none. */
  function Acquired(merged: NetConf, recognised: bool, profile: Profile): seq<CidrText> {
    if !Managed(merged) || !recognised then []
    else if merged.addresses != [] then merged.addresses
    else if profile.Conf? then profile.addresses
    else []
  }

  /** A managed device with addresses that the provider does not recognise. */
  predicate Foreign(merged: NetConf, recognised: bool) {
    Managed(merged) && !recognised && merged.addresses != []
  }

  /** The answers a provider can give while the allocator holds used. */
  ghost predicate Answer(used: set<Addr>, merged: NetConf, recognised: bool, profile: Profile) {
    var got := Acquired(merged, recognised, profile);
    if Managed(merged) && recognised then
      && (forall t :: t in got ==> t.Cidr?)
      && AddrsOf(got) !! used
      && (if merged.addresses != [] then profile.Conf? ==> profile.addresses == [] else profile.Conf?)
    else profile.NoConf?
  }

  /** The configuration with the profile's merged under it. */
  function Effective(merged: NetConf, profile: Profile): NetConf {
    if profile.NoConf? then merged
    else merged.(addresses := ConfigMerge.KeepLast(profile.addresses + merged.addresses, (t: CidrText) => t))
  }

  /** What may be stored for a resolved configuration: a subinterface's is stored as resolved and
      never uses DHCP; a passthrough interface may gain or change addresses. */
  predicate Storable(netconf: NetConf, stored: NetConf) {
    && stored.profile == netconf.profile
    && stored.subinterface == netconf.subinterface
    && (netconf.subinterface ==> stored == netconf && !netconf.dhcp)
  }

  datatype Job =
    | Idle
    | Resolved(uid: string, dev: string, claim: string, netconf: NetConf)
    | Checkpointed(uid: string, dev: string, cfg: DeviceConfig)
    | Releasing(claim: string, done: set<(string, string)>)
    | Dropping(claim: string)

  /** What has happened so far: a checkpoint delete failed; an unrecognised managed device with
      addresses was prepared; a pod got devices of two claims; a subinterface with addresses was
      stored without a profile. */
  datatype History = History(deleteFailed: bool, foreign: bool, mixed: bool, bare: bool)

  datatype State = State(ipam: set<Addr>, memory: Pods, disk: Pods, job: Job, history: History)

  datatype Action =
    | Resolve(uid: string, dev: string, claim: string, merged: NetConf, recognised: bool, profile: Profile)
    | Abort
    | WriteCheckpoint(stored: NetConf)
    | WriteMemory
    | BeginUnprepare(claim: string)
    | ReleaseDevice(uid: string, dev: string)
    | BeginDrop
    | DropPod(uid: string, deleted: bool)
    | EndUnprepare
    | Crash

  predicate OfClaim(p: Pods, uid: string, dev: string, claim: string) {
    Has(p, uid, dev) && p[uid][dev].claim == claim
  }

  /** Pods as a start loads them: without those that hold no device. */
  function Loaded(disk: Pods): Pods {
    map uid | uid in disk && disk[uid] != map[] :: disk[uid]
  }

  ghost predicate Enabled(s: State, a: Action) {
    match a
    case Resolve(uid, dev, _, merged, recognised, profile) =>
      s.job.Idle? && !Has(s.memory, uid, dev) && Answer(s.ipam, merged, recognised, profile)
    case Abort => s.job.Resolved?
    case WriteCheckpoint(stored) => s.job.Resolved? && Storable(s.job.netconf, stored)
    case WriteMemory => s.job.Checkpointed?
    case BeginUnprepare(_) => s.job.Idle?
    case ReleaseDevice(uid, dev) =>
      s.job.Releasing? && OfClaim(s.memory, uid, dev, s.job.claim) && (uid, dev) !in s.job.done
    case BeginDrop =>
      s.job.Releasing? && forall uid, dev :: OfClaim(s.memory, uid, dev, s.job.claim) ==> (uid, dev) in s.job.done
    case DropPod(uid, _) => s.job.Dropping? && uid in PodsOfClaim(s.memory, s.job.claim)
    case EndUnprepare => s.job.Dropping? && PodsOfClaim(s.memory, s.job.claim) == {}
    case Crash => true
  }

  function Next(s: State, a: Action): State
    requires Enabled(s, a)
  {
    match a
    case Resolve(uid, dev, claim, merged, recognised, profile) =>
      s.(ipam := s.ipam + AddrsOf(Acquired(merged, recognised, profile)),
         job := Resolved(uid, dev, claim, Effective(merged, profile)),
         history := s.history.(foreign := s.history.foreign || Foreign(merged, recognised)))
    case Abort => s.(ipam := s.ipam - Released(s.job.netconf), job := Idle)
    case WriteCheckpoint(stored) =>
      var cfg := DeviceConfig(s.job.claim, stored);
      s.(disk := Put(s.disk, s.job.uid, s.job.dev, cfg),
         job := Checkpointed(s.job.uid, s.job.dev, cfg),
         history := s.history.(
           mixed := s.history.mixed || (s.job.uid in s.memory && exists d ::
             d in s.memory[s.job.uid] && s.memory[s.job.uid][d].claim != s.job.claim),
           bare := s.history.bare || (stored.subinterface && stored.profile == "" && stored.addresses != [])))
    case WriteMemory => s.(memory := Put(s.memory, s.job.uid, s.job.dev, s.job.cfg), job := Idle)
    case BeginUnprepare(claim) => s.(job := Releasing(claim, {}))
    case ReleaseDevice(uid, dev) =>
      s.(ipam := s.ipam - Released(s.memory[uid][dev].conf), job := Releasing(s.job.claim, s.job.done + {(uid, dev)}))
    case BeginDrop => s.(job := Dropping(s.job.claim))
    case DropPod(uid, deleted) =>
      s.(memory := s.memory - {uid}, disk := if deleted then s.disk - {uid} else s.disk,
         history := s.history.(deleteFailed := s.history.deleteFailed || !deleted))
    case EndUnprepare => s.(job := Idle)
    case Crash => s.(memory := Loaded(s.disk), ipam := PodsAddrs(Loaded(s.disk)), job := Idle)
  }

  const CLEAN := History(false, false, false, false)

  const INITIAL := State({}, map[], map[], Idle, CLEAN)

  /** The actions lead from s to t, each of them enabled where it is taken. */
  ghost predicate RunsTo(s: State, acts: seq<Action>, t: State)
    decreases |acts|
  {
    if acts == [] then s == t
    else Enabled(s, acts[0]) && RunsTo(Next(s, acts[0]), acts[1..], t)
  }

  lemma {:induction false} RunExtends(s: State, acts: seq<Action>, t: State, a: Action)
    requires RunsTo(s, acts, t) && Enabled(t, a)
    ensures RunsTo(s, acts + [a], Next(t, a))
    decreases |acts|
  {
    if acts == [] {
      assert [a][1..] == [];
    } else {
      RunExtends(Next(s, acts[0]), acts[1..], t, a);
      assert (acts + [a])[1..] == acts[1..] + [a];
    }
  }

  lemma {:induction false} RunsCompose(s: State, xs: seq<Action>, t: State, ys: seq<Action>, u: State)
    requires RunsTo(s, xs, t) && RunsTo(t, ys, u)
    ensures RunsTo(s, xs + ys, u)
    decreases |xs|
  {
    if xs == [] {
      assert xs + ys == ys;
    } else {
      RunsCompose(Next(s, xs[0]), xs[1..], t, ys, u);
      assert (xs + ys)[1..] == xs[1..] + ys;
    }
  }

  // What every step keeps.

  /** A stored configuration holds an address it got from the allocator. */
  predicate Holds(p: Pods, uid: string, dev: string, a: Addr) {
    Has(p, uid, dev) && a in Released(p[uid][dev].conf)
  }

  /** A resolved but not yet stored configuration holds an address. */
  predicate Pending(s: State, a: Addr) {
    s.job.Resolved? && a in Released(s.job.netconf)
  }

  /** The unpreparation under way has already given back this device's addresses. */
  predicate Freed(s: State, uid: string, dev: string) {
    || (s.job.Releasing? && (uid, dev) in s.job.done)
    || (s.job.Dropping? && OfClaim(s.memory, uid, dev, s.job.claim))
  }

  ghost predicate Owned(s: State, a: Addr) {
    Pending(s, a) || exists uid, dev :: Holds(s.disk, uid, dev, a) && !Freed(s, uid, dev)
  }

  /** Whatever fails: every configuration in memory is on disk, unchanged. */
  ghost predicate Durable(s: State) {
    && Within(s.memory, s.disk)
    && NoEmptyPods(s.memory)
    && (s.job.Resolved? ==> !Has(s.memory, s.job.uid, s.job.dev))
    && (s.job.Checkpointed? ==>
          && !Has(s.memory, s.job.uid, s.job.dev)
          && Has(s.disk, s.job.uid, s.job.dev) && s.disk[s.job.uid][s.job.dev] == s.job.cfg)
    && (s.job.Releasing? ==> forall x :: x in s.job.done ==> OfClaim(s.memory, x.0, x.1, s.job.claim))
  }

  /** While no delete has failed: memory and disk are equal, but for a write under way. */
  ghost predicate Synced(s: State) {
    s.disk == if s.job.Checkpointed? then Put(s.memory, s.job.uid, s.job.dev, s.job.cfg) else s.memory
  }

  /** No address is held twice, and the allocator knows every address that is held. */
  ghost predicate Exclusive(s: State) {
    && (forall u, d, v, e, a :: Holds(s.disk, u, d, a) && Holds(s.disk, v, e, a) ==> u == v && d == e)
    && (forall u, d, a :: Holds(s.disk, u, d, a) ==> !Pending(s, a))
    && (forall a :: Owned(s, a) ==> a in s.ipam)
  }

  ghost predicate OneClaimPerPod(p: Pods) {
    forall u, d, e :: Has(p, u, d) && Has(p, u, e) ==> p[u][d].claim == p[u][e].claim
  }

  /** Every stored subinterface address came through a profile. */
  ghost predicate AllThroughProfiles(p: Pods) {
    forall u, d :: Has(p, u, d) ==> SubAddrs(p[u][d]) == Released(p[u][d].conf)
  }

  /** The allocator knows nothing else, so no address is lost. */
  ghost predicate Tight(s: State) {
    && (forall a :: a in s.ipam ==> Owned(s, a))
    && OneClaimPerPod(s.disk)
    && AllThroughProfiles(s.disk)
  }

  ghost predicate Inv(s: State) {
    && Durable(s)
    && (!s.history.deleteFailed ==> Synced(s))
    && (!s.history.deleteFailed && !s.history.foreign ==> Exclusive(s))
    && (s.history == CLEAN ==> Tight(s))
  }

  lemma {:induction false} KeepLastSameAddrs(s: seq<CidrText>)
    ensures AddrsOf(ConfigMerge.KeepLast(s, (t: CidrText) => t)) == AddrsOf(s)
  {
    var id := (t: CidrText) => t;
    var kept := ConfigMerge.KeepLast(s, id);
    ConfigMerge.KeepLastKeys(s, id);
    forall t: CidrText ensures t in kept <==> t in s {
      ConfigMerge.KeysMembers(kept, id, t);
      ConfigMerge.KeysMembers(s, id, t);
      assert (exists i :: 0 <= i < |s| && id(s[i]) == t) <==> t in s;
      assert (exists i :: 0 <= i < |kept| && id(kept[i]) == t) <==> t in kept;
    }
  }

  /** The allocator after a rollback: a foreign device's addresses are released though never taken. */
  function RolledBack(used: set<Addr>, merged: NetConf, recognised: bool): set<Addr> {
    if Foreign(merged, recognised) then used - AddrsOf(merged.addresses) else used
  }

  /** A resolved configuration releases exactly what resolving it acquired, unless it is foreign. */
  lemma {:induction false} ResolvedHoldsAcquired(merged: NetConf, recognised: bool, profile: Profile, used: set<Addr>)
    requires Answer(used, merged, recognised, profile)
    requires !Foreign(merged, recognised)
    ensures Released(Effective(merged, profile)) == AddrsOf(Acquired(merged, recognised, profile))
  {
    if profile.Conf? {
      KeepLastSameAddrs(profile.addresses + merged.addresses);
      assert profile.addresses + [] == profile.addresses;
      assert [] + merged.addresses == merged.addresses;
    }
  }

  lemma {:induction false} RollbackValue(merged: NetConf, recognised: bool, profile: Profile, used: set<Addr>)
    requires Answer(used, merged, recognised, profile)
    ensures used + AddrsOf(Acquired(merged, recognised, profile)) - Released(Effective(merged, profile))
         == RolledBack(used, merged, recognised)
  {
    if !Foreign(merged, recognised) {
      ResolvedHoldsAcquired(merged, recognised, profile, used);
    }
  }

  lemma {:induction false} WriteKeepsDurable(s: State, a: Action)
    requires Durable(s) && Enabled(s, a) && (a.WriteCheckpoint? || a.WriteMemory?)
    ensures Durable(Next(s, a))
  {
  }

  lemma {:induction false} DropKeepsDurable(s: State, a: Action)
    requires Durable(s) && Enabled(s, a) && (a.DropPod? || a.Crash?)
    ensures Durable(Next(s, a))
  {
  }

  lemma {:induction false} StepKeepsDurable(s: State, a: Action)
    requires Durable(s) && Enabled(s, a)
    ensures Durable(Next(s, a))
  {
    if a.WriteCheckpoint? || a.WriteMemory? {
      WriteKeepsDurable(s, a);
    } else if a.DropPod? || a.Crash? {
      DropKeepsDurable(s, a);
    } else {
      assert Next(s, a).memory == s.memory && Next(s, a).disk == s.disk;
    }
  }

  lemma {:induction false} StepKeepsSynced(s: State, a: Action)
    requires Durable(s) && Synced(s) && Enabled(s, a)
    requires !Next(s, a).history.deleteFailed
    ensures Synced(Next(s, a))
  {
    if a.Crash? {
      assert NoEmptyPods(s.disk);
      assert Loaded(s.disk) == s.disk;
    }
  }

  /** Writing the resolved configuration to disk moves its addresses from pending to stored. */
  lemma {:induction false} CheckpointMovesPending(s: State, stored: NetConf, u: string, d: string, a: Addr)
    requires Enabled(s, WriteCheckpoint(stored))
    ensures Holds(Next(s, WriteCheckpoint(stored)).disk, u, d, a)
       <==> if (u, d) == (s.job.uid, s.job.dev) then Pending(s, a) else Holds(s.disk, u, d, a)
  {
  }

  lemma {:induction false} ResolveKeepsExclusive(s: State, a: Action)
    requires Exclusive(s) && a.Resolve? && Enabled(s, a) && Calm(a)
    ensures Exclusive(Next(s, a))
  {
    var t := Next(s, a);
    ResolvedHoldsAcquired(a.merged, a.recognised, a.profile, s.ipam);
    forall u, d, x | Holds(s.disk, u, d, x) ensures x in s.ipam {
      assert !Freed(s, u, d);
      assert Owned(s, x);
    }
    forall x | Owned(t, x) ensures x in t.ipam {
      if !Pending(t, x) {
        var u, d :| Holds(t.disk, u, d, x) && !Freed(t, u, d);
      }
    }
  }

  lemma {:induction false} CheckpointKeepsExclusive(s: State, stored: NetConf)
    requires Exclusive(s) && Enabled(s, WriteCheckpoint(stored))
    ensures Exclusive(Next(s, WriteCheckpoint(stored)))
  {
    var t := Next(s, WriteCheckpoint(stored));
    forall u, d, x ensures Holds(t.disk, u, d, x)
        <==> if (u, d) == (s.job.uid, s.job.dev) then Pending(s, x) else Holds(s.disk, u, d, x) {
      CheckpointMovesPending(s, stored, u, d, x);
    }
    forall x | Owned(t, x) ensures x in t.ipam {
      var u, d :| Holds(t.disk, u, d, x) && !Freed(t, u, d);
      assert Pending(s, x) || (Holds(s.disk, u, d, x) && !Freed(s, u, d));
      assert Owned(s, x);
    }
  }

  /** A step that stores nothing and takes no address keeps exclusivity if the allocator still
      knows every address that is held. */
  lemma {:induction false} SubstateKeepsExclusive(s: State, t: State)
    requires Exclusive(s) && !t.job.Resolved?
    requires forall u, d, x :: Holds(t.disk, u, d, x) ==> Holds(s.disk, u, d, x)
    requires forall u, d, x :: Holds(t.disk, u, d, x) && !Freed(t, u, d) ==> x in t.ipam
    ensures Exclusive(t)
  {
  }

  /** A step that is neither a failed delete nor the preparation of a foreign device. */
  predicate Calm(a: Action) {
    !(a.DropPod? && !a.deleted) && !(a.Resolve? && Foreign(a.merged, a.recognised))
  }

  /** Exclusivity is kept by every calm step, whatever happened before. */
  lemma {:induction false} StepKeepsExclusive(s: State, a: Action)
    requires Durable(s) && Exclusive(s) && Enabled(s, a) && Calm(a)
    ensures Exclusive(Next(s, a))
  {
    var t := Next(s, a);
    if a.Resolve? {
      ResolveKeepsExclusive(s, a);
    } else if a.WriteCheckpoint? {
      CheckpointKeepsExclusive(s, a.stored);
    } else {
      forall u, d, x | Holds(t.disk, u, d, x) ensures Holds(s.disk, u, d, x) {
      }
      forall u, d, x | Holds(t.disk, u, d, x) && !Freed(t, u, d) ensures x in t.ipam {
        if a.Crash? {
          StoredAddrsSeed(s.disk, u, d, x);
        } else {
          HeldStaysKnown(s, a, u, d, x);
        }
      }
      SubstateKeepsExclusive(s, t);
    }
  }

  lemma {:induction false} ClaimPod(p: Pods, u: string, d: string, claim: string)
    ensures OfClaim(p, u, d, claim) ==> u in PodsOfClaim(p, claim)
  {
  }

  lemma {:induction false} HeldStaysKnown(s: State, a: Action, u: string, d: string, x: Addr)
    requires Durable(s) && Exclusive(s) && Enabled(s, a) && Calm(a)
    requires !a.Resolve? && !a.WriteCheckpoint? && !a.Crash?
    requires Holds(Next(s, a).disk, u, d, x) && !Freed(Next(s, a), u, d)
    ensures x in Next(s, a).ipam
  {
    if a.ReleaseDevice? {
      ReleasedIsFreed(s, a, u, d, x);
    } else {
      HeldBefore(s, a, u, d, x);
      assert Owned(s, x);
    }
  }

  lemma {:induction false} HeldBefore(s: State, a: Action, u: string, d: string, x: Addr)
    requires Durable(s) && Enabled(s, a) && Calm(a)
    requires !a.Resolve? && !a.WriteCheckpoint? && !a.Crash? && !a.ReleaseDevice?
    requires Holds(Next(s, a).disk, u, d, x) && !Freed(Next(s, a), u, d)
    ensures Holds(s.disk, u, d, x) && !Freed(s, u, d)
  {
    if a.EndUnprepare? {
      ClaimPod(s.memory, u, d, s.job.claim);
    }
  }

  /** Releasing a device takes from the allocator only what that device holds. */
  lemma {:induction false} ReleasedIsFreed(s: State, a: Action, u: string, d: string, x: Addr)
    requires Durable(s) && Exclusive(s) && a.ReleaseDevice? && Enabled(s, a)
    requires Holds(s.disk, u, d, x) && !Freed(Next(s, a), u, d)
    ensures x in Next(s, a).ipam
  {
    assert !Freed(s, u, d);
    assert Owned(s, x);
    assert Holds(s.disk, a.uid, a.dev, x) == (x in Released(s.memory[a.uid][a.dev].conf));
  }

  /** Reseeding covers every address a stored subinterface has. */
  lemma {:induction false} SubAddrsSeed(disk: Pods, u: string, d: string, a: Addr)
    requires Has(disk, u, d) && a in SubAddrs(disk[u][d])
    ensures a in PodsAddrs(Loaded(disk))
  {
    assert disk[u] != map[];
    assert a in SubAddrs(Loaded(disk)[u][d]);
    assert a in DevicesAddrs(Loaded(disk)[u]);
  }

  lemma {:induction false} StoredAddrsSeed(disk: Pods, u: string, d: string, a: Addr)
    requires Holds(disk, u, d, a)
    ensures a in PodsAddrs(Loaded(disk))
  {
    SubAddrsSeed(disk, u, d, a);
  }

  lemma {:induction false} SeedIsStored(disk: Pods, a: Addr) returns (u: string, d: string)
    requires a in PodsAddrs(Loaded(disk))
    ensures Has(disk, u, d) && a in SubAddrs(disk[u][d])
  {
    u :| u in Loaded(disk) && a in DevicesAddrs(Loaded(disk)[u]);
    d :| d in Loaded(disk)[u] && a in SubAddrs(Loaded(disk)[u][d]);
  }

  /** With one claim per pod, a dropped pod holds only devices already released. */
  lemma {:induction false} DroppedPodHeldNothing(s: State, uid: string, u: string, d: string)
    requires Synced(s) && OneClaimPerPod(s.disk) && Enabled(s, DropPod(uid, true))
    requires Has(s.disk, u, d) && !Freed(s, u, d)
    ensures u != uid
  {
    var e :| e in s.memory[uid] && s.memory[uid][e].claim == s.job.claim;
    assert Has(s.disk, uid, e);
  }

  /** A step that does not take x from the allocator leaves it with the configuration that holds it. */
  lemma {:induction false} HolderStays(s: State, a: Action, u: string, d: string, x: Addr)
    requires Durable(s) && Synced(s) && OneClaimPerPod(s.disk) && Enabled(s, a) && !a.Crash?
    requires !Next(s, a).history.deleteFailed
    requires x in Next(s, a).ipam && Holds(s.disk, u, d, x) && !Freed(s, u, d)
    ensures Holds(Next(s, a).disk, u, d, x) && !Freed(Next(s, a), u, d)
  {
    if a.DropPod? {
      DropKeepsHolder(s, a, u, d, x);
    } else if a.WriteCheckpoint? {
      CheckpointMovesPending(s, a.stored, u, d, x);
    } else {
      NothingFreed(s, a, u, d, x);
    }
  }

  lemma {:induction false} DropKeepsHolder(s: State, a: Action, u: string, d: string, x: Addr)
    requires Synced(s) && OneClaimPerPod(s.disk) && Enabled(s, a) && a.DropPod?
    requires Holds(s.disk, u, d, x) && !Freed(s, u, d)
    ensures Holds(Next(s, a).disk, u, d, x) && !Freed(Next(s, a), u, d)
  {
    DroppedPodHeldNothing(s, a.uid, u, d);
  }

  /** Only a release frees a device, and then its addresses leave the allocator. */
  lemma {:induction false} NothingFreed(s: State, a: Action, u: string, d: string, x: Addr)
    requires Durable(s) && Synced(s) && Enabled(s, a) && !a.Crash? && !a.DropPod? && !a.WriteCheckpoint?
    requires x in Next(s, a).ipam && Holds(s.disk, u, d, x) && !Freed(s, u, d)
    ensures Next(s, a).disk == s.disk && !Freed(Next(s, a), u, d)
  {
  }

  lemma {:induction false} PendingStaysHeld(s: State, a: Action, x: Addr)
    requires Enabled(s, a) && !a.Crash? && Pending(s, x) && x in Next(s, a).ipam
    ensures Owned(Next(s, a), x)
  {
    var t := Next(s, a);
    assert a.WriteCheckpoint?;
    CheckpointMovesPending(s, a.stored, s.job.uid, s.job.dev, x);
    assert !Freed(t, s.job.uid, s.job.dev);
  }

  lemma {:induction false} SeedIsOwned(s: State, x: Addr)
    requires AllThroughProfiles(s.disk) && x in Next(s, Crash).ipam
    ensures Owned(Next(s, Crash), x)
  {
    var u, d := SeedIsStored(s.disk, x);
    assert Holds(Next(s, Crash).disk, u, d, x) && !Freed(Next(s, Crash), u, d);
  }

  /** An address the allocator keeps through a step stays owned. */
  lemma {:induction false} KnownStaysHeld(s: State, a: Action, x: Addr)
    requires Durable(s) && Synced(s) && Tight(s) && Enabled(s, a)
    requires Next(s, a).history == CLEAN
    requires x in Next(s, a).ipam
    ensures Owned(Next(s, a), x)
  {
    if a.Crash? {
      SeedIsOwned(s, x);
    } else if a.Resolve? && x !in s.ipam {
      ResolvedHoldsAcquired(a.merged, a.recognised, a.profile, s.ipam);
      assert Pending(Next(s, a), x);
    } else {
      assert Owned(s, x);
      if Pending(s, x) {
        PendingStaysHeld(s, a, x);
      } else {
        var u, d :| Holds(s.disk, u, d, x) && !Freed(s, u, d);
        HolderStays(s, a, u, d, x);
      }
    }
  }

  lemma {:induction false} StepKeepsTight(s: State, a: Action)
    requires Durable(s) && Synced(s) && Tight(s) && Enabled(s, a)
    requires Next(s, a).history == CLEAN
    ensures Tight(Next(s, a))
  {
    var t := Next(s, a);
    forall x | x in t.ipam ensures Owned(t, x) {
      KnownStaysHeld(s, a, x);
    }
    if a.WriteCheckpoint? {
      var cfg := DeviceConfig(s.job.claim, a.stored);
      assert SubAddrs(cfg) == Released(cfg.conf);
      forall u, d | Has(t.disk, u, d) ensures
          && (if (u, d) == (s.job.uid, s.job.dev) then t.disk[u][d] == cfg
              else Has(s.disk, u, d) && t.disk[u][d] == s.disk[u][d]) {
      }
    } else {
      forall u, d | Has(t.disk, u, d) ensures Has(s.disk, u, d) && t.disk[u][d] == s.disk[u][d] {
      }
    }
  }

  lemma {:induction false} StepKeepsInv(s: State, a: Action)
    requires Inv(s) && Enabled(s, a)
    ensures Inv(Next(s, a))
  {
    var t := Next(s, a);
    StepKeepsDurable(s, a);
    if !t.history.deleteFailed {
      StepKeepsSynced(s, a);
      if !t.history.foreign {
        StepKeepsExclusive(s, a);
      }
      if t.history == CLEAN {
        StepKeepsTight(s, a);
      }
    }
  }

  lemma {:induction false} RunKeepsInv(s: State, acts: seq<Action>, t: State)
    requires Inv(s) && RunsTo(s, acts, t)
    ensures Inv(t)
    decreases |acts|
  {
    if acts != [] {
      StepKeepsInv(s, acts[0]);
      RunKeepsInv(Next(s, acts[0]), acts[1..], t);
    }
  }

  lemma {:induction false} InitialInv()
    ensures Inv(INITIAL)
  {
  }

  // When two pods can come to share an address.

  predicate AllCalm(acts: seq<Action>) {
    forall i :: 0 <= i < |acts| ==> Calm(acts[i])
  }

  lemma {:induction false} CalmRunKeepsExclusive(s: State, acts: seq<Action>, t: State)
    requires Durable(s) && Exclusive(s) && RunsTo(s, acts, t) && AllCalm(acts)
    ensures Durable(t) && Exclusive(t)
    decreases |acts|
  {
    if acts != [] {
      StepKeepsDurable(s, acts[0]);
      StepKeepsExclusive(s, acts[0]);
      CalmRunKeepsExclusive(Next(s, acts[0]), acts[1..], t);
    }
  }

  /** What history remembers of the steps taken. */
  lemma {:induction false} HistoryTellsCalm(s: State, acts: seq<Action>, t: State)
    requires RunsTo(s, acts, t)
    ensures t.history.deleteFailed || t.history.foreign
       <==> s.history.deleteFailed || s.history.foreign || !AllCalm(acts)
    decreases |acts|
  {
    if acts != [] {
      HistoryTellsCalm(Next(s, acts[0]), acts[1..], t);
      assert AllCalm(acts) <==> Calm(acts[0]) && AllCalm(acts[1..]) by {
        assert forall i :: 0 < i < |acts| ==> acts[i] == acts[1..][i - 1];
      }
    }
  }

  /** Two devices in p hold one address. */
  ghost predicate Shared(p: Pods) {
    exists u, d, v, e, a :: Holds(p, u, d, a) && Holds(p, v, e, a) && (u != v || d != e)
  }

  /** Some run of calm steps ends with a shared address in memory. */
  ghost predicate SharingReachable(s: State) {
    exists acts, t :: RunsTo(s, acts, t) && AllCalm(acts) && Shared(t.memory)
  }

  lemma {:induction false} LongerThanAll(keys: set<string>) returns (longer: string)
    ensures forall k :: k in keys ==> |k| < |longer|
  {
    longer := "x";
    if keys != {} {
      var k :| k in keys;
      longer := LongerThanAll(keys - {k});
      longer := longer + k + "x";
    }
  }

  lemma {:induction false} CrashKeepsHolder(s: State, u: string, d: string, a: Addr)
    requires Holds(s.disk, u, d, a)
    ensures Holds(Next(s, Crash).memory, u, d, a)
  {
  }

  /** An address twice on disk is twice in memory after a restart. */
  lemma {:induction false} RestartShares(s: State)
    requires Shared(s.disk)
    ensures SharingReachable(s)
  {
    CrashShares(s);
    var t := Next(s, Crash);
    RunExtends(s, [], s, Crash);
    assert RunsTo(s, [] + [Crash], t);
    assert AllCalm([] + [Crash]);
  }

  lemma {:induction false} CrashShares(s: State)
    requires Shared(s.disk)
    ensures Shared(Next(s, Crash).memory)
  {
    var u, d, v, e, a :| Holds(s.disk, u, d, a) && Holds(s.disk, v, e, a) && (u != v || d != e);
    CrashKeepsHolder(s, u, d, a);
    CrashKeepsHolder(s, v, e, a);
  }

  /** A held address the allocator has forgotten can be given to another pod. */
  lemma {:induction false} ForgottenIsGivenAgain(s: State, u: string, d: string, a: Addr)
    requires s.job.Idle? && Holds(s.disk, u, d, a) && a !in s.ipam
    ensures SharingReachable(s)
  {
    var uid := LongerThanAll(s.memory.Keys + s.disk.Keys);
    var acts := PrepareRun(s, uid, "d", "c", Static(a));
    var t := AfterPrepare(s, uid, "d", "c", Static(a));
    assert AddrsOf([Cidr(a, 128)]) == {a};
    assert Holds(t.disk, u, d, a) && Holds(t.disk, uid, "d", a);
    RestartShares(t);
    RunOnShares(s, acts, t);
  }

  lemma {:induction false} RunOnShares(s: State, acts: seq<Action>, t: State)
    requires RunsTo(s, acts, t) && AllCalm(acts) && SharingReachable(t)
    ensures SharingReachable(s)
  {
    var more, end :| RunsTo(t, more, end) && AllCalm(more) && Shared(end.memory);
    RunsCompose(s, acts, t, more, end);
    assert AllCalm(acts + more);
  }

  /** Between calls: without a further failed delete or foreign device, two pods can come to share an
      address if and only if one is already on disk twice, or stored but unknown to the allocator. */
  lemma {:induction false} SharingReachableWhen(s: State)
    requires Durable(s) && s.job.Idle?
    ensures SharingReachable(s) <==> !Exclusive(s)
    ensures Exclusive(s) <==> !Shared(s.disk) && forall u, d, a :: Holds(s.disk, u, d, a) ==> a in s.ipam
  {
    IdleExclusive(s);
    if Exclusive(s) {
      forall acts, t | RunsTo(s, acts, t) && AllCalm(acts) ensures !Shared(t.memory) {
        CalmRunKeepsExclusive(s, acts, t);
        assert forall u, d, a :: Holds(t.memory, u, d, a) ==> Holds(t.disk, u, d, a);
      }
    } else if Shared(s.disk) {
      RestartShares(s);
    } else {
      var u, d, a :| Holds(s.disk, u, d, a) && a !in s.ipam;
      ForgottenIsGivenAgain(s, u, d, a);
    }
  }

  lemma {:induction false} IdleExclusive(s: State)
    requires s.job.Idle?
    ensures Exclusive(s) <==> !Shared(s.disk) && forall u, d, a :: Holds(s.disk, u, d, a) ==> a in s.ipam
  {
    forall a ensures Owned(s, a) <==> exists u, d :: Holds(s.disk, u, d, a) {
      if u, d :| Holds(s.disk, u, d, a) {
        assert Holds(s.disk, u, d, a) && !Freed(s, u, d);
      }
    }
  }

  // The main results, over every run from an empty node.

  /** Two stored managed configurations never share an address, and each of their addresses is in
      the allocator's set unless the unpreparation under way has just released it, in every run,
      crashes and reseeding included, in which checkpoint deletes succeed and the provider
      recognises the managed devices. */
  lemma {:induction false} AddressesStayExclusive(acts: seq<Action>, t: State, u: string, d: string, a: Addr)
    requires RunsTo(INITIAL, acts, t)
    requires !t.history.deleteFailed && !t.history.foreign
    requires Holds(t.memory, u, d, a)
    ensures Freed(t, u, d) || a in t.ipam
    ensures forall v, e :: Holds(t.memory, v, e, a) ==> u == v && d == e
  {
    HistoryTellsCalm(INITIAL, acts, t);
    CalmRunKeepsExclusive(INITIAL, acts, t);
    assert forall v, e :: Holds(t.memory, v, e, a) ==> Holds(t.disk, v, e, a);
    if !Freed(t, u, d) {
      assert Owned(t, a);
    }
  }

  /** Between calls, the allocator holds exactly the stored addresses, if also no pod mixed claims
      and every stored subinterface with addresses came through a profile: nothing is lost. */
  lemma {:induction false} NoAddressIsLost(acts: seq<Action>, t: State, a: Addr)
    requires RunsTo(INITIAL, acts, t) && t.history == CLEAN && t.job.Idle?
    ensures a in t.ipam <==> exists u, d :: Holds(t.memory, u, d, a)
  {
    InitialInv();
    RunKeepsInv(INITIAL, acts, t);
    assert a in t.ipam <==> Owned(t, a);
    if Owned(t, a) {
      var u, d :| Holds(t.disk, u, d, a) && !Freed(t, u, d);
      assert Holds(t.memory, u, d, a);
    }
    if u, d :| Holds(t.memory, u, d, a) {
      assert Holds(t.disk, u, d, a) && !Freed(t, u, d);
    }
  }

  /** Under any failures, memory is always on disk; and equal to it between calls unless a
      checkpoint delete has failed. */
  lemma {:induction false} CheckpointCoversMemory(acts: seq<Action>, t: State)
    requires RunsTo(INITIAL, acts, t)
    ensures Within(t.memory, t.disk)
    ensures !t.history.deleteFailed && !t.job.Checkpointed? ==> t.memory == t.disk
  {
    InitialInv();
    RunKeepsInv(INITIAL, acts, t);
  }

  lemma {:induction false} StoredConfigSurvivesStep(s: State, a: Action, u: string, d: string)
    requires Durable(s) && Enabled(s, a) && Has(s.memory, u, d) && !(a.DropPod? && a.uid == u)
    ensures Has(Next(s, a).memory, u, d) && Next(s, a).memory[u][d] == s.memory[u][d]
  {
  }

  /** A stored configuration survives any run, crashes and failures included, in which its pod is
      not dropped. */
  lemma {:induction false} StoredConfigSurvives(s: State, acts: seq<Action>, t: State, u: string, d: string)
    requires Durable(s) && RunsTo(s, acts, t)
    requires Has(s.memory, u, d)
    requires forall i :: 0 <= i < |acts| ==> !(acts[i].DropPod? && acts[i].uid == u)
    ensures Has(t.memory, u, d) && t.memory[u][d] == s.memory[u][d]
    decreases |acts|
  {
    if acts != [] {
      StepKeepsDurable(s, acts[0]);
      StoredConfigSurvivesStep(s, acts[0], u, d);
      StoredConfigSurvives(Next(s, acts[0]), acts[1..], t, u, d);
    }
  }

  /** A checkpoint left behind by a failed delete stays whatever unpreparations follow: a retry
      finds no such pod in memory and deletes nothing. Only a restart or a new preparation for
      that pod changes it. */
  lemma {:induction false} StaleCheckpointStays(s: State, acts: seq<Action>, t: State, u: string)
    requires RunsTo(s, acts, t)
    requires u !in s.memory && u in s.disk && (s.job.Resolved? || s.job.Checkpointed? ==> s.job.uid != u)
    requires forall i :: 0 <= i < |acts| ==> !acts[i].Crash? && !(acts[i].Resolve? && acts[i].uid == u)
    ensures u !in t.memory && u in t.disk && t.disk[u] == s.disk[u]
    decreases |acts|
  {
    if acts != [] {
      StaleCheckpointStays(Next(s, acts[0]), acts[1..], t, u);
    }
  }

  // The conditions above are needed: each one dropped, some run breaks the result.

  function Static(a: Addr): NetConf {
    NetConf("managed", true, false, [Cidr(a, 128)])
  }

  /** The same without a profile. */
  function Bare(a: Addr): NetConf {
    Static(a).(profile := "")
  }

  function AfterPrepare(s: State, uid: string, dev: string, claim: string, conf: NetConf): State {
    var cfg := DeviceConfig(claim, conf);
    s.(ipam := s.ipam + Released(conf), memory := Put(s.memory, uid, dev, cfg), disk := Put(s.disk, uid, dev, cfg),
       history := s.history.(
         mixed := s.history.mixed || (uid in s.memory && exists d ::
           d in s.memory[uid] && s.memory[uid][d].claim != claim),
         bare := s.history.bare || conf.profile == ""))
  }

  /** Preparing a recognised subinterface with static addresses, without failures. */
  lemma {:induction false} PrepareRun(s: State, uid: string, dev: string, claim: string, conf: NetConf)
    returns (acts: seq<Action>)
    requires s.job.Idle? && !Has(s.memory, uid, dev)
    requires conf.subinterface && !conf.dhcp && conf.addresses != [] && Released(conf) !! s.ipam
    requires forall t :: t in conf.addresses ==> t.Cidr?
    ensures RunsTo(s, acts, AfterPrepare(s, uid, dev, claim, conf)) && AllCalm(acts)
  {
    var resolve := Resolve(uid, dev, claim, conf, true, NoConf);
    var s1 := Next(s, resolve);
    var s2 := Next(s1, WriteCheckpoint(conf));
    RunExtends(s, [], s, resolve);
    RunExtends(s, [] + [resolve], s1, WriteCheckpoint(conf));
    RunExtends(s, [] + [resolve] + [WriteCheckpoint(conf)], s2, WriteMemory);
    acts := [] + [resolve] + [WriteCheckpoint(conf)] + [WriteMemory];
    assert Next(s2, WriteMemory) == AfterPrepare(s, uid, dev, claim, conf);
  }

  function AfterUnprepare(s: State, uid: string, dev: string, deleted: bool): State
    requires Has(s.memory, uid, dev)
  {
    s.(ipam := s.ipam - Released(s.memory[uid][dev].conf),
       memory := s.memory - {uid}, disk := if deleted then s.disk - {uid} else s.disk,
       history := s.history.(deleteFailed := s.history.deleteFailed || !deleted))
  }

  lemma {:induction false} NothingLeftToDrop(s: State, uid: string, dev: string, claim: string)
    requires forall u, d :: OfClaim(s.memory, u, d, claim) ==> u == uid && d == dev
    ensures PodsOfClaim(s.memory - {uid}, claim) == {}
  {
    var left := s.memory - {uid};
    forall u | u in PodsOfClaim(left, claim) ensures false {
      var d :| d in left[u] && left[u][d].claim == claim;
      assert OfClaim(s.memory, u, d, claim);
    }
  }

  /** Unpreparing a claim with one device, its checkpoint delete succeeding or not. */
  lemma {:induction false} UnprepareRun(s: State, uid: string, dev: string, claim: string, deleted: bool)
    returns (acts: seq<Action>)
    requires s.job.Idle? && Has(s.memory, uid, dev)
    requires forall u, d :: OfClaim(s.memory, u, d, claim) <==> u == uid && d == dev
    ensures RunsTo(s, acts, AfterUnprepare(s, uid, dev, deleted))
  {
    assert OfClaim(s.memory, uid, dev, claim);
    ClaimPod(s.memory, uid, dev, claim);
    NothingLeftToDrop(s, uid, dev, claim);
    var (x1, x2, x3, x4, x5) :=
      (BeginUnprepare(claim), ReleaseDevice(uid, dev), BeginDrop, DropPod(uid, deleted), EndUnprepare);
    var s1 := Next(s, x1);
    var s2 := Next(s1, x2);
    var s3 := Next(s2, x3);
    var s4 := Next(s3, x4);
    acts := [];
    RunExtends(s, acts, s, x1);
    RunExtends(s, acts + [x1], s1, x2);
    RunExtends(s, acts + [x1] + [x2], s2, x3);
    RunExtends(s, acts + [x1] + [x2] + [x3], s3, x4);
    RunExtends(s, acts + [x1] + [x2] + [x3] + [x4], s4, x5);
    acts := acts + [x1] + [x2] + [x3] + [x4] + [x5];
  }

  lemma {:induction false} ReuseAfterFailedDelete(a: Addr) returns (acts: seq<Action>, s: State)
    ensures RunsTo(INITIAL, acts, s) && s.job.Idle? && s.history == CLEAN.(deleteFailed := true)
    ensures s.disk == map["p" := map["d" := DeviceConfig("c", Static(a))],
                          "q" := map["d" := DeviceConfig("e", Static(a))]]
  {
    acts := PrepareRun(INITIAL, "p", "d", "c", Static(a));
    var s1 := AfterPrepare(INITIAL, "p", "d", "c", Static(a));
    var more := UnprepareRun(s1, "p", "d", "c", false);
    var s2 := AfterUnprepare(s1, "p", "d", false);
    RunsCompose(INITIAL, acts, s1, more, s2);
    acts := acts + more;
    more := PrepareRun(s2, "q", "d", "e", Static(a));
    s := AfterPrepare(s2, "q", "d", "e", Static(a));
    RunsCompose(INITIAL, acts, s2, more, s);
    acts := acts + more;
  }

  /** One failed checkpoint delete, and after a restart two pods hold the same address. */
  lemma {:induction false} FailedDeleteSharesAddress(a: Addr) returns (acts: seq<Action>, t: State)
    ensures RunsTo(INITIAL, acts, t) && t.history == CLEAN.(deleteFailed := true) && t.job.Idle?
    ensures Holds(t.memory, "p", "d", a) && Holds(t.memory, "q", "d", a)
  {
    var s;
    acts, s := ReuseAfterFailedDelete(a);
    RunExtends(INITIAL, acts, s, Crash);
    acts, t := acts + [Crash], Next(s, Crash);
    assert AddrsOf([Cidr(a, 128)]) == {a};
    assert "d" in s.disk["p"] && "d" in s.disk["q"];
  }

  /** Rolling back a preparation leaves the allocator as it was, if and only if the provider recognised the
      device or none of the configured addresses was in use. */
  lemma {:induction false} RollbackRestoresWhen(s: State, a: Action)
    requires a.Resolve? && Enabled(s, a)
    ensures Next(Next(s, a), Abort).ipam == s.ipam
       <==> !(Managed(a.merged) && !a.recognised) || AddrsOf(a.merged.addresses) !! s.ipam
  {
    RollbackValue(a.merged, a.recognised, a.profile, s.ipam);
  }

  /** A failed preparation of an unrecognised device takes a stored address out of the allocator. */
  lemma {:induction false} ForeignDeviceFreesAddress(a: Addr) returns (acts: seq<Action>, t: State)
    ensures RunsTo(INITIAL, acts, t) && t.history == CLEAN.(foreign := true) && t.job.Idle?
    ensures Holds(t.memory, "p", "d", a) && a !in t.ipam
  {
    assert AddrsOf([Cidr(a, 128)]) == {a};
    acts := PrepareRun(INITIAL, "p", "d", "c", Static(a));
    var s1 := AfterPrepare(INITIAL, "p", "d", "c", Static(a));
    var resolve := Resolve("q", "d", "e", Static(a), false, NoConf);
    RunExtends(INITIAL, acts, s1, resolve);
    var s2 := Next(s1, resolve);
    RunExtends(INITIAL, acts + [resolve], s2, Abort);
    acts, t := acts + [resolve] + [Abort], Next(s2, Abort);
  }

  /** The addresses a claim's devices hold. */
  function ClaimAddrs(p: Pods, claim: string): set<Addr> {
    set u, d, a | u in p && d in p[u] && p[u][d].claim == claim && a in Released(p[u][d].conf) :: a
  }

  /** The allocator's set is exactly what the devices in p hold. */
  ghost predicate ExactlyHeld(used: set<Addr>, p: Pods) {
    forall a :: a in used <==> HeldIn(p, a)
  }

  ghost predicate HeldIn(p: Pods, a: Addr) {
    exists u, d :: Holds(p, u, d, a)
  }

  /** In the claim's pods, only the claim's own devices hold addresses. */
  ghost predicate HoldsAlone(p: Pods, claim: string) {
    forall u, d, a :: u in PodsOfClaim(p, claim) && Holds(p, u, d, a) ==> p[u][d].claim == claim
  }

  /** Unpreparing a claim loses no address, if and only if no device of another claim holds one in the
      claim's pods. */
  lemma {:induction false} UnprepareLosesNothingWhen(used: set<Addr>, p: Pods, claim: string)
    requires ExactlyHeld(used, p) && !Shared(p)
    ensures ExactlyHeld(used - ClaimAddrs(p, claim), p - PodsOfClaim(p, claim)) <==> HoldsAlone(p, claim)
  {
    var (left, q) := (used - ClaimAddrs(p, claim), p - PodsOfClaim(p, claim));
    if HoldsAlone(p, claim) {
      forall a ensures a in left <==> HeldIn(q, a) {
        if a in left {
          assert HeldIn(p, a);
          var u, d :| Holds(p, u, d, a);
          assert Holds(q, u, d, a);
        }
        if u, d :| Holds(q, u, d, a) {
          KeptIsNotReleased(p, claim, u, d, a);
          assert HeldIn(p, a);
        }
      }
    } else {
      var u, d, a :| u in PodsOfClaim(p, claim) && Holds(p, u, d, a) && p[u][d].claim != claim;
      OtherClaimKeeps(p, claim, u, d, a);
      assert HeldIn(p, a);
      assert a in left;
      assert forall v, e :: Holds(q, v, e, a) ==> Holds(p, v, e, a);
    }
  }

  /** Every stored subinterface address, one configured without a profile included, is held through one. */
  ghost predicate AllHeld(p: Pods) {
    forall u, d, a :: Has(p, u, d) && a in SubAddrs(p[u][d]) ==> HeldIn(p, a)
  }

  lemma {:induction false} LoadedHolds(disk: Pods, a: Addr)
    ensures HeldIn(Loaded(disk), a) <==> HeldIn(disk, a)
  {
    forall u, d ensures Holds(Loaded(disk), u, d, a) <==> Holds(disk, u, d, a) {
    }
  }

  lemma {:induction false} SeedsWhenAllHeld(disk: Pods, a: Addr)
    requires AllHeld(disk)
    ensures a in PodsAddrs(Loaded(disk)) <==> HeldIn(disk, a)
  {
    if a in PodsAddrs(Loaded(disk)) {
      var u, d := SeedIsStored(disk, a);
    }
    if u, d :| Holds(disk, u, d, a) {
      StoredAddrsSeed(disk, u, d, a);
    }
  }

  /** A restart leaves the allocator with exactly what the stored devices hold, if and only if every stored
      subinterface address is held. */
  lemma {:induction false} RestartLosesNothingWhen(s: State)
    ensures ExactlyHeld(Next(s, Crash).ipam, Next(s, Crash).memory) <==> AllHeld(s.disk)
  {
    var (seeds, p) := (PodsAddrs(Loaded(s.disk)), Loaded(s.disk));
    if AllHeld(s.disk) {
      forall a ensures a in seeds <==> HeldIn(p, a) {
        LoadedHolds(s.disk, a);
        SeedsWhenAllHeld(s.disk, a);
      }
    }
    if ExactlyHeld(seeds, p) {
      forall u, d, a | Has(s.disk, u, d) && a in SubAddrs(s.disk[u][d]) ensures HeldIn(s.disk, a) {
        SubAddrsSeed(s.disk, u, d, a);
        LoadedHolds(s.disk, a);
      }
    }
  }

  lemma {:induction false} OtherClaimKeeps(p: Pods, claim: string, u: string, d: string, a: Addr)
    requires !Shared(p) && Holds(p, u, d, a) && p[u][d].claim != claim
    ensures a !in ClaimAddrs(p, claim)
  {
    if a in ClaimAddrs(p, claim) {
      var v, e := ClaimHolder(p, claim, a);
    }
  }

  lemma {:induction false} ClaimHolder(p: Pods, claim: string, a: Addr) returns (u: string, d: string)
    requires a in ClaimAddrs(p, claim)
    ensures OfClaim(p, u, d, claim) && Holds(p, u, d, a)
  {
    u, d :| u in p && d in p[u] && p[u][d].claim == claim && a in Released(p[u][d].conf);
  }

  lemma {:induction false} KeptIsNotReleased(p: Pods, claim: string, u: string, d: string, a: Addr)
    requires !Shared(p) && Holds(p - PodsOfClaim(p, claim), u, d, a)
    ensures Holds(p, u, d, a) && a !in ClaimAddrs(p, claim)
  {
    ClaimPod(p, u, d, claim);
    OtherClaimKeeps(p, claim, u, d, a);
  }

  /** An address stored without a profile is reserved by a restart, and no unpreparation gives it back. */
  lemma {:induction false} BareAddressIsLost(a: Addr) returns (acts: seq<Action>, t: State)
    ensures RunsTo(INITIAL, acts, t) && t.history == CLEAN.(bare := true) && t.job.Idle?
    ensures a in t.ipam && t.memory == map[] && t.disk == map[]
  {
    acts := PrepareRun(INITIAL, "p", "d", "c", Bare(a));
    var s1 := AfterPrepare(INITIAL, "p", "d", "c", Bare(a));
    RunExtends(INITIAL, acts, s1, Crash);
    var s2 := Next(s1, Crash);
    acts := acts + [Crash];
    assert "d" in s1.disk["p"];
    assert a in SubAddrs(s1.disk["p"]["d"]) by {
      assert AddrsOf([Cidr(a, 128)]) == {a};
    }
    SubAddrsSeed(s1.disk, "p", "d", a);
    var more := UnprepareRun(s2, "p", "d", "c", true);
    t := AfterUnprepare(s2, "p", "d", true);
    RunsCompose(INITIAL, acts, s2, more, t);
    acts := acts + more;
  }

  /** Unpreparing one of two claims of a pod loses the other claim's address. */
  lemma {:induction false} SharedPodLosesAddress(a: Addr, b: Addr) returns (acts: seq<Action>, t: State)
    requires a != b
    ensures RunsTo(INITIAL, acts, t) && t.history == CLEAN.(mixed := true) && t.job.Idle?
    ensures b in t.ipam && t.memory == map[]
  {
    acts := PrepareRun(INITIAL, "p", "d", "c", Static(a));
    var s1 := AfterPrepare(INITIAL, "p", "d", "c", Static(a));
    var more := PrepareRun(s1, "p", "e", "f", Static(b));
    var s2 := AfterPrepare(s1, "p", "e", "f", Static(b));
    RunsCompose(INITIAL, acts, s1, more, s2);
    acts := acts + more;
    assert s1.memory["p"]["d"].claim == "c";
    more := UnprepareRun(s2, "p", "d", "c", true);
    t := AfterUnprepare(s2, "p", "d", true);
    RunsCompose(INITIAL, acts, s2, more, t);
    acts := acts + more;
  }
}
