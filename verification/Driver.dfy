/**
 The DRA hooks over the real objects: the provider's profile calls on the allocator,
 prepareDevice with its deferred rollback, unprepareResourceClaim and a daemon restart.
 Each call is shown to be a run of the lifecycle's steps.
 */
module Driver {
  import opened Results
  import opened LocalIpam
  import opened PodConfigs
  import opened Lifecycle
  import ConfigMerge

  /** Host prefixes, as the allocator formats them. */
  function HostTexts(addrs: seq<Addr>): (t: seq<CidrText>)
    ensures |t| == |addrs|
    ensures forall i :: 0 <= i < |t| ==> t[i] == Cidr(addrs[i], if addrs[i].family.V4? then 32 else 128)
  {
    seq(|addrs|, i requires 0 <= i < |addrs| => Cidr(addrs[i], if addrs[i].family.V4? then 32 else 128))
  }

  lemma {:induction false} HostTextsAddrs(addrs: seq<Addr>)
    ensures AddrsOf(HostTexts(addrs)) == set a | a in addrs
  {
    forall a | a in addrs ensures a in AddrsOf(HostTexts(addrs)) {
      var i :| 0 <= i < |addrs| && addrs[i] == a;
      assert HostTexts(addrs)[i].addr == a;
    }
  }

  /** What a preparation meets outside the driver. */
  datatype Env = Env(
    inInventory: bool, // the inventory has the device, and the provider has profiles
    recognised: bool, // the provider has metadata for the device
    discovered: bool, // the provider finds on the host what else it needs
    ranges: seq<IPRange>, // the device's allocation ranges; none also if they cannot be derived
    routed: bool, // routing is synthesised for static addresses
    prepared: bool, // the merged configuration and the device lookups are in order
    found: seq<CidrText>, // the addresses a passthrough interface turns out to have
    commits: bool) // the checkpoint write goes through

  predicate Reservable(used: set<Addr>, texts: seq<CidrText>) {
    (forall t :: t in texts ==> t.Cidr?) && AddrsOf(texts) !! used
  }

  /** Why a profile request can fail. */
  ghost predicate MayRefuse(used: set<Addr>, merged: NetConf, env: Env) {
    || !env.inInventory
    || (env.recognised &&
        (|| !env.discovered
         || (merged.subinterface &&
             if merged.addresses != [] then !Reservable(used, merged.addresses)
             else env.ranges == [] || AllocateMayFail(env.ranges, used))))
  }

  /** What a profile request answers: nothing for a device the provider does not recognise and for a passthrough
      interface; for a subinterface, static addresses reserved, or one new address from each of its ranges. */
  ghost predicate ProfileAnswer(used: set<Addr>, merged: NetConf, env: Env, r: Result<Profile>) {
    && (r.Err? ==> MayRefuse(used, merged, env))
    && (r.Ok? ==>
          && env.inInventory
          && if !env.recognised then r.value == NoConf
             else
               && env.discovered
               && if !merged.subinterface then r.value == NoConf
                  else if merged.addresses != [] then
                    Reservable(used, merged.addresses) && r.value == if env.routed then Conf([]) else NoConf
                  else
                    && env.ranges != []
                    && exists got :: r.value == Conf(HostTexts(got)) && Serves(env.ranges, got, used))
  }

  lemma {:induction false} AnswerHolds(used: set<Addr>, merged: NetConf, env: Env, profile: Profile)
    requires merged.profile != "" && ProfileAnswer(used, merged, env, Ok(profile))
    ensures Answer(used, merged, env.recognised, profile)
  {
    if Managed(merged) && env.recognised && merged.addresses == [] {
      var got :| profile == Conf(HostTexts(got)) && Serves(env.ranges, got, used);
      HostTextsAddrs(got);
    }
  }

  /** The addresses a subinterface is prepared with. */
  ghost predicate ResolvedAddresses(used: set<Addr>, merged: NetConf, env: Env, addresses: seq<CidrText>) {
    if merged.profile == "" || !env.recognised then addresses == merged.addresses
    else if merged.addresses != [] then
      addresses == if env.routed then ConfigMerge.KeepLast(merged.addresses, (t: CidrText) => t) else merged.addresses
    else exists got :: addresses == HostTexts(got) && Serves(env.ranges, got, used)
  }

  /** At most two addresses, of different families, have no duplicates to lose. */
  lemma {:induction false} HostTextsKept(got: seq<Addr>)
    requires |got| <= 2 && (|got| == 2 ==> got[0] != got[1])
    ensures ConfigMerge.KeepLast(HostTexts(got), (t: CidrText) => t) == HostTexts(got)
  {
    var (texts, id) := (HostTexts(got), (t: CidrText) => t);
    if |got| == 1 {
      ConfigMerge.KeepLastCons(texts[0], [], id);
      assert texts == [texts[0]] + [];
    } else if |got| == 2 {
      ConfigMerge.KeepLastCons(texts[1], [], id);
      assert [texts[1]] + [] == [texts[1]];
      ConfigMerge.KeepLastCons(texts[0], [texts[1]], id);
      ConfigMerge.KeysMembers([texts[1]], id, texts[0]);
      assert texts == [texts[0]] + [texts[1]];
    }
  }

  lemma {:induction false} ResolvedAre(used: set<Addr>, merged: NetConf, env: Env, profile: Profile)
    requires merged.subinterface
    requires if merged.profile == "" then profile == NoConf else ProfileAnswer(used, merged, env, Ok(profile))
    ensures ResolvedAddresses(used, merged, env, Effective(merged, profile).addresses)
  {
    if profile.Conf? {
      assert [] + merged.addresses == merged.addresses;
      if merged.addresses == [] {
        var got :| profile == Conf(HostTexts(got)) && Serves(env.ranges, got, used);
        assert HostTexts(got) + [] == HostTexts(got);
        HostTextsKept(got);
      }
    }
  }

  /** A passthrough interface is stored with the addresses the host or a DHCP server has for it. */
  function StoredConf(netconf: NetConf, env: Env): NetConf {
    if netconf.subinterface then netconf else netconf.(addresses := env.found)
  }

  class NetworkDriver {
    var ipam: LocalIPAM
    var store: PodConfigStore
    ghost var history: History
    ghost var trace: seq<Action> // the steps since the node was empty

    ghost function Abs(): State
      reads this, ipam, store, store.checkpointer
    {
      State(ipam.allocatedIPs, store.configs, store.checkpointer.buckets, Idle, history)
    }

    /** The state is one the lifecycle reaches, so everything proved of its runs holds here. */
    ghost predicate Valid()
      reads this, ipam, store, store.checkpointer
    {
      RunsTo(INITIAL, trace, Abs())
    }

    /** A daemon on a node without a checkpoint. */
    constructor ()
      ensures Valid() && Abs() == INITIAL
      ensures fresh(ipam) && fresh(store) && fresh(store.checkpointer)
    {
      var checkpointer := new BoltCheckpointer();
      store := new PodConfigStore.Load(checkpointer, map[]);
      ipam := new LocalIPAM([]);
      history := CLEAN;
      trace := [];
    }

    /** The inventory's GetProfileConfig, and the provider's behind it. On failure the allocator is as before. */
    method GetProfileConfig(merged: NetConf, env: Env) returns (r: Result<Profile>)
      requires merged.profile != ""
      modifies ipam
      ensures ProfileAnswer(old(ipam.allocatedIPs), merged, env, r)
      ensures r.Ok? ==>
                && Answer(old(ipam.allocatedIPs), merged, env.recognised, r.value)
                && ipam.allocatedIPs == old(ipam.allocatedIPs) + AddrsOf(Acquired(merged, env.recognised, r.value))
      ensures r.Err? ==> ipam.allocatedIPs == old(ipam.allocatedIPs)
    {
      if !env.inInventory {
        return Err;
      }
      if !env.recognised {
        return Ok(NoConf);
      }
      if !env.discovered {
        return Err;
      }
      if !merged.subinterface {
        return Ok(NoConf);
      }
      if merged.addresses != [] {
        var ok := ipam.Reserve(merged.addresses);
        if !ok {
          return Err;
        }
        return Ok(if env.routed then Conf([]) else NoConf);
      }
      if env.ranges == [] {
        return Err;
      }
      var got := ipam.Allocate(env.ranges);
      if got.None? {
        return Err;
      }
      HostTextsAddrs(got.value);
      r := Ok(Conf(HostTexts(got.value)));
      assert ProfileAnswer(old(ipam.allocatedIPs), merged, env, r);
      AnswerHolds(old(ipam.allocatedIPs), merged, env, r.value);
    }

    /** The provider's ReleaseProfileConfig, which looks only at the configuration. */
    method ReleaseProfileConfig(c: NetConf)
      modifies ipam
      ensures ipam.allocatedIPs
           == old(ipam.allocatedIPs) - if c.subinterface then AddrsOf(c.addresses) else {}
    {
      if !c.subinterface {
        return;
      }
      for i := 0 to |c.addresses|
        invariant ipam.allocatedIPs == old(ipam.allocatedIPs) - AddrsOf(c.addresses[..i])
      {
        ipam.Release(c.addresses[i]);
        assert c.addresses[..i + 1] == c.addresses[..i] + [c.addresses[i]];
        AddrsOfConcat(c.addresses[..i], [c.addresses[i]]);
      }
      assert c.addresses[..|c.addresses|] == c.addresses;
    }

    /** Prepares one device. An already stored device is left as it is; on any error, for one of the reasons
        listed, nothing is stored and what the profile took is given back, with a foreign device's addresses
        besides if its profile was resolved at all; on success the configuration, with the addresses it resolves
        to, is in memory and on disk and the allocator has gained exactly those, or nothing for a foreign device. */
    method PrepareDevice(uid: string, dev: string, claim: string, userConfigOk: bool, merged: NetConf, env: Env)
      returns (ok: bool, ghost acts: seq<Action>)
      requires Valid()
      modifies this`history, this`trace, ipam, store, store.checkpointer
      ensures Valid() && trace == old(trace) + acts
      ensures old(Has(store.configs, uid, dev)) ==> ok && Abs() == old(Abs())
      ensures !ok ==>
                || !userConfigOk || !env.prepared || !env.commits || (merged.subinterface && merged.dhcp)
                || (merged.profile != "" && MayRefuse(old(ipam.allocatedIPs), merged, env))
      ensures !ok ==> store.configs == old(store.configs)
      ensures !ok ==> store.checkpointer.buckets == old(store.checkpointer.buckets)
      ensures !ok ==> ipam.allocatedIPs == if userConfigOk && env.inInventory
                                           then RolledBack(old(ipam.allocatedIPs), merged, env.recognised)
                                           else old(ipam.allocatedIPs)
      ensures ok && !old(Has(store.configs, uid, dev)) ==>
                && userConfigOk && env.prepared && env.commits && !(merged.subinterface && merged.dhcp)
                && Prepared(old(Abs()), Abs(), uid, dev, claim, merged, env)
    {
      ghost var s0 := Abs();
      acts := [];
      assert trace + acts == trace;
      var existing := store.GetDeviceConfig(uid, dev);
      if existing.Some? {
        return true, acts;
      }
      if !userConfigOk {
        return false, acts;
      }
      var profile := ResolveProfile(merged, env);
      if profile.Err? {
        return false, acts;
      }
      ghost var resolve := Resolve(uid, dev, claim, merged, env.recognised, profile.value);
      ok, acts := CommitOrRollBack(uid, dev, claim, merged, profile.value, env, s0, resolve);
      if ok {
        StoredIsPrepared(s0, Abs(), uid, dev, claim, merged, profile.value, env);
      }
      RunsCompose(INITIAL, trace, s0, acts, Abs());
      trace := trace + acts;
    }

    /** The profile of getDeviceNetworkConfig, if the configuration names one. */
    method ResolveProfile(merged: NetConf, env: Env) returns (r: Result<Profile>)
      modifies ipam
      ensures r.Err? ==>
                && merged.profile != "" && MayRefuse(old(ipam.allocatedIPs), merged, env)
                && ipam.allocatedIPs == old(ipam.allocatedIPs)
                && (env.inInventory ==> env.recognised)
      ensures r.Ok? ==>
                && (merged.profile != "" ==> env.inInventory)
                && Answer(old(ipam.allocatedIPs), merged, env.recognised, r.value)
                && ipam.allocatedIPs == old(ipam.allocatedIPs) + AddrsOf(Acquired(merged, env.recognised, r.value))
                && (merged.subinterface ==>
                      ResolvedAddresses(old(ipam.allocatedIPs), merged, env, Effective(merged, r.value).addresses))
    {
      r := Ok(NoConf);
      if merged.profile != "" {
        r := GetProfileConfig(merged, env);
      }
      if r.Ok? && merged.subinterface {
        ResolvedAre(old(ipam.allocatedIPs), merged, env, r.value);
      }
    }

    /** The rest of prepareDevice once the profile is resolved, with its deferred release. It succeeds unless the
        merged configuration is invalid (DHCP on a subinterface is), a lookup fails or the checkpoint does. */
    method CommitOrRollBack(uid: string, dev: string, claim: string, merged: NetConf, profile: Profile, env: Env,
                            ghost s0: State, ghost resolve: Action)
      returns (ok: bool, ghost acts: seq<Action>)
      requires resolve == Resolve(uid, dev, claim, merged, env.recognised, profile) && Enabled(s0, resolve)
      requires Abs() == s0.(ipam := s0.ipam + AddrsOf(Acquired(merged, env.recognised, profile)))
      modifies this`history, ipam, store, store.checkpointer
      ensures RunsTo(s0, acts, Abs())
      ensures ok <==> env.prepared && env.commits && !(merged.subinterface && merged.dhcp)
      ensures !ok ==> store.configs == s0.memory && store.checkpointer.buckets == s0.disk
      ensures !ok ==> ipam.allocatedIPs == RolledBack(s0.ipam, merged, env.recognised)
      ensures ok ==> Stored(s0, Abs(), uid, dev, DeviceConfig(claim, StoredConf(Effective(merged, profile), env)),
                            Foreign(merged, env.recognised))
    {
      var netconf := Effective(merged, profile);
      var stored := StoredConf(netconf, env);
      ok := false;
      if env.prepared && !(netconf.subinterface && netconf.dhcp) {
        ok := store.SetDeviceConfig(uid, dev, DeviceConfig(claim, stored), env.commits);
      }
      if ok {
        history := CommitHistory(s0, resolve, stored);
        acts := CommitRun(s0, resolve, stored, Abs());
      } else {
        if netconf.profile != "" {
          ReleaseProfileConfig(netconf);
        }
        RollbackValue(merged, env.recognised, profile, s0.ipam);
        history := Next(s0, resolve).history;
        acts := AbortRun(s0, resolve, Abs());
      }
    }

    /** Gives back what the claim's devices hold, then drops every pod that uses the claim, with all
        its devices. It always succeeds, whatever became of the checkpoint deletes. */
    method UnprepareResourceClaim(claim: string, commits: string -> bool) returns (ghost acts: seq<Action>)
      requires Valid()
      modifies this`history, this`trace, ipam, store, store.checkpointer
      ensures Valid() && trace == old(trace) + acts
      ensures store.configs == old(store.configs) - PodsOfClaim(old(store.configs), claim)
      ensures store.checkpointer.buckets
           == old(store.checkpointer.buckets) - Committed(PodsOfClaim(old(store.configs), claim), commits)
      ensures ipam.allocatedIPs == old(ipam.allocatedIPs) - ClaimAddrs(old(store.configs), claim)
      ensures old(ExactlyHeld(ipam.allocatedIPs, store.configs) && !Shared(store.configs)) ==>
                (ExactlyHeld(ipam.allocatedIPs, store.configs) <==> HoldsAlone(old(store.configs), claim))
    {
      ghost var s0 := Abs();
      ghost var done: set<(string, string)>;
      acts, done := ReleaseClaim(claim);
      ghost var s1 := Abs().(job := Releasing(claim, done));
      RunExtends(s0, acts, s1, BeginDrop);
      acts := acts + [BeginDrop];
      var dropped := store.DeleteClaim(claim, commits);
      ghost var gone := Committed(PodsOfClaim(s0.memory, claim), commits);
      ghost var more: seq<Action>;
      more, history := DropRun(Next(s1, BeginDrop), PodsOfClaim(s0.memory, claim), gone);
      RunsCompose(s0, acts, Next(s1, BeginDrop), more, Abs());
      acts := acts + more;
      RunsCompose(INITIAL, trace, s0, acts, Abs());
      trace := trace + acts;
      if ExactlyHeld(s0.ipam, s0.memory) && !Shared(s0.memory) {
        UnprepareLosesNothingWhen(s0.ipam, s0.memory, claim);
      }
    }

    /** The loops over pods and devices: the claim's devices are released through the provider. */
    method ReleaseClaim(claim: string) returns (ghost acts: seq<Action>, ghost done: set<(string, string)>)
      modifies ipam
      ensures RunsTo(old(Abs()), acts, Abs().(job := Releasing(claim, done)))
      ensures forall u, d :: (u, d) in done <==> OfClaim(store.configs, u, d, claim)
      ensures ipam.allocatedIPs == old(ipam.allocatedIPs) - ClaimAddrs(store.configs, claim)
    {
      ghost var s0 := Abs();
      RunExtends(s0, [], s0, BeginUnprepare(claim));
      acts := [] + [BeginUnprepare(claim)];
      done := {};
      var pods := store.configs.Keys;
      while pods != {}
        invariant pods <= store.configs.Keys
        invariant RunsTo(s0, acts, Abs().(job := Releasing(claim, done)))
        invariant DoneWith(store.configs, claim, done, pods, "", {})
        invariant ipam.allocatedIPs == s0.ipam - DoneAddrs(store.configs, done)
        decreases |pods|
      {
        var uid :| uid in pods;
        pods := pods - {uid};
        acts, done := ReleasePod(s0, acts, claim, uid, pods, done);
      }
      DoneIsClaim(store.configs, done, claim);
    }

    method ReleasePod(ghost s0: State, ghost acts: seq<Action>, claim: string, uid: string,
                      ghost pods: set<string>, ghost done: set<(string, string)>)
      returns (ghost acts': seq<Action>, ghost done': set<(string, string)>)
      requires uid in store.configs && uid !in pods
      requires RunsTo(s0, acts, Abs().(job := Releasing(claim, done)))
      requires DoneWith(store.configs, claim, done, pods + {uid}, "", {})
      requires ipam.allocatedIPs == s0.ipam - DoneAddrs(store.configs, done)
      modifies ipam
      ensures RunsTo(s0, acts', Abs().(job := Releasing(claim, done')))
      ensures DoneWith(store.configs, claim, done', pods, "", {})
      ensures ipam.allocatedIPs == s0.ipam - DoneAddrs(store.configs, done')
    {
      acts', done' := acts, done;
      var devices := store.configs[uid].Keys;
      DoneWithPod(store.configs, claim, done, pods, uid);
      while devices != {}
        invariant devices <= store.configs[uid].Keys
        invariant RunsTo(s0, acts', Abs().(job := Releasing(claim, done')))
        invariant DoneWith(store.configs, claim, done', pods, uid, devices)
        invariant ipam.allocatedIPs == s0.ipam - DoneAddrs(store.configs, done')
        decreases |devices|
      {
        var dev :| dev in devices;
        DoneWithDevice(store.configs, claim, done', pods, uid, devices, dev);
        devices := devices - {dev};
        var cfg := store.configs[uid][dev];
        if cfg.claim == claim {
          ghost var s1 := Abs().(job := Releasing(claim, done'));
          if cfg.conf.profile != "" {
            ReleaseProfileConfig(cfg.conf);
          }
          assert ipam.allocatedIPs == s1.ipam - Released(cfg.conf);
          acts', done' := ReleaseStep(s0, acts', s1, uid, dev);
        }
      }
    }

    /** A crash and restart: memory is reloaded and the allocator reseeded, unless the checkpoint
        cannot be read, in which case the daemon does not start. */
    method Restart(readable: bool) returns (ok: bool)
      requires Valid()
      modifies this
      ensures ok == readable
      ensures Valid() && store.checkpointer == old(store.checkpointer)
      ensures if ok then trace == old(trace) + [Crash] && Abs() == Next(old(Abs()), Crash)
              else trace == old(trace) && Abs() == old(Abs())
    {
      ghost var s0 := Abs();
      var reopened := OpenStore(store.checkpointer, readable);
      if reopened == null {
        return false;
      }
      var seeds := reopened.GetInUseSubinterfaceIPs();
      LoadedIsDisk(reopened.configs, s0.disk);
      store := reopened;
      ipam := new LocalIPAM(seeds);
      RunExtends(INITIAL, trace, s0, Crash);
      trace := trace + [Crash];
      return true;
    }
  }

  /** What a successful preparation leaves: the configuration in memory and on disk, and the
      allocator grown by exactly its addresses, all of them new. */
  ghost predicate Stored(s: State, t: State, uid: string, dev: string, cfg: DeviceConfig, foreign: bool) {
    && t.memory == Put(s.memory, uid, dev, cfg)
    && t.disk == Put(s.disk, uid, dev, cfg)
    && t.ipam == s.ipam + (if foreign then {} else Released(cfg.conf))
    && (!foreign ==> Released(cfg.conf) !! s.ipam)
  }

  /** The device is stored for the claim as it was configured, with the addresses it resolves to. */
  ghost predicate Prepared(s: State, t: State, uid: string, dev: string, claim: string, merged: NetConf, env: Env) {
    && Has(t.memory, uid, dev)
    && var cfg := t.memory[uid][dev];
       && Stored(s, t, uid, dev, cfg, Foreign(merged, env.recognised))
       && cfg.claim == claim && cfg.conf == merged.(addresses := cfg.conf.addresses)
       && if merged.subinterface then ResolvedAddresses(s.ipam, merged, env, cfg.conf.addresses)
          else cfg.conf.addresses == env.found
  }

  lemma {:induction false} StoredIsPrepared(s: State, t: State, uid: string, dev: string, claim: string,
                                            merged: NetConf, profile: Profile, env: Env)
    requires Stored(s, t, uid, dev, DeviceConfig(claim, StoredConf(Effective(merged, profile), env)),
                    Foreign(merged, env.recognised))
    requires merged.subinterface ==> ResolvedAddresses(s.ipam, merged, env, Effective(merged, profile).addresses)
    ensures Prepared(s, t, uid, dev, claim, merged, env)
  {
  }

  ghost function CommitHistory(s: State, resolve: Action, stored: NetConf): History
    requires resolve.Resolve? && Enabled(s, resolve)
    requires Storable(Effective(resolve.merged, resolve.profile), stored)
  {
    Next(Next(s, resolve), WriteCheckpoint(stored)).history
  }

  lemma {:induction false} CommitRun(s: State, resolve: Action, stored: NetConf, t: State) returns (acts: seq<Action>)
    requires resolve.Resolve? && Enabled(s, resolve)
    requires Storable(Effective(resolve.merged, resolve.profile), stored)
    requires var cfg := DeviceConfig(resolve.claim, stored);
             t == State(s.ipam + AddrsOf(Acquired(resolve.merged, resolve.recognised, resolve.profile)),
                        Put(s.memory, resolve.uid, resolve.dev, cfg), Put(s.disk, resolve.uid, resolve.dev, cfg),
                        Idle, CommitHistory(s, resolve, stored))
    ensures RunsTo(s, acts, t)
    ensures Stored(s, t, resolve.uid, resolve.dev, DeviceConfig(resolve.claim, stored),
                   Foreign(resolve.merged, resolve.recognised))
  {
    if !Foreign(resolve.merged, resolve.recognised) {
      ResolvedHoldsAcquired(resolve.merged, resolve.recognised, resolve.profile, s.ipam);
    }
    var s1 := Next(s, resolve);
    var s2 := Next(s1, WriteCheckpoint(stored));
    RunExtends(s, [], s, resolve);
    RunExtends(s, [] + [resolve], s1, WriteCheckpoint(stored));
    RunExtends(s, [] + [resolve] + [WriteCheckpoint(stored)], s2, WriteMemory);
    acts := [] + [resolve] + [WriteCheckpoint(stored)] + [WriteMemory];
  }

  lemma {:induction false} AbortRun(s: State, resolve: Action, t: State) returns (acts: seq<Action>)
    requires resolve.Resolve? && Enabled(s, resolve)
    requires t == s.(ipam := RolledBack(s.ipam, resolve.merged, resolve.recognised),
                     history := Next(s, resolve).history)
    ensures RunsTo(s, acts, t)
  {
    RollbackValue(resolve.merged, resolve.recognised, resolve.profile, s.ipam);
    var s1 := Next(s, resolve);
    RunExtends(s, [], s, resolve);
    RunExtends(s, [] + [resolve], s1, Abort);
    acts := [] + [resolve] + [Abort];
  }

  /** done holds the claim's devices outside the pods to come and the devices to come of pod uid. */
  ghost predicate DoneWith(p: Pods, claim: string, done: set<(string, string)>, pods: set<string>,
                           uid: string, devices: set<string>) {
    forall u, d :: (u, d) in done <==> OfClaim(p, u, d, claim) && u !in pods && !(u == uid && d in devices)
  }

  lemma {:induction false} DoneWithPod(p: Pods, claim: string, done: set<(string, string)>, pods: set<string>,
                                       uid: string)
    requires uid in p && uid !in pods && DoneWith(p, claim, done, pods + {uid}, "", {})
    ensures DoneWith(p, claim, done, pods, uid, p[uid].Keys)
  {
  }

  lemma {:induction false} DoneWithDevice(p: Pods, claim: string, done: set<(string, string)>, pods: set<string>,
                       uid: string, devices: set<string>, dev: string)
    requires uid in p && uid !in pods && dev in devices && devices <= p[uid].Keys
    requires DoneWith(p, claim, done, pods, uid, devices)
    ensures DoneWith(p, claim, if p[uid][dev].claim == claim then done + {(uid, dev)} else done,
                     pods, uid, devices - {dev})
    ensures (uid, dev) !in done
  {
  }

  lemma {:induction false} ReleaseStep(s0: State, acts: seq<Action>, s: State, uid: string, dev: string)
    returns (acts': seq<Action>, done': set<(string, string)>)
    requires RunsTo(s0, acts, s) && s.job.Releasing?
    requires OfClaim(s.memory, uid, dev, s.job.claim) && (uid, dev) !in s.job.done
    requires s.ipam == s0.ipam - DoneAddrs(s.memory, s.job.done)
    ensures done' == s.job.done + {(uid, dev)}
    ensures RunsTo(s0, acts', s.(ipam := s.ipam - Released(s.memory[uid][dev].conf),
                                 job := Releasing(s.job.claim, done')))
    ensures s.ipam - Released(s.memory[uid][dev].conf) == s0.ipam - DoneAddrs(s.memory, done')
  {
    RunExtends(s0, acts, s, ReleaseDevice(uid, dev));
    DoneAddrsExtend(s.memory, s.job.done, uid, dev);
    acts', done' := acts + [ReleaseDevice(uid, dev)], s.job.done + {(uid, dev)};
  }

  /** The addresses held by the devices in done. */
  function DoneAddrs(p: Pods, done: set<(string, string)>): set<Addr> {
    set x, a | x in done && a in DeviceAddrs(p, x.0, x.1) :: a
  }

  function DeviceAddrs(p: Pods, u: string, d: string): set<Addr> {
    if Has(p, u, d) then Released(p[u][d].conf) else {}
  }

  lemma {:induction false} DoneAddrsExtend(p: Pods, done: set<(string, string)>, u: string, d: string)
    ensures DoneAddrs(p, done + {(u, d)}) == DoneAddrs(p, done) + DeviceAddrs(p, u, d)
  {
    var more := done + {(u, d)};
    forall a | a in DoneAddrs(p, done) + DeviceAddrs(p, u, d) ensures a in DoneAddrs(p, more) {
      if a in DeviceAddrs(p, u, d) {
        assert (u, d) in more;
      } else {
        var x :| x in done && a in DeviceAddrs(p, x.0, x.1);
        assert x in more;
      }
    }
  }

  lemma {:induction false} DoneIsClaim(p: Pods, done: set<(string, string)>, claim: string)
    requires forall u, d :: (u, d) in done <==> OfClaim(p, u, d, claim)
    ensures DoneAddrs(p, done) == ClaimAddrs(p, claim)
  {
    forall a | a in ClaimAddrs(p, claim) ensures a in DoneAddrs(p, done) {
      var u, d :| u in p && d in p[u] && p[u][d].claim == claim && a in Released(p[u][d].conf);
      assert OfClaim(p, u, d, claim);
      assert (u, d) in done && a in DeviceAddrs(p, (u, d).0, (u, d).1);
    }
    forall a | a in DoneAddrs(p, done) ensures a in ClaimAddrs(p, claim) {
      var x :| x in done && a in DeviceAddrs(p, x.0, x.1);
      assert (x.0, x.1) in done;
    }
  }

  lemma {:induction false} DropStep(s: State, pods: set<string>, gone: set<string>, uid: string)
    requires s.job.Dropping? && pods == PodsOfClaim(s.memory, s.job.claim) && gone <= pods && uid in pods
    ensures var t := Next(s, DropPod(uid, uid in gone));
            && PodsOfClaim(t.memory, s.job.claim) == pods - {uid}
            && t.memory - (pods - {uid}) == s.memory - pods
            && t.disk - (gone - {uid}) == s.disk - gone
  {
  }

  lemma {:induction false} FailuresAddUp(pods: set<string>, gone: set<string>, uid: string)
    requires gone <= pods && uid in pods
    ensures gone != pods <==> uid !in gone || gone - {uid} != pods - {uid}
  {
    if uid in gone && gone - {uid} == pods - {uid} {
      assert gone == {uid} + (gone - {uid}) == {uid} + (pods - {uid}) == pods;
    }
  }

  /** Dropping the pods of a claim one at a time, in any order, deletes in gone going through. */
  lemma {:induction false} DropRun(s: State, pods: set<string>, gone: set<string>)
    returns (acts: seq<Action>, h: History)
    requires s.job.Dropping? && pods == PodsOfClaim(s.memory, s.job.claim) && gone <= pods
    ensures RunsTo(s, acts, s.(memory := s.memory - pods, disk := s.disk - gone, job := Idle, history := h))
    ensures h == s.history.(deleteFailed := s.history.deleteFailed || gone != pods)
    decreases |pods|
  {
    if pods == {} {
      RunExtends(s, [], s, EndUnprepare);
      acts, h := [] + [EndUnprepare], s.history;
      assert s.memory - pods == s.memory && s.disk - gone == s.disk;
    } else {
      var uid :| uid in pods;
      DropStep(s, pods, gone, uid);
      FailuresAddUp(pods, gone, uid);
      var drop := DropPod(uid, uid in gone);
      acts, h := DropRun(Next(s, drop), pods - {uid}, gone - {uid});
      assert ([drop] + acts)[1..] == acts;
      acts := [drop] + acts;
    }
  }

  lemma {:induction false} LoadedIsDisk(configs: Pods, disk: Pods)
    requires NoEmptyPods(configs) && Within(configs, disk) && Within(disk, configs)
    ensures configs == Loaded(disk)
  {
    forall uid ensures uid in configs <==> uid in disk && disk[uid] != map[] {
      if uid in configs {
        var d :| d in configs[uid];
        assert Has(configs, uid, d);
      }
      if uid in disk && disk[uid] != map[] {
        var d :| d in disk[uid];
        assert Has(disk, uid, d);
      }
    }
    forall uid | uid in configs ensures configs[uid] == disk[uid] {
      forall d ensures d in configs[uid] <==> d in disk[uid] {
        assert Has(configs, uid, d) <==> Has(disk, uid, d);
      }
      forall d | d in configs[uid] ensures configs[uid][d] == disk[uid][d] {
        assert Has(configs, uid, d);
      }
    }
  }
}
