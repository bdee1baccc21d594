/**
 The store of prepared device configurations: an in-memory map that every read is
 served from, written through to a durable checkpoint it is reloaded from at start.
 */
module PodConfigs {
  import opened Results
  import opened LocalIpam

  /** The part of a network configuration the claim lifecycle depends on. */
  datatype NetConf = NetConf(profile: string, subinterface: bool, dhcp: bool, addresses: seq<CidrText>)

  datatype DeviceConfig = DeviceConfig(claim: string, conf: NetConf)

  type Devices = map<string, DeviceConfig>

  /** Device configurations by pod UID and device name. */
  type Pods = map<string, Devices>

  predicate Has(p: Pods, uid: string, dev: string) {
    uid in p && dev in p[uid]
  }

  function Put(p: Pods, uid: string, dev: string, cfg: DeviceConfig): Pods {
    p[uid := (if uid in p then p[uid] else map[])[dev := cfg]]
  }

  ghost predicate NoEmptyPods(p: Pods) {
    forall uid :: uid in p ==> p[uid] != map[]
  }

  /** Everything in p is in q, unchanged. */
  ghost predicate Within(p: Pods, q: Pods) {
    forall uid, dev :: Has(p, uid, dev) ==> Has(q, uid, dev) && q[uid][dev] == p[uid][dev]
  }

  predicate UsesClaim(devices: Devices, claim: string) {
    exists dev :: dev in devices && devices[dev].claim == claim
  }

  function PodsOfClaim(p: Pods, claim: string): set<string> {
    set uid | uid in p && UsesClaim(p[uid], claim)
  }

  /** The addresses of one configuration, if it is a subinterface. */
  function SubAddrs(cfg: DeviceConfig): set<Addr> {
    if cfg.conf.subinterface then AddrsOf(cfg.conf.addresses) else {}
  }

  function DevicesAddrs(devices: Devices): set<Addr> {
    set dev, a | dev in devices && a in SubAddrs(devices[dev]) :: a
  }

  /** All subinterface addresses stored. */
  function PodsAddrs(p: Pods): set<Addr> {
    set uid, a | uid in p && a in DevicesAddrs(p[uid]) :: a
  }

  lemma {:induction false} AddrsOfConcat(s: seq<CidrText>, t: seq<CidrText>)
    ensures AddrsOf(s + t) == AddrsOf(s) + AddrsOf(t)
  {
    forall a | a in AddrsOf(s) + AddrsOf(t) ensures a in AddrsOf(s + t) {
      if a in AddrsOf(s) {
        var i :| 0 <= i < |s| && s[i].Cidr? && s[i].addr == a;
        assert (s + t)[i] == s[i];
      } else {
        var i :| 0 <= i < |t| && t[i].Cidr? && t[i].addr == a;
        assert (s + t)[|s| + i] == t[i];
      }
    }
  }

  /** The checkpoint database: one bucket a pod, one entry a device. A transaction commits or
      leaves everything as it was; commits says which. */
  class BoltCheckpointer {
    var buckets: Pods

    constructor ()
      ensures buckets == map[]
    {
      buckets := map[];
    }

    method Store(uid: string, dev: string, cfg: DeviceConfig, commits: bool) returns (ok: bool)
      modifies this
      ensures ok == commits
      ensures buckets == if ok then Put(old(buckets), uid, dev, cfg) else old(buckets)
    {
      if !commits {
        return false;
      }
      var bucket := if uid in buckets then buckets[uid] else map[];
      buckets := buckets[uid := bucket[dev := cfg]];
      return true;
    }

    /** Everything stored, without pods that hold no device; nothing if the database is unreadable. */
    method GetOrCreate(readable: bool) returns (r: Option<Pods>)
      ensures r.Some? <==> readable
      ensures r.Some? ==> NoEmptyPods(r.value) && Within(r.value, buckets) && Within(buckets, r.value)
    {
      if !readable {
        return None;
      }
      var result: Pods := map[];
      var todo := buckets.Keys;
      while todo != {}
        invariant todo <= buckets.Keys
        invariant forall uid :: uid in result <==> uid in buckets && uid !in todo && buckets[uid] != map[]
        invariant forall uid :: uid in result ==> result[uid] == buckets[uid]
        decreases |todo|
      {
        var uid :| uid in todo;
        todo := todo - {uid};
        if |buckets[uid]| > 0 {
          result := result[uid := buckets[uid]];
        }
      }
      return Some(result);
    }

    method DeletePod(uid: string, commits: bool) returns (ok: bool)
      modifies this
      ensures ok == commits
      ensures buckets == if ok then old(buckets) - {uid} else old(buckets)
    {
      if commits {
        buckets := buckets - {uid};
      }
      return commits;
    }
  }

  /** The pods whose delete goes through. */
  function Committed(pods: set<string>, commits: string -> bool): set<string> {
    set uid | uid in pods && commits(uid)
  }

  class PodConfigStore {
    var configs: Pods
    const checkpointer: BoltCheckpointer

    /** Loads what the checkpoint holds, as at a daemon start. */
    constructor Load(checkpointer: BoltCheckpointer, saved: Pods)
      requires NoEmptyPods(saved) && Within(saved, checkpointer.buckets) && Within(checkpointer.buckets, saved)
      ensures this.checkpointer == checkpointer
      ensures configs == saved
    {
      this.checkpointer := checkpointer;
      configs := saved;
    }

    /** Writes disk before memory; a failed write changes neither. */
    method SetDeviceConfig(uid: string, dev: string, cfg: DeviceConfig, commits: bool) returns (ok: bool)
      modifies this, checkpointer
      ensures ok == commits
      ensures configs == if ok then Put(old(configs), uid, dev, cfg) else old(configs)
      ensures checkpointer.buckets
           == if ok then Put(old(checkpointer.buckets), uid, dev, cfg) else old(checkpointer.buckets)
    {
      ok := checkpointer.Store(uid, dev, cfg, commits);
      if !ok {
        return;
      }
      if uid !in configs {
        configs := configs[uid := map[]];
      }
      configs := configs[uid := configs[uid][dev := cfg]];
    }

    method GetDeviceConfig(uid: string, dev: string) returns (r: Option<DeviceConfig>)
      ensures r == if Has(configs, uid, dev) then Some(configs[uid][dev]) else None
    {
      if uid in configs {
        if dev in configs[uid] {
          return Some(configs[uid][dev]);
        }
      }
      return None;
    }

    method FindClaim(devices: Devices, claim: string) returns (found: bool)
      ensures found == UsesClaim(devices, claim)
    {
      var todo := devices.Keys;
      while todo != {}
        invariant todo <= devices.Keys
        invariant forall dev :: dev in devices && dev !in todo ==> devices[dev].claim != claim
        decreases |todo|
      {
        var dev :| dev in todo;
        if devices[dev].claim == claim {
          return true;
        }
        todo := todo - {dev};
      }
      return false;
    }

    method FindPods(claim: string) returns (found: seq<string>)
      ensures (set uid | uid in found) == PodsOfClaim(configs, claim)
    {
      found := [];
      var todo := configs.Keys;
      while todo != {}
        invariant todo <= configs.Keys
        invariant forall uid :: uid in found <==> uid in PodsOfClaim(configs, claim) && uid !in todo
        decreases |todo|
      {
        var uid :| uid in todo;
        todo := todo - {uid};
        var uses := FindClaim(configs[uid], claim);
        if uses {
          found := found + [uid];
        }
      }
    }

    /** Drops every pod that uses the claim, with all its devices, from memory; the checkpoint loses
        those of them whose delete goes through. */
    method DeleteClaim(claim: string, commits: string -> bool) returns (dropped: seq<string>)
      modifies this, checkpointer
      ensures (set uid | uid in dropped) == PodsOfClaim(old(configs), claim)
      ensures configs == old(configs) - PodsOfClaim(old(configs), claim)
      ensures checkpointer.buckets == old(checkpointer.buckets) - Committed(PodsOfClaim(old(configs), claim), commits)
    {
      dropped := FindPods(claim);
      ghost var gone: set<string> := {};
      ghost var done: set<string> := {};
      assert configs == old(configs) - done && checkpointer.buckets == old(checkpointer.buckets) - gone;
      for i := 0 to |dropped|
        invariant done == set uid | uid in dropped[..i]
        invariant configs == old(configs) - done
        invariant gone == Committed(done, commits)
        invariant checkpointer.buckets == old(checkpointer.buckets) - gone
      {
        var uid := dropped[i];
        assert dropped[..i + 1] == dropped[..i] + [uid];
        var ok := checkpointer.DeletePod(uid, commits(uid));
        if ok {
          gone := gone + {uid};
        }
        configs := configs - {uid};
        done := done + {uid};
      }
      assert dropped[..|dropped|] == dropped;
    }

    /** The addresses that seed the allocator at start. */
    method GetInUseSubinterfaceIPs() returns (ips: seq<CidrText>)
      ensures AddrsOf(ips) == PodsAddrs(configs)
    {
      ips := [];
      ghost var done: Pods := map[];
      var todo := configs.Keys;
      while todo != {}
        invariant todo <= configs.Keys
        invariant done == map uid | uid in configs && uid !in todo :: configs[uid]
        invariant AddrsOf(ips) == PodsAddrs(done)
        decreases |todo|
      {
        var uid :| uid in todo;
        todo := todo - {uid};
        var more := DevicesIPs(configs[uid]);
        AddrsOfConcat(ips, more);
        ips := ips + more;
        ghost var before := done;
        done := done[uid := configs[uid]];
        PodsAddrsExtend(before, uid, configs[uid]);
      }
      assert done == configs;
    }

    method DevicesIPs(devices: Devices) returns (ips: seq<CidrText>)
      ensures AddrsOf(ips) == DevicesAddrs(devices)
    {
      ips := [];
      ghost var done: Devices := map[];
      var todo := devices.Keys;
      while todo != {}
        invariant todo <= devices.Keys
        invariant done == map dev | dev in devices && dev !in todo :: devices[dev]
        invariant AddrsOf(ips) == DevicesAddrs(done)
        decreases |todo|
      {
        var dev :| dev in todo;
        todo := todo - {dev};
        DevicesAddrsExtend(done, dev, devices[dev]);
        done := done[dev := devices[dev]];
        if devices[dev].conf.subinterface {
          AddrsOfConcat(ips, devices[dev].conf.addresses);
          ips := ips + devices[dev].conf.addresses;
        }
      }
      assert done == devices;
    }
  }

  /** A daemon start: the store holds what the checkpoint does, or there is no store. */
  method OpenStore(checkpointer: BoltCheckpointer, readable: bool) returns (s: PodConfigStore?)
    ensures s != null <==> readable
    ensures s != null ==> && fresh(s) && s.checkpointer == checkpointer && NoEmptyPods(s.configs)
                          && Within(s.configs, checkpointer.buckets) && Within(checkpointer.buckets, s.configs)
  {
    var saved := checkpointer.GetOrCreate(readable);
    if saved.None? {
      return null;
    }
    s := new PodConfigStore.Load(checkpointer, saved.value);
  }

  lemma {:induction false} DevicesAddrsExtend(d: Devices, dev: string, cfg: DeviceConfig)
    requires dev !in d
    ensures DevicesAddrs(d[dev := cfg]) == DevicesAddrs(d) + SubAddrs(cfg)
  {
    var e := d[dev := cfg];
    forall a | a in DevicesAddrs(d) + SubAddrs(cfg) ensures a in DevicesAddrs(e) {
      if a in SubAddrs(cfg) {
        assert e[dev] == cfg;
      } else {
        var x :| x in d && a in SubAddrs(d[x]);
        assert e[x] == d[x];
      }
    }
  }

  lemma {:induction false} PodsAddrsExtend(p: Pods, uid: string, devices: Devices)
    requires uid !in p
    ensures PodsAddrs(p[uid := devices]) == PodsAddrs(p) + DevicesAddrs(devices)
  {
    var q := p[uid := devices];
    forall a | a in PodsAddrs(p) + DevicesAddrs(devices) ensures a in PodsAddrs(q) {
      if a in DevicesAddrs(devices) {
        assert q[uid] == devices;
      } else {
        var x :| x in p && a in DevicesAddrs(p[x]);
        assert q[x] == p[x];
      }
    }
  }
}
