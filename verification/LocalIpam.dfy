/**
 The node-local address allocator: a set of addresses in use, a cyclic walk over
 an inclusive range from a random starting offset, and the three operations
 providers call (Allocate, Reserve, Release).
 */
module LocalIpam {

  import opened Results

  datatype Family = V4 | V6

  const MAX_INT64: nat := 0x7FFF_FFFF_FFFF_FFFF
  const MAX_UINT64: nat := 0xFFFF_FFFF_FFFF_FFFF

  /** The largest address of a family. */
  function Top(f: Family): nat {
    if f.V4? then 0xFFFF_FFFF else 0xFFFF_FFFF_FFFF_FFFF_FFFF_FFFF_FFFF_FFFF
  }

  datatype RawAddr = RawAddr(family: Family, value: nat)

  /** A valid address: its value fits the family's width. */
  type Addr = a: RawAddr | a.value <= Top(a.family) witness RawAddr(V4, 0)

  /** An address in CIDR text form; the allocator looks only at its address part. */
  datatype CidrText = Cidr(addr: Addr, bits: nat) | Malformed(text: string)

  /** The addresses a list of CIDR texts denotes; texts that do not parse denote none. */
  function AddrsOf(texts: seq<CidrText>): (s: set<Addr>)
    ensures forall a :: a in s <==> exists i :: 0 <= i < |texts| && texts[i].Cidr? && texts[i].addr == a
  {
    set t | t in texts && t.Cidr? :: t.addr
  }

  /** The address the walk starts at: first+offset, or first when that lies past the range. */
  function WalkStart(first: nat, last: nat, offset: nat): nat {
    if first + offset > last then first else first + offset
  }

  /** How many addresses the walk visits. It wraps back to the first address only if the last
      one has a successor in its family, and visits nothing if its start overflows. */
  function WalkLen(f: Family, first: nat, last: nat, offset: nat): nat
    requires first <= last <= Top(f)
  {
    if first + offset > Top(f) then 0
    else if last == Top(f) then last - WalkStart(first, last, offset) + 1
    else last - first + 1
  }

  /** The k-th value of the walk: up to the end of the range, then on from its first address. */
  function WalkValue(first: nat, last: nat, offset: nat, k: nat): int {
    var v := WalkStart(first, last, offset) + k;
    if v <= last then v else v - (last - first + 1)
  }

  function Walk(f: Family, first: nat, last: nat, offset: nat): (w: seq<Addr>)
    requires first <= last <= Top(f)
    ensures |w| == WalkLen(f, first, last, offset)
    ensures forall k :: 0 <= k < |w| ==> w[k] == RawAddr(f, WalkValue(first, last, offset, k))
  {
    var n := WalkLen(f, first, last, offset);
    seq(n, k requires 0 <= k < n => RawAddr(f, WalkValue(first, last, offset, k)))
  }

  ghost predicate Distinct<T>(s: seq<T>) {
    forall i, j :: 0 <= i < j < |s| ==> s[i] != s[j]
  }

  ghost predicate InRange(a: Addr, f: Family, first: nat, last: nat) {
    a.family == f && first <= a.value <= last
  }

  /** No address is visited twice and none outside the range is visited. */
  lemma {:induction false} WalkVisitsOnce(f: Family, first: nat, last: nat, offset: nat)
    requires first <= last <= Top(f)
    ensures Distinct(Walk(f, first, last, offset))
    ensures forall a :: a in Walk(f, first, last, offset) ==> InRange(a, f, first, last)
  {
  }

  /** Exactly when the walk is complete: it visits the whole range if and only if the starting
      offset stays in the address space and, for a range that ends at the family's last
      address, the walk starts at the range's first address. */
  lemma {:induction false} WalkCoversRange(f: Family, first: nat, last: nat, offset: nat)
    requires first <= last <= Top(f)
    ensures (forall a: Addr :: InRange(a, f, first, last) ==> a in Walk(f, first, last, offset))
       <==> first + offset <= Top(f) && (last != Top(f) || WalkStart(first, last, offset) == first)
  {
    var w := Walk(f, first, last, offset);
    if first + offset <= Top(f) {
      var start := WalkStart(first, last, offset);
      if last == Top(f) && start != first {
        assert InRange(RawAddr(f, first), f, first, last) && RawAddr(f, first) !in w;
      } else {
        forall a: Addr | InRange(a, f, first, last) ensures a in w {
          var k := if a.value >= start then a.value - start else last - start + 1 + (a.value - first);
          assert w[k] == RawAddr(f, WalkValue(first, last, offset, k));
        }
      }
    } else {
      assert InRange(RawAddr(f, first), f, first, last) && RawAddr(f, first) !in w;
    }
  }

  /** The offsets randomizedBounds draws: below the range size, or any uint64 for a range of
      MaxInt64 addresses and more. */
  predicate Drawable(first: nat, last: nat, offset: nat) {
    if last - first + 1 >= MAX_INT64 then offset <= MAX_UINT64 else offset < last - first + 1
  }

  /** Every drawable offset stays in the address space, so that only the end of the range matters, if and
      only if the range is IPv4, is small enough to be counted, or leaves 2^64 addresses above its first. */
  lemma {:induction false} DrawnOffsetsStayInSpace(f: Family, first: nat, last: nat)
    requires first <= last <= Top(f)
    ensures (forall offset: nat :: Drawable(first, last, offset) ==> first + offset <= Top(f))
       <==> f.V4? || first + MAX_UINT64 <= Top(f) || last - first + 1 < MAX_INT64
  {
    if f.V6? && last - first + 1 >= MAX_INT64 {
      assert Drawable(first, last, MAX_UINT64);
    }
  }

  /** The closure ipIterator returns, as an object with the variables it captures. */
  class IpIterator {
    const family: Family
    const first: nat
    const last: nat
    const offset: nat
    const broken: bool // the starting address overflowed: every call returns the invalid address
    const start: nat
    var ip: Option<Addr> // None is the invalid address
    var seen: bool
    ghost var yielded: nat // how many addresses the calls so far returned

    ghost predicate Valid()
      reads this
    {
      && first <= last <= Top(family)
      && broken == (first + offset > Top(family))
      && start == WalkStart(first, last, offset)
      && yielded <= WalkLen(family, first, last, offset)
      && seen == (yielded > 0)
      && (!broken ==>
            ip == (if yielded < WalkLen(family, first, last, offset)
                   then Some(RawAddr(family, WalkValue(first, last, offset, yielded)))
                   else if last == Top(family) then None
                   else Some(RawAddr(family, start))))
    }

    constructor (family: Family, first: nat, last: nat, offset: nat)
      requires first <= last <= Top(family)
      ensures Valid() && yielded == 0
      ensures this.family == family && this.first == first && this.last == last && this.offset == offset
    {
      this.family, this.first, this.last, this.offset := family, first, last, offset;
      var sum := first + offset;
      this.broken := sum > Top(family);
      this.start := WalkStart(first, last, offset);
      this.ip := if sum > Top(family) then None else Some(RawAddr(family, WalkStart(first, last, offset)));
      this.seen := false;
      this.yielded := 0;
    }

    /** Addr.Next followed by the wrap at the end of the range. */
    function Succ(a: Addr): (r: Option<Addr>)
      requires first <= Top(a.family)
    {
      if a.value == Top(a.family) then None
      else if a.value + 1 > last then Some(RawAddr(a.family, first))
      else Some(RawAddr(a.family, a.value + 1))
    }

    /** Call number k returns the k-th address of the walk, then the invalid address. */
    method Next() returns (r: Option<Addr>)
      requires Valid()
      modifies this
      ensures Valid()
      ensures r == if old(yielded) < WalkLen(family, first, last, offset)
                   then Some(RawAddr(family, WalkValue(first, last, offset, old(yielded)))) else None
      ensures yielded == old(yielded) + (if r.Some? then 1 else 0)
    {
      if broken {
        return None;
      }
      var value := ip;
      if value.None? {
        return None;
      }
      if value.value.value == start {
        if seen {
          return None;
        }
        seen := true;
      }
      ip := Succ(value.value);
      yielded := yielded + 1;
      return value;
    }
  }

  /** The first address of a walk that is not in use. */
  function FirstFree(w: seq<Addr>, used: set<Addr>): Option<Addr> {
    if w == [] then None else if w[0] !in used then Some(w[0]) else FirstFree(w[1..], used)
  }

  lemma {:induction false} FirstFreeIsFree(w: seq<Addr>, used: set<Addr>)
    ensures FirstFree(w, used).None? <==> forall a :: a in w ==> a in used
    ensures FirstFree(w, used).Some? ==> FirstFree(w, used).value in w && FirstFree(w, used).value !in used
  {
    if w != [] {
      FirstFreeIsFree(w[1..], used);
      assert forall a :: a in w <==> a == w[0] || a in w[1..];
    }
  }

  /** Skipping an address that is in use does not change the first free one. */
  lemma {:induction false} FirstFreeStep(w: seq<Addr>, used: set<Addr>, k: nat)
    requires k < |w|
    ensures FirstFree(w[k..], used) == if w[k] in used then FirstFree(w[k + 1..], used) else Some(w[k])
  {
    assert w[k..][1..] == w[k + 1..];
  }

  /** An inclusive range as a caller supplies it; a bound may be the invalid address. */
  datatype IPRange = IPRange(start: Option<Addr>, end: Option<Addr>)

  predicate ValidRange(r: IPRange) {
    && r.start.Some? && r.end.Some?
    && r.start.value.family == r.end.value.family
    && r.start.value.value <= r.end.value.value
  }

  function RangeFamily(r: IPRange): Family
    requires ValidRange(r)
  {
    r.start.value.family
  }

  ghost predicate InIPRange(a: Addr, r: IPRange)
    requires ValidRange(r)
  {
    InRange(a, RangeFamily(r), r.start.value.value, r.end.value.value)
  }

  function RangeWalk(r: IPRange, offset: nat): seq<Addr>
    requires ValidRange(r)
  {
    Walk(RangeFamily(r), r.start.value.value, r.end.value.value, offset)
  }

  /** Why Allocate may fail: a bad range, a second range of a family, or a range whose walk
      (from some drawable offset) has no free address left. */
  ghost predicate AllocateMayFail(ranges: seq<IPRange>, used: set<Addr>) {
    exists i :: 0 <= i < |ranges| &&
      (|| !ValidRange(ranges[i])
       || (exists j :: 0 <= j < i && ValidRange(ranges[j]) && RangeFamily(ranges[j]) == RangeFamily(ranges[i]))
       || Exhausted(ranges[i], used))
  }

  ghost predicate Exhausted(r: IPRange, used: set<Addr>)
    requires ValidRange(r)
  {
    exists offset: nat :: Drawable(r.start.value.value, r.end.value.value, offset)
      && FirstFree(RangeWalk(r, offset), used).None?
  }

  function Single(o: Option<Addr>): set<Addr> {
    if o.Some? then {o.value} else {}
  }

  lemma {:induction false} SinglesAreMembers(v4: Option<Addr>, v6: Option<Addr>)
    ensures Single(v4) + Single(v6) == set a | a in Opt(v4) + Opt(v6)
  {
  }

  function Opt(o: Option<Addr>): seq<Addr> {
    if o.Some? then [o.value] else []
  }

  /** What a successful Allocate returns: one new address per range, at most one range a family. */
  ghost predicate Serves(ranges: seq<IPRange>, got: seq<Addr>, before: set<Addr>) {
    && |got| == |ranges| <= 2
    && (forall a :: a in got ==> a !in before)
    && (|got| == 2 ==> got[0].family.V4? && got[1].family.V6?)
    && (forall i :: 0 <= i < |ranges| ==> ValidRange(ranges[i]) && exists a :: a in got && InIPRange(a, ranges[i]))
    && (forall i, j :: 0 <= i < j < |ranges| ==> RangeFamily(ranges[i]) != RangeFamily(ranges[j]))
  }

  /** The state of Allocate's loop after i ranges. */
  ghost predicate Progress(ranges: seq<IPRange>, i: nat, v4: Option<Addr>, v6: Option<Addr>, before: set<Addr>) {
    && i <= |ranges|
    && |Opt(v4)| + |Opt(v6)| == i
    && (forall j :: 0 <= j < i ==>
          && ValidRange(ranges[j])
          && var mine := if RangeFamily(ranges[j]).V4? then v4 else v6;
             mine.Some? && InIPRange(mine.value, ranges[j]))
    && (forall j, k :: 0 <= j < k < i ==> RangeFamily(ranges[j]) != RangeFamily(ranges[k]))
    && (v4.Some? ==> v4.value.family.V4? && v4.value !in before && exists j :: 0 <= j < i && RangeFamily(ranges[j]).V4?)
    && (v6.Some? ==> v6.value.family.V6? && v6.value !in before && exists j :: 0 <= j < i && RangeFamily(ranges[j]).V6?)
  }

  lemma {:induction false} ProgressStep(ranges: seq<IPRange>, i: nat, v4: Option<Addr>, v6: Option<Addr>,
                                        before: set<Addr>, ip: Option<Addr>)
    requires Progress(ranges, i, v4, v6, before) && i < |ranges| && ValidRange(ranges[i])
    requires if RangeFamily(ranges[i]).V4? then v4.None? else v6.None?
    requires ip.Some? && ip.value !in before && InIPRange(ip.value, ranges[i])
    ensures if RangeFamily(ranges[i]).V4? then Progress(ranges, i + 1, ip, v6, before)
            else Progress(ranges, i + 1, v4, ip, before)
  {
  }

  /** A bad range, or a second one of a family. */
  lemma {:induction false} RangeRefused(ranges: seq<IPRange>, i: nat, v4: Option<Addr>, v6: Option<Addr>,
                                        before: set<Addr>)
    requires Progress(ranges, i, v4, v6, before) && i < |ranges|
    requires ValidRange(ranges[i]) ==> if RangeFamily(ranges[i]).V4? then v4.Some? else v6.Some?
    ensures AllocateMayFail(ranges, before)
  {
  }

  lemma {:induction false} ProgressDone(ranges: seq<IPRange>, v4: Option<Addr>, v6: Option<Addr>, before: set<Addr>)
    requires Progress(ranges, |ranges|, v4, v6, before)
    ensures Serves(ranges, Opt(v4) + Opt(v6), before)
  {
    var got := Opt(v4) + Opt(v6);
    forall i | 0 <= i < |ranges| ensures exists a :: a in got && InIPRange(a, ranges[i]) {
      var mine := if RangeFamily(ranges[i]).V4? then v4 else v6;
      assert mine.value in got;
    }
  }

  class LocalIPAM {
    var allocatedIPs: set<Addr>

    /** Seeds the allocator; texts that do not parse are skipped. */
    constructor (initial: seq<CidrText>)
      ensures allocatedIPs == AddrsOf(initial)
    {
      var ips: set<Addr> := {};
      for i := 0 to |initial|
        invariant ips == AddrsOf(initial[..i])
      {
        assert initial[..i + 1] == initial[..i] + [initial[i]];
        if initial[i].Cidr? {
          ips := ips + {initial[i].addr};
        }
      }
      assert initial[..|initial|] == initial;
      allocatedIPs := ips;
    }

    method Release(text: CidrText)
      modifies this
      ensures allocatedIPs == old(allocatedIPs) - AddrsOf([text])
    {
      if text.Malformed? {
        return;
      }
      allocatedIPs := allocatedIPs - {text.addr};
    }

    /** Succeeds exactly when every text parses and no address is in use; otherwise nothing changes. */
    method Reserve(texts: seq<CidrText>) returns (ok: bool)
      modifies this
      ensures ok <==> (forall t :: t in texts ==> t.Cidr?) && AddrsOf(texts) !! old(allocatedIPs)
      ensures allocatedIPs == if ok then old(allocatedIPs) + AddrsOf(texts) else old(allocatedIPs)
    {
      var parsed: seq<Addr> := [];
      for i := 0 to |texts|
        invariant allocatedIPs == old(allocatedIPs)
        invariant forall t :: t in texts[..i] ==> t.Cidr?
        invariant (set a | a in parsed) == AddrsOf(texts[..i])
        invariant AddrsOf(texts[..i]) !! allocatedIPs
      {
        assert texts[..i + 1] == texts[..i] + [texts[i]];
        if texts[i].Malformed? {
          assert texts[i] in texts;
          return false;
        }
        if texts[i].addr in allocatedIPs {
          assert texts[i].addr in AddrsOf(texts);
          return false;
        }
        parsed := parsed + [texts[i].addr];
        assert AddrsOf(texts[..i + 1]) == AddrsOf(texts[..i]) + {texts[i].addr};
      }
      assert texts[..|texts|] == texts;
      ghost var before := allocatedIPs;
      for i := 0 to |parsed|
        invariant allocatedIPs == before + (set a | a in parsed[..i])
      {
        assert parsed[..i + 1] == parsed[..i] + [parsed[i]];
        allocatedIPs := allocatedIPs + {parsed[i]};
      }
      assert parsed[..|parsed|] == parsed;
      return true;
    }

    /** Takes the first free address of the walk from a drawable offset, or nothing. */
    method AllocateForRange(r: IPRange) returns (a: Option<Addr>, ghost offset: nat)
      requires ValidRange(r)
      modifies this
      ensures Drawable(r.start.value.value, r.end.value.value, offset)
      ensures a == FirstFree(RangeWalk(r, offset), old(allocatedIPs))
      ensures a.Some? ==> InIPRange(a.value, r) && a.value !in old(allocatedIPs)
      ensures allocatedIPs == old(allocatedIPs) + Single(a)
    {
      var first, last := r.start.value.value, r.end.value.value;
      assert Drawable(first, last, 0);
      var draw: nat :| Drawable(first, last, draw);
      offset := draw;
      ghost var w := RangeWalk(r, offset);
      assert w[0..] == w;
      var walker := new IpIterator(RangeFamily(r), first, last, draw);
      while true
        invariant walker.Valid() && fresh(walker)
        invariant walker.family == RangeFamily(r) && walker.first == first
        invariant walker.last == last && walker.offset == draw
        invariant walker.yielded <= |w|
        invariant FirstFree(w, old(allocatedIPs)) == FirstFree(w[walker.yielded..], old(allocatedIPs))
        invariant allocatedIPs == old(allocatedIPs)
        decreases |w| - walker.yielded
      {
        ghost var k := walker.yielded;
        var ip := walker.Next();
        if ip.None? {
          return None, offset;
        }
        FirstFreeStep(w, allocatedIPs, k);
        if ip.value in allocatedIPs {
          continue;
        }
        WalkVisitsOnce(RangeFamily(r), first, last, offset);
        assert ip.value == w[k];
        allocatedIPs := allocatedIPs + {ip.value};
        return ip, offset;
      }
    }

    /** One address per range, IPv4 first, all newly taken; on failure nothing changes. */
    method Allocate(ranges: seq<IPRange>) returns (result: Option<seq<Addr>>)
      modifies this
      ensures result.None? ==> allocatedIPs == old(allocatedIPs) && AllocateMayFail(ranges, allocatedIPs)
      ensures result.Some? ==>
                && Serves(ranges, result.value, old(allocatedIPs))
                && allocatedIPs == old(allocatedIPs) + (set a | a in result.value)
    {
      var v4: Option<Addr>, v6: Option<Addr> := None, None;
      ghost var before := allocatedIPs;
      for i := 0 to |ranges|
        invariant Progress(ranges, i, v4, v6, before)
        invariant allocatedIPs == before + Single(v4) + Single(v6)
      {
        var ip := TakeNext(ranges, i, v4, v6, before);
        if ip.None? {
          ReleaseAll(v4, v6, before);
          return None;
        }
        if RangeFamily(ranges[i]).V6? {
          v6 := ip;
        } else {
          v4 := ip;
        }
      }
      ProgressDone(ranges, v4, v6, before);
      SinglesAreMembers(v4, v6);
      return Some(Opt(v4) + Opt(v6));
    }

    /** One turn of the loop: the checks on a range, and its address. */
    method TakeNext(ranges: seq<IPRange>, i: nat, v4: Option<Addr>, v6: Option<Addr>, ghost before: set<Addr>)
      returns (ip: Option<Addr>)
      requires i < |ranges| && Progress(ranges, i, v4, v6, before)
      requires allocatedIPs == before + Single(v4) + Single(v6)
      modifies this
      ensures allocatedIPs == old(allocatedIPs) + Single(ip)
      ensures ip.None? ==> AllocateMayFail(ranges, before)
      ensures ip.Some? ==>
                && ValidRange(ranges[i])
                && if RangeFamily(ranges[i]).V4? then v4.None? && Progress(ranges, i + 1, ip, v6, before)
                   else v6.None? && Progress(ranges, i + 1, v4, ip, before)
    {
      var r := ranges[i];
      if !ValidRange(r) {
        RangeRefused(ranges, i, v4, v6, before);
        return None;
      }
      if (RangeFamily(r).V6? && v6.Some?) || (RangeFamily(r).V4? && v4.Some?) {
        RangeRefused(ranges, i, v4, v6, before);
        return None;
      }
      ghost var (used, offset) := (allocatedIPs, 0);
      ip, offset := AllocateForRange(r);
      if ip.None? {
        RangeExhausted(ranges, i, offset, before, used);
      } else {
        ProgressStep(ranges, i, v4, v6, before, ip);
      }
    }

    /** The rollback, to what was in use before. */
    method ReleaseAll(v4: Option<Addr>, v6: Option<Addr>, ghost before: set<Addr>)
      requires allocatedIPs == before + Single(v4) + Single(v6)
      requires Single(v4) !! before && Single(v6) !! before
      modifies this
      ensures allocatedIPs == before
    {
      if v4.Some? {
        Release(Cidr(v4.value, 32));
      }
      if v6.Some? {
        Release(Cidr(v6.value, 128));
      }
    }
  }

  lemma {:induction false} RangeExhausted(ranges: seq<IPRange>, i: nat, offset: nat, before: set<Addr>,
                                          used: set<Addr>)
    requires i < |ranges| && ValidRange(ranges[i])
    requires Drawable(ranges[i].start.value.value, ranges[i].end.value.value, offset)
    requires forall a :: a in used && a !in before ==> a.family != RangeFamily(ranges[i])
    requires FirstFree(RangeWalk(ranges[i], offset), used).None?
    ensures AllocateMayFail(ranges, before)
  {
    ExhaustedByOtherFamily(ranges[i], offset, before, used);
    assert Exhausted(ranges[i], before);
  }

  /** Addresses of another family taken earlier in the same call cannot exhaust a range. */
  lemma {:induction false} ExhaustedByOtherFamily(r: IPRange, offset: nat, before: set<Addr>, used: set<Addr>)
    requires ValidRange(r)
    requires forall a :: a in used && a !in before ==> a.family != RangeFamily(r)
    requires FirstFree(RangeWalk(r, offset), used).None?
    ensures FirstFree(RangeWalk(r, offset), before).None?
  {
    WalkVisitsOnce(RangeFamily(r), r.start.value.value, r.end.value.value, offset);
    FirstFreeIsFree(RangeWalk(r, offset), used);
    FirstFreeIsFree(RangeWalk(r, offset), before);
  }

  ghost predicate Full(r: IPRange, used: set<Addr>)
    requires ValidRange(r)
  {
    forall a: Addr :: InIPRange(a, r) ==> a in used
  }

  /** The draw cannot leave the address space, and the range does not end at the family's last address. */
  predicate Wraps(r: IPRange)
    requires ValidRange(r)
  {
    var (f, first, last) := (RangeFamily(r), r.start.value.value, r.end.value.value);
    && last != Top(f)
    && (f.V4? || first + MAX_UINT64 <= Top(f) || last - first + 1 < MAX_INT64)
  }

  /** On a range that wraps, allocation can fail only when every address is taken. */
  lemma {:induction false} ExhaustedExactlyWhenFull(r: IPRange, used: set<Addr>)
    requires ValidRange(r) && Wraps(r)
    ensures Exhausted(r, used) <==> Full(r, used)
  {
    var (f, first, last) := (RangeFamily(r), r.start.value.value, r.end.value.value);
    if Exhausted(r, used) {
      var offset: nat :| Drawable(first, last, offset) && FirstFree(RangeWalk(r, offset), used).None?;
      FirstFreeIsFree(RangeWalk(r, offset), used);
      DrawnOffsetsStayInSpace(f, first, last);
      WalkCoversRange(f, first, last, offset);
      assert Full(r, used);
    }
    if Full(r, used) {
      WalkVisitsOnce(f, first, last, 0);
      FirstFreeIsFree(RangeWalk(r, 0), used);
      assert Drawable(first, last, 0);
    }
  }

  /** Every other range of two addresses or more can be reported exhausted with an address free. */
  lemma {:induction false} UnwrappedRangeCanStarve(r: IPRange)
    requires ValidRange(r) && !Wraps(r) && r.start != r.end
    ensures exists used :: Exhausted(r, used) && !Full(r, used)
  {
    var (f, first, last) := (RangeFamily(r), r.start.value.value, r.end.value.value);
    if last == Top(f) {
      var used: set<Addr> := set v: nat | first < v <= last :: RawAddr(f, v);
      var offset := 1;
      assert Drawable(first, last, offset);
      forall a | a in RangeWalk(r, offset) ensures a in used {
        WalkVisitsOnce(f, first, last, offset);
      }
      FirstFreeIsFree(RangeWalk(r, offset), used);
      assert RawAddr(f, first) !in used && InIPRange(RawAddr(f, first), r);
      assert Exhausted(r, used) && !Full(r, used);
    } else {
      var offset := MAX_UINT64;
      assert Drawable(first, last, offset);
      assert RangeWalk(r, offset) == [];
      assert InIPRange(RawAddr(f, first), r);
      assert Exhausted(r, {}) && !Full(r, {});
    }
  }

  /** So a range is reported exhausted only when it is full, if and only if it wraps or has one address. */
  lemma {:induction false} ExhaustedOnlyWhenFull(r: IPRange)
    requires ValidRange(r)
    ensures (forall used: set<Addr> :: Exhausted(r, used) ==> Full(r, used)) <==> Wraps(r) || r.start == r.end
  {
    if Wraps(r) {
      forall used: set<Addr> | Exhausted(r, used) ensures Full(r, used) {
        ExhaustedExactlyWhenFull(r, used);
      }
    } else if r.start == r.end {
      forall used: set<Addr> | Exhausted(r, used) ensures Full(r, used) {
        OneAddressExhausted(r, used);
      }
    } else {
      UnwrappedRangeCanStarve(r);
    }
  }

  lemma {:induction false} OneAddressExhausted(r: IPRange, used: set<Addr>)
    requires ValidRange(r) && r.start == r.end && Exhausted(r, used)
    ensures Full(r, used)
  {
    var a := r.start.value;
    assert FirstFree(RangeWalk(r, 0), used).None?;
    FirstFreeIsFree(RangeWalk(r, 0), used);
    WalkCoversRange(a.family, a.value, a.value, 0);
  }

  // Interleavings. The allocator's lock makes each of these three operations atomic; an Allocate
  // of several ranges, and its rollback, is a series of them by one caller.

  datatype Op =
    | Ask(caller: nat, range: IPRange, offset: nat) // AllocateForRange and the offset it draws
    | Keep(caller: nat, texts: seq<CidrText>) // Reserve
    | Drop(caller: nat, text: CidrText) // Release

  /** The allocator's set, and for each caller the addresses it holds. */
  datatype Pool = Pool(used: set<Addr>, held: map<nat, set<Addr>>)

  function Held(p: Pool, c: nat): set<Addr> {
    if c in p.held then p.held[c] else {}
  }

  /** The address an AllocateForRange finds, if any. */
  function Found(used: set<Addr>, r: IPRange, offset: nat): (o: Option<Addr>)
    ensures o.Some? ==> ValidRange(r) && InIPRange(o.value, r) && o.value !in used
  {
    if ValidRange(r) then
      FirstFreeIsFree(RangeWalk(r, offset), used);
      WalkVisitsOnce(RangeFamily(r), r.start.value.value, r.end.value.value, offset);
      FirstFree(RangeWalk(r, offset), used)
    else None
  }

  function Apply(p: Pool, op: Op): Pool {
    match op
    case Ask(c, r, offset) =>
      var got := Single(Found(p.used, r, offset));
      Pool(p.used + got, p.held[c := Held(p, c) + got])
    case Keep(c, texts) =>
      if (forall t :: t in texts ==> t.Cidr?) && AddrsOf(texts) !! p.used
      then Pool(p.used + AddrsOf(texts), p.held[c := Held(p, c) + AddrsOf(texts)]) else p
    case Drop(c, text) => Pool(p.used - AddrsOf([text]), p.held[c := Held(p, c) - AddrsOf([text])])
  }

  /** AllocateForRange starts at an offset it can draw; a caller releases only what it holds. */
  predicate Disciplined(p: Pool, op: Op) {
    match op
    case Ask(_, r, offset) => ValidRange(r) ==> Drawable(r.start.value.value, r.end.value.value, offset)
    case Keep(_, _) => true
    case Drop(c, text) => text.Cidr? ==> text.addr in Held(p, c)
  }

  function ApplyAll(p: Pool, ops: seq<Op>): Pool
    decreases |ops|
  {
    if ops == [] then p else ApplyAll(Apply(p, ops[0]), ops[1..])
  }

  predicate AllDisciplined(p: Pool, ops: seq<Op>)
    decreases |ops|
  {
    ops == [] || (Disciplined(p, ops[0]) && AllDisciplined(Apply(p, ops[0]), ops[1..]))
  }

  /** No address has two holders, and the allocator's set is exactly what callers hold. */
  ghost predicate OneHolder(p: Pool) {
    && (forall c, d :: c != d ==> Held(p, c) !! Held(p, d))
    && (forall a :: a in p.used <==> exists c :: a in Held(p, c))
  }

  lemma {:induction false} StepKeepsOneHolder(p: Pool, op: Op)
    requires OneHolder(p) && Disciplined(p, op)
    ensures OneHolder(Apply(p, op))
  {
    var q := Apply(p, op);
    forall c ensures Held(q, c) == if c != op.caller then Held(p, c) else Held(q, c) {
    }
    forall a | a in q.used ensures exists c :: a in Held(q, c) {
      if a in p.used {
        var c :| a in Held(p, c);
        assert a in Held(q, c);
      } else {
        assert a in Held(q, op.caller);
      }
    }
  }

  /** Releasing keeps it if and only if the text does not parse, or its address is the caller's or no one's. */
  lemma {:induction false} ReleaseKeepsOneHolderWhen(p: Pool, c: nat, text: CidrText)
    requires OneHolder(p)
    ensures OneHolder(Apply(p, Drop(c, text)))
       <==> text.Malformed? || text.addr in Held(p, c) || text.addr !in p.used
  {
    var q := Apply(p, Drop(c, text));
    if text.Malformed? || text.addr in Held(p, c) {
      StepKeepsOneHolder(p, Drop(c, text));
    } else if text.addr !in p.used {
      assert text.addr !in Held(p, c);
      SamePoolOneHolder(p, q);
    } else {
      var holder :| text.addr in Held(p, holder);
      assert text.addr in Held(q, holder) && text.addr !in q.used;
    }
  }

  /** The same addresses in use, held by the same callers. */
  ghost predicate SamePool(p: Pool, q: Pool) {
    p.used == q.used && forall c :: Held(p, c) == Held(q, c)
  }

  lemma {:induction false} SamePoolOneHolder(p: Pool, q: Pool)
    requires OneHolder(p) && SamePool(p, q)
    ensures OneHolder(q)
  {
    forall a ensures a in q.used <==> exists c :: a in Held(q, c) {
      if a in q.used {
        var c :| a in Held(p, c);
        assert a in Held(q, c);
      }
      if c :| a in Held(q, c) {
        assert a in Held(p, c);
      }
    }
  }

  /** Uniqueness over every interleaving of the three operations. */
  lemma {:induction false} InterleavingsKeepOneHolder(p: Pool, ops: seq<Op>)
    requires OneHolder(p) && AllDisciplined(p, ops)
    ensures OneHolder(ApplyAll(p, ops))
    decreases |ops|
  {
    if ops != [] {
      StepKeepsOneHolder(p, ops[0]);
      InterleavingsKeepOneHolder(Apply(p, ops[0]), ops[1..]);
    }
  }

  function Only(a: Addr): IPRange {
    IPRange(Some(a), Some(a))
  }

  /** A range of one address gives it exactly when it is free. */
  lemma {:induction false} OnlyFinds(a: Addr, used: set<Addr>)
    ensures Found(used, Only(a), 0) == if a in used then None else Some(a)
  {
    var w := RangeWalk(Only(a), 0);
    assert w == [a];
    assert w[1..] == [];
    assert FirstFree(w, used) == if a !in used then Some(a) else FirstFree(w[1..], used);
  }

  lemma {:induction false} TwoOps(p: Pool, x: Op, y: Op)
    ensures ApplyAll(p, [x, y]) == Apply(Apply(p, x), y)
  {
    assert [x, y][1..] == [y] && [y][1..] == [];
    assert ApplyAll(Apply(p, x), [y]) == ApplyAll(Apply(Apply(p, x), y), []);
  }

  /** Releasing an address someone else holds is what breaks it: the address can then be taken twice. */
  lemma {:induction false} StrangerReleaseSharesAddress(p: Pool, holder: nat, stranger: nat, a: Addr)
    requires OneHolder(p) && a in Held(p, holder) && holder != stranger
    ensures var (drop, ask) := (Drop(stranger, Cidr(a, 0)), Ask(stranger, Only(a), 0));
            Disciplined(Apply(p, drop), ask) && !OneHolder(ApplyAll(p, [drop, ask]))
  {
    var (drop, ask) := (Drop(stranger, Cidr(a, 0)), Ask(stranger, Only(a), 0));
    var p1 := Apply(p, drop);
    TwoOps(p, drop, ask);
    assert AddrsOf([Cidr(a, 0)]) == {a};
    OnlyFinds(a, p1.used);
    assert a in Held(Apply(p1, ask), holder) * Held(Apply(p1, ask), stranger);
  }

  // A failed Allocate among other callers' operations: it takes addresses and then drops them all.

  function Others(ops: seq<Op>, c: nat): seq<Op> {
    if ops == [] then []
    else if ops[0].caller == c then Others(ops[1..], c)
    else [ops[0]] + Others(ops[1..], c)
  }

  /** What c holds on top of its earlier addresses after one of its operations. */
  function Passing(used: set<Addr>, op: Op, t: set<Addr>): set<Addr> {
    match op
    case Ask(_, r, offset) => t + Single(Found(used, r, offset))
    case Keep(_, _) => t
    case Drop(_, text) => t - AddrsOf([text])
  }

  /** The walk has nothing free but for t, or something free that is not in t. */
  ghost predicate LeavesSome(w: seq<Addr>, used: set<Addr>, t: set<Addr>) {
    (forall a :: a in w ==> a in used) || exists a :: a in w && a !in used && a !in t
  }

  /** With used and t taken, the operation succeeds or fails as it does with only used taken; and an address
      found in a range too large to be counted is within reach of a draw. */
  ghost predicate GoesAlike(used: set<Addr>, t: set<Addr>, op: Op) {
    match op
    case Ask(_, r, offset) =>
      ValidRange(r) ==>
        && LeavesSome(RangeWalk(r, offset), used, t)
        && var found := Found(used + t, r, offset);
           found.Some? ==> Drawable(r.start.value.value, r.end.value.value, found.value.value - r.start.value.value)
    case Keep(_, texts) =>
      AddrsOf(texts) !! t || (exists x :: x in texts && x.Malformed?) || !(AddrsOf(texts) !! used)
    case Drop(_, _) => true
  }

  /** c only takes addresses and drops those it took, in the end all of them; and what it holds in between
      makes no other caller's operation fail. */
  ghost predicate OnlyPasses(q: Pool, ops: seq<Op>, c: nat, t: set<Addr>)
    decreases |ops|
  {
    if ops == [] then t == {}
    else if ops[0].caller == c then
      && !ops[0].Keep?
      && (ops[0].Drop? ==> AddrsOf([ops[0].text]) <= t)
      && OnlyPasses(Apply(q, ops[0]), ops[1..], c, Passing(q.used, ops[0], t))
    else
      GoesAlike(q.used - t, t, ops[0]) && OnlyPasses(Apply(q, ops[0]), ops[1..], c, t)
  }

  /** q is p with the addresses in t taken by c besides. */
  ghost predicate Extra(p: Pool, q: Pool, c: nat, t: set<Addr>) {
    && t !! p.used && q.used == p.used + t
    && Held(q, c) == Held(p, c) + t
    && forall d :: d != c ==> Held(q, d) == Held(p, d)
  }

  /** With more taken, the first free address is the same unless it is among those. */
  lemma {:induction false} FirstFreeWithMore(w: seq<Addr>, used: set<Addr>, t: set<Addr>)
    ensures FirstFree(w, used + t) == FirstFree(w, used)
       <==> FirstFree(w, used).None? || FirstFree(w, used).value !in t
  {
    if w != [] {
      FirstFreeWithMore(w[1..], used, t);
      FirstFreeIsFree(w[1..], used + t);
    }
  }

  /** Another caller's AllocateForRange fails as it would without the call if and only if the call leaves some
      address of the walk or there was none; it finds the same address if and only if the call has not taken
      that one. */
  lemma {:induction false} AllocationSeesCallWhen(p: Pool, q: Pool, c: nat, t: set<Addr>, r: IPRange, offset: nat)
    requires Extra(p, q, c, t) && ValidRange(r)
    ensures (Found(q.used, r, offset).None? <==> Found(p.used, r, offset).None?)
       <==> LeavesSome(RangeWalk(r, offset), p.used, t)
    ensures Found(q.used, r, offset) == Found(p.used, r, offset)
       <==> Found(p.used, r, offset).None? || Found(p.used, r, offset).value !in t
  {
    var w := RangeWalk(r, offset);
    FirstFreeIsFree(w, p.used);
    FirstFreeIsFree(w, q.used);
    FirstFreeWithMore(w, p.used, t);
  }

  /** A free address is found by drawing its own place. */
  lemma {:induction false} FoundAtItsPlace(used: set<Addr>, r: IPRange, a: Addr)
    requires ValidRange(r) && InIPRange(a, r) && a !in used
    ensures Found(used, r, a.value - r.start.value.value) == Some(a)
  {
    assert RangeWalk(r, a.value - r.start.value.value)[0] == a;
  }

  lemma {:induction false} OwnStepPasses(p: Pool, q: Pool, c: nat, t: set<Addr>, op: Op)
    requires Extra(p, q, c, t) && OneHolder(q) && op.caller == c && Disciplined(q, op)
    requires !op.Keep? && (op.Drop? ==> AddrsOf([op.text]) <= t)
    requires Held(p, c) <= p.used
    ensures Extra(p, Apply(q, op), c, Passing(q.used, op, t))
  {
  }

  /** The operation with the draw that finds, without the call, what it found beside it. */
  function Redrawn(used: set<Addr>, op: Op): (o: Op)
    ensures SameRequest(op, o)
  {
    if op.Ask? && Found(used, op.range, op.offset).Some?
    then op.(offset := Found(used, op.range, op.offset).value.value - op.range.start.value.value)
    else op
  }

  /** The same operation, up to the offset drawn. */
  predicate SameRequest(x: Op, y: Op) {
    if x.Ask? then y.Ask? && y.caller == x.caller && y.range == x.range else x == y
  }

  lemma {:induction false} AskGoesAlike(p: Pool, q: Pool, c: nat, t: set<Addr>, op: Op)
    requires Extra(p, q, c, t) && op.Ask? && op.caller != c && Disciplined(q, op)
    requires GoesAlike(p.used, t, op)
    ensures var o := Redrawn(q.used, op);
            && Disciplined(p, o) && o.Ask?
            && Found(p.used, o.range, o.offset) == Found(q.used, op.range, op.offset)
  {
    if ValidRange(op.range) {
      AllocationSeesCallWhen(p, q, c, t, op.range, op.offset);
      if Found(q.used, op.range, op.offset).Some? {
        FoundAtItsPlace(p.used, op.range, Found(q.used, op.range, op.offset).value);
      }
    }
  }

  lemma {:induction false} OtherAskSame(p: Pool, q: Pool, c: nat, t: set<Addr>, op: Op)
    requires Extra(p, q, c, t) && OneHolder(q) && op.Ask? && op.caller != c && Disciplined(q, op)
    requires GoesAlike(p.used, t, op)
    ensures Disciplined(p, Redrawn(q.used, op))
    ensures Extra(Apply(p, Redrawn(q.used, op)), Apply(q, op), c, t)
  {
    AskGoesAlike(p, q, c, t, op);
    forall d | d != c ensures Held(Apply(q, op), d) == Held(Apply(p, Redrawn(q.used, op)), d) {
      assert Held(q, d) == Held(p, d);
    }
  }

  lemma {:induction false} OtherDropSame(p: Pool, q: Pool, c: nat, t: set<Addr>, op: Op)
    requires Extra(p, q, c, t) && OneHolder(q) && op.Drop? && op.caller != c && Disciplined(q, op)
    ensures Extra(Apply(p, op), Apply(q, op), c, t)
  {
    if op.text.Cidr? {
      assert AddrsOf([op.text]) == {op.text.addr};
      assert op.text.addr in Held(q, op.caller) && op.text.addr !in Held(q, c);
    }
    forall d | d != c ensures Held(Apply(q, op), d) == Held(Apply(p, op), d) {
      assert Held(q, d) == Held(p, d);
    }
  }

  /** A reservation goes as it would without the call if and only if it fails anyway or asks for nothing the
      call has taken. */
  lemma {:induction false} ReservationSeesCallWhen(p: Pool, q: Pool, c: nat, t: set<Addr>, d: nat,
                                                   texts: seq<CidrText>)
    requires Extra(p, q, c, t) && d != c
    ensures Extra(Apply(p, Keep(d, texts)), Apply(q, Keep(d, texts)), c, t) <==> GoesAlike(p.used, t, Keep(d, texts))
  {
    var (p', q') := (Apply(p, Keep(d, texts)), Apply(q, Keep(d, texts)));
    if GoesAlike(p.used, t, Keep(d, texts)) {
      forall e | e != c ensures Held(q', e) == Held(p', e) {
        assert Held(q, e) == Held(p, e);
      }
    } else {
      var a :| a in AddrsOf(texts) && a in t;
      assert a in p'.used;
    }
  }

  lemma {:induction false} OtherStepSame(p: Pool, q: Pool, c: nat, t: set<Addr>, op: Op)
    requires Extra(p, q, c, t) && OneHolder(q) && op.caller != c && Disciplined(q, op)
    requires GoesAlike(q.used - t, t, op)
    ensures Disciplined(p, Redrawn(q.used, op))
    ensures Extra(Apply(p, Redrawn(q.used, op)), Apply(q, op), c, t)
  {
    assert q.used - t == p.used;
    match op
    case Ask(_, _, _) => OtherAskSame(p, q, c, t, op);
    case Keep(d, texts) => ReservationSeesCallWhen(p, q, c, t, d, texts);
    case Drop(_, _) => OtherDropSame(p, q, c, t, op);
  }

  ghost predicate SameRequests(xs: seq<Op>, ys: seq<Op>) {
    |xs| == |ys| && forall i :: 0 <= i < |xs| ==> SameRequest(xs[i], ys[i])
  }

  lemma {:induction false} Prepended(p: Pool, op: Op, ops: seq<Op>)
    ensures ApplyAll(p, [op] + ops) == ApplyAll(Apply(p, op), ops)
    ensures AllDisciplined(p, [op] + ops) <==> Disciplined(p, op) && AllDisciplined(Apply(p, op), ops)
  {
    assert ([op] + ops)[1..] == ops;
  }

  lemma {:induction false} PassingLeavesNothing(p: Pool, q: Pool, ops: seq<Op>, c: nat, t: set<Addr>)
    returns (redrawn: seq<Op>)
    requires Extra(p, q, c, t) && OneHolder(q) && AllDisciplined(q, ops) && OnlyPasses(q, ops, c, t)
    requires Held(p, c) <= p.used
    ensures SameRequests(Others(ops, c), redrawn) && AllDisciplined(p, redrawn)
    ensures SamePool(ApplyAll(q, ops), ApplyAll(p, redrawn))
    decreases |ops|
  {
    redrawn := [];
    if ops != [] {
      var op := ops[0];
      StepKeepsOneHolder(q, op);
      if op.caller == c {
        OwnStepPasses(p, q, c, t, op);
        redrawn := PassingLeavesNothing(p, Apply(q, op), ops[1..], c, Passing(q.used, op, t));
      } else {
        var o := Redrawn(q.used, op);
        OtherStepSame(p, q, c, t, op);
        redrawn := PassingLeavesNothing(Apply(p, o), Apply(q, op), ops[1..], c, t);
        Prepended(p, o, redrawn);
        redrawn := [o] + redrawn;
      }
    }
  }

  /** A failed Allocate has no net effect however it is interleaved, as long as what it holds in between makes
      no other operation fail: the others' operations, made without it and with suitable draws, leave every
      caller with what it holds now. */
  lemma {:induction false} FailedAllocateLeavesNothing(p: Pool, ops: seq<Op>, c: nat) returns (redrawn: seq<Op>)
    requires OneHolder(p) && AllDisciplined(p, ops) && OnlyPasses(p, ops, c, {})
    ensures SameRequests(Others(ops, c), redrawn) && AllDisciplined(p, redrawn)
    ensures SamePool(ApplyAll(p, ops), ApplyAll(p, redrawn))
  {
    assert Held(p, c) <= p.used;
    redrawn := PassingLeavesNothing(p, p, ops, c, {});
  }

  /** Otherwise it has: while the call holds the last address of a range, another caller's allocation fails
      that would have succeeded. */
  lemma {:induction false} PassingCallStarvesAnother(a: Addr, c: nat, d: nat)
    requires c != d
    ensures var (p, ops) := (Pool({}, map[]), [Ask(c, Only(a), 0), Ask(d, Only(a), 0), Drop(c, Cidr(a, 0))]);
            && OneHolder(p) && AllDisciplined(p, ops)
            && ApplyAll(p, ops).used == Held(ApplyAll(p, ops), d) == {}
            && Held(ApplyAll(p, Others(ops, c)), d) == {a}
  {
    var p := Pool({}, map[]);
    var (x, y, z) := (Ask(c, Only(a), 0), Ask(d, Only(a), 0), Drop(c, Cidr(a, 0)));
    OnlyFinds(a, {});
    OnlyFinds(a, {a});
    assert AddrsOf([Cidr(a, 0)]) == {a};
    var p1 := Apply(p, x);
    var p2 := Apply(p1, y);
    TwoOps(p1, y, z);
    assert [x, y, z][1..] == [y, z] && [y, z][1..] == [z] && [z][1..] == [];
    assert Others([z], c) == Others([], c) && Others([y, z], c) == [y] + Others([z], c);
    assert Others([x, y, z], c) == Others([y, z], c) == [y];
    assert [y][1..] == [];
    assert ApplyAll(p, [y]) == ApplyAll(Apply(p, y), []);
    assert AllDisciplined(p2, [z]) && AllDisciplined(p1, [y, z]);
    assert p2.used == {a} && Held(p2, c) == {a} && Held(p2, d) == {};
    assert ApplyAll(p, [x, y, z]) == Apply(p2, z);
  }
}
